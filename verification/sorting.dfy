/** Ordering milestones by their planned age: the age a milestone is
    filed under (the estimated age, 0 when missing), order-preserving
    filtering by age, and the stable sort JavaScript's `Array.prototype.sort` performs (stable
    since ES2019) with the comparator `age(a) - age(b)`. */
module MilestoneOrder {
  import opened Types

  /** The age a milestone is filed under: its estimated age, or 0 when it
      has none. */
  function Age(m: Milestone): int {
    m.estimatedAge.GetOr(0)
  }

  /** The milestones filed under age `v`, in order. */
  function FilterAge(s: seq<Milestone>, v: int): (r: seq<Milestone>)
    ensures |r| <= |s|
    ensures forall i :: 0 <= i < |r| ==> Age(r[i]) == v
  {
    if |s| == 0 then []
    else (if Age(s[0]) == v then [s[0]] else []) + FilterAge(s[1..], v)
  }

  lemma {:induction false} FilterAgeAppend(a: seq<Milestone>, b: seq<Milestone>, v: int)
    ensures FilterAge(a + b, v) == FilterAge(a, v) + FilterAge(b, v)
  {
    if |a| == 0 {
      assert a + b == b;
    } else {
      assert (a + b)[1..] == a[1..] + b;
      FilterAgeAppend(a[1..], b, v);
    }
  }

  lemma {:induction false} FilterAgeNone(t: seq<Milestone>, v: int)
    requires forall i :: 0 <= i < |t| ==> Age(t[i]) != v
    ensures FilterAge(t, v) == []
  {
    if |t| > 0 {
      FilterAgeNone(t[1..], v);
    }
  }

  predicate SortedByAge(s: seq<Milestone>) {
    forall i, j :: 0 <= i < j < |s| ==> Age(s[i]) <= Age(s[j])
  }

  /** In a list sorted by age, anything younger than an element of a
      prefix lies inside that prefix. */
  lemma SortedPrefixHoldsYounger(sorted: seq<Milestone>, n: nat, m: Milestone, i: nat)
    requires SortedByAge(sorted) && n <= |sorted|
    requires m in sorted && i < n && Age(m) < Age(sorted[i])
    ensures m in sorted[..n]
  {
    var k :| 0 <= k < |sorted| && sorted[k] == m;
    assert k < n;
    assert sorted[..n][k] == m;
  }

  /** Where a stable insertion puts `x`: in front of the first milestone
      of greater age. */
  function InsertPos(x: Milestone, t: seq<Milestone>): (k: nat)
    ensures k <= |t|
    ensures forall i :: 0 <= i < k ==> Age(t[i]) <= Age(x)
    ensures k < |t| ==> Age(x) < Age(t[k])
  {
    if |t| == 0 || Age(x) < Age(t[0]) then 0 else 1 + InsertPos(x, t[1..])
  }

  /** Inserts `x` behind every milestone of no greater age, so that it
      follows the equal-aged milestones that preceded it in the input. */
  function InsertByAge(x: Milestone, t: seq<Milestone>): (r: seq<Milestone>)
    ensures |r| == |t| + 1
    ensures multiset(r) == multiset(t) + multiset{x}
    ensures SortedByAge(t) ==> SortedByAge(r)
  {
    var k := InsertPos(x, t);
    assert t == t[..k] + t[k..];
    InsertAtPosSorted(x, t);
    t[..k] + [x] + t[k..]
  }

  lemma InsertAtPosSorted(x: Milestone, t: seq<Milestone>)
    ensures var k := InsertPos(x, t);
            SortedByAge(t) ==> SortedByAge(t[..k] + [x] + t[k..])
  {
    var k := InsertPos(x, t);
    var r := t[..k] + [x] + t[k..];
    if SortedByAge(t) {
      forall i, j | 0 <= i < j < |r| ensures Age(r[i]) <= Age(r[j]) {
        if j < k {
          assert r[i] == t[i] && r[j] == t[j];
        } else if j == k {
          assert r[i] == t[i] && r[j] == x;
        } else if i < k {
          assert r[i] == t[i] && r[j] == t[j - 1];
        } else if i == k {
          assert r[i] == x && r[j] == t[j - 1];
          assert Age(t[k]) <= Age(t[j - 1]);
        } else {
          assert r[i] == t[i - 1] && r[j] == t[j - 1];
        }
      }
    }
  }

  /** Stable sort by age. */
  function SortByAge(s: seq<Milestone>): (r: seq<Milestone>)
    ensures |r| == |s|
    ensures multiset(r) == multiset(s)
    ensures SortedByAge(r)
  {
    if |s| == 0 then []
    else
      assert s == s[..|s| - 1] + [s[|s| - 1]];
      InsertByAge(s[|s| - 1], SortByAge(s[..|s| - 1]))
  }

  lemma FilterAgeSingle(x: Milestone, v: int)
    ensures FilterAge([x], v) == if Age(x) == v then [x] else []
  {
    assert [x][1..] == [];
  }

  lemma FilterAroundInsert(a: seq<Milestone>, x: Milestone, b: seq<Milestone>, v: int)
    ensures FilterAge(a + [x] + b, v) == FilterAge(a, v) + (if Age(x) == v then [x] else []) + FilterAge(b, v)
  {
    FilterAgeAppend(a + [x], b, v);
    FilterAgeAppend(a, [x], v);
    FilterAgeSingle(x, v);
  }

  /** Behind the insertion point every age is greater than the inserted
      one's. */
  lemma InsertTailIsOlder(x: Milestone, t: seq<Milestone>, v: int)
    requires SortedByAge(t) && Age(x) == v
    ensures forall i :: 0 <= i < |t[InsertPos(x, t)..]| ==> Age(t[InsertPos(x, t)..][i]) != v
  {
    var k := InsertPos(x, t);
    forall i | 0 <= i < |t[k..]| ensures Age(t[k..][i]) != v {
      assert t[k..][i] == t[k + i];
      assert Age(t[k]) <= Age(t[k + i]);
    }
  }

  lemma FilterSplit(t: seq<Milestone>, k: nat, v: int)
    requires k <= |t|
    ensures FilterAge(t, v) == FilterAge(t[..k], v) + FilterAge(t[k..], v)
  {
    assert t == t[..k] + t[k..];
    FilterAgeAppend(t[..k], t[k..], v);
  }

  lemma InsertByAgeStable(x: Milestone, t: seq<Milestone>, v: int)
    requires SortedByAge(t)
    ensures FilterAge(InsertByAge(x, t), v) == FilterAge(t, v) + (if Age(x) == v then [x] else [])
  {
    var k := InsertPos(x, t);
    var a, b := t[..k], t[k..];
    assert InsertByAge(x, t) == a + [x] + b;
    FilterAroundInsert(a, x, b, v);
    FilterSplit(t, k, v);
    if Age(x) == v {
      InsertTailIsOlder(x, t, v);
      FilterAgeNone(b, v);
    }
  }

  /** The sort is stable: the milestones of each age keep their input
      order. */
  lemma {:induction false} SortByAgeStable(s: seq<Milestone>, v: int)
    ensures FilterAge(SortByAge(s), v) == FilterAge(s, v)
    decreases |s|
  {
    if |s| > 0 {
      var init := s[..|s| - 1];
      assert s == init + [s[|s| - 1]];
      SortByAgeStable(init, v);
      InsertByAgeStable(s[|s| - 1], SortByAge(init), v);
      FilterAgeAppend(init, [s[|s| - 1]], v);
      assert FilterAge([s[|s| - 1]], v) == (if Age(s[|s| - 1]) == v then [s[|s| - 1]] else []) + FilterAge([], v);
    }
  }
}
