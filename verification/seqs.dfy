/** Sequence helpers shared by the store operations and the views: removal
    by id and JavaScript's clamping `slice`. */
module Seqs {
  import opened Wrappers

  function Min(a: int, b: int): int {
    if a <= b then a else b
  }

  /** Number of elements of `s` whose id is `id`. */
  function CountId<T>(s: seq<T>, idOf: T -> string, id: string): nat
  {
    if |s| == 0 then 0
    else CountId(s[..|s|-1], idOf, id) + (if idOf(s[|s|-1]) == id then 1 else 0)
  }

  /** Drops every element carrying `id`
      and keeps the rest in their original order. */
  function RemoveId<T>(s: seq<T>, idOf: T -> string, id: string): (r: seq<T>)
    ensures |r| == |s| - CountId(s, idOf, id)
    ensures forall i :: 0 <= i < |r| ==> r[i] in s && idOf(r[i]) != id
    ensures forall i :: 0 <= i < |s| && idOf(s[i]) != id ==> s[i] in r
    ensures (forall i :: 0 <= i < |s| ==> idOf(s[i]) != id) ==> r == s
  {
    if |s| == 0 then []
    else
      var init := s[..|s|-1];
      var last := s[|s|-1];
      assert s == init + [last];
      RemoveId(init, idOf, id) + (if idOf(last) != id then [last] else [])
  }

  /** Removal distributes over concatenation, so the survivors of any two
      consecutive runs keep their relative order. */
  lemma {:induction false} RemoveIdAppend<T>(a: seq<T>, b: seq<T>, idOf: T -> string, id: string)
    ensures RemoveId(a + b, idOf, id) == RemoveId(a, idOf, id) + RemoveId(b, idOf, id)
    decreases |b|
  {
    if |b| == 0 {
      assert a + b == a;
    } else {
      var b' := b[..|b|-1];
      var x := b[|b|-1];
      assert (a + b)[..|a + b| - 1] == a + b';
      assert (a + b)[|a + b| - 1] == x;
      RemoveIdAppend(a, b', idOf, id);
    }
  }

  /** JavaScript `s.slice(start, end)` for non-negative bounds: both bounds
      are clamped to the length and an inverted range is empty. */
  function Slice<T>(s: seq<T>, start: nat, end: nat): (r: seq<T>)
    ensures |r| <= |s|
    ensures start <= end <= |s| ==> r == s[start..end]
    ensures |s| <= start ==> r == []
  {
    var lo := Min(start, |s|);
    var hi := Min(end, |s|);
    if hi <= lo then [] else s[lo..hi]
  }

  /** JavaScript `s.slice(0, n)`. */
  function Take<T>(s: seq<T>, n: nat): (r: seq<T>)
    ensures |r| == Min(n, |s|)
    ensures r == s[..|r|]
  {
    Slice(s, 0, n)
  }

  /** A prefix followed by the slice after it is the longer prefix. */
  lemma TakeThenSlice<T>(s: seq<T>, start: nat, n: nat)
    ensures Take(s, start) + Slice(s, start, start + n) == Take(s, start + n)
  {
    if start < |s| {
      var hi := Min(start + n, |s|);
      assert Slice(s, start, start + n) == s[start..hi];
      assert s[..start] + s[start..hi] == s[..hi];
    }
  }

  /** Removing an id twice is removing it once. */
  lemma RemoveIdIdempotent<T>(s: seq<T>, idOf: T -> string, id: string)
    ensures RemoveId(RemoveId(s, idOf, id), idOf, id) == RemoveId(s, idOf, id)
  {
  }

  /** Index of the first element carrying `id` (the source's `find`). */
  function FirstIndex<T>(s: seq<T>, idOf: T -> string, id: string): (r: Option<nat>)
    ensures r.Some? ==> r.value < |s| && idOf(s[r.value]) == id
    ensures r.Some? ==> forall j :: 0 <= j < r.value ==> idOf(s[j]) != id
    ensures r.None? <==> forall j :: 0 <= j < |s| ==> idOf(s[j]) != id
  {
    if |s| == 0 then None
    else if idOf(s[0]) == id then Some(0)
    else
      match FirstIndex(s[1..], idOf, id)
      case None => None
      case Some(k) => Some(k + 1)
  }

  /** The sequence in reverse order. */
  function Reverse<T>(s: seq<T>): (r: seq<T>)
    ensures |r| == |s|
    ensures forall i :: 0 <= i < |s| ==> r[i] == s[|s| - 1 - i]
  {
    if |s| == 0 then [] else Reverse(s[1..]) + [s[0]]
  }

  /** Truncating the tail early does not change a truncation of the whole. */
  lemma TakeAppendTake<T>(a: seq<T>, b: seq<T>, n: nat)
    ensures Take(a + Take(b, n), n) == Take(a + b, n)
  {
    var l := Take(a + b, n);
    var r := Take(a + Take(b, n), n);
    assert |l| == |r|;
    forall i | 0 <= i < |l| ensures l[i] == r[i] {
      if i >= |a| {
        assert l[i] == b[i - |a|];
      }
    }
  }
}
