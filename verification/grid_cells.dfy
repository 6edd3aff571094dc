/** The cell grids of the time views: a row of `total` cells, a count
    `passed`, and every cell lit as passed (index below the count), current
    (index equal to the count) or still to come. The footer shows the
    share of passed cells as a rounded percentage. */
module GridCells {
  import Numbers
  import Seqs

  datatype Cell = Passed | Current | Future

  /** The class of cell `i` when `passed` cells are gone. */
  function Classify(i: nat, passed: int): (c: Cell)
    ensures c == Passed <==> i < passed
    ensures c == Current <==> i == passed
    ensures c == Future <==> i > passed
  {
    if i < passed then Passed else if i == passed then Current else Future
  }

  /** The number of cells of class `c` among the first `n`. */
  function CountClass(n: nat, passed: int, c: Cell): nat
    decreases n
  {
    if n == 0 then 0
    else CountClass(n - 1, passed, c) + (if Classify(n - 1, passed) == c then 1 else 0)
  }

  /** The lit cells are exactly the first `passed` of them (none when the
      count is negative, all when it exceeds the row). */
  lemma {:induction false} PassedCells(n: nat, passed: int)
    ensures CountClass(n, passed, Passed) == Seqs.Min(Numbers.MaxInt(passed, 0), n)
    decreases n
  {
    if n > 0 {
      PassedCells(n - 1, passed);
    }
  }

  /** There is one current cell when the count falls inside the row and
      none otherwise. */
  lemma {:induction false} CurrentCells(n: nat, passed: int)
    ensures CountClass(n, passed, Current) == if 0 <= passed < n then 1 else 0
    decreases n
  {
    if n > 0 {
      CurrentCells(n - 1, passed);
    }
  }

  /** Every cell has exactly one class. */
  lemma {:induction false} ClassesPartition(n: nat, passed: int)
    ensures CountClass(n, passed, Passed) + CountClass(n, passed, Current) + CountClass(n, passed, Future) == n
    decreases n
  {
    if n > 0 {
      ClassesPartition(n - 1, passed);
    }
  }

  /** The footer: the share of cells gone, in whole percent, rounded. */
  function Progress(passed: nat, total: nat): (pct: int)
    requires total > 0
    ensures passed <= total ==> 0 <= pct <= 100
    ensures passed == total ==> pct == 100
    ensures passed == 0 ==> pct == 0
  {
    FullShare(passed, total);
    Numbers.RoundInt(100);
    Numbers.RoundInt(0);
    Numbers.Round(passed as real / total as real * 100.0)
  }

  lemma FullShare(passed: nat, total: nat)
    requires total > 0
    ensures passed == total ==> passed as real / total as real == 1.0
  {
    var x := total as real;
    assert (x / x) * x == x;
  }

  /** More passed cells never show a smaller percentage. */
  lemma ProgressMonotone(p: nat, q: nat, total: nat)
    requires total > 0 && p <= q
    ensures Progress(p, total) <= Progress(q, total)
  {
    assert p as real / total as real <= q as real / total as real;
    Numbers.RoundMonotone(p as real / total as real * 100.0, q as real / total as real * 100.0);
  }
}
