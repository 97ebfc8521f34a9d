/** The column partition of `ComplexPlane::updateRender`: worker `i` of `workers` renders the
    columns `[i * (width / workers), (i + 1) * (width / workers))`. */
module Partition {

  /** First column of worker `i`. */
  function StartX(i: nat, width: nat, workers: nat): nat
    requires 0 < workers
  {
    i * (width / workers)
  }

  /** One past the last column of worker `i`. */
  function StopX(i: nat, width: nat, workers: nat): nat
    requires 0 < workers
  {
    (i + 1) * (width / workers)
  }

  /** Column `x` lies in worker `i`'s range. */
  predicate InRange(x: int, i: nat, width: nat, workers: nat)
    requires 0 < workers
  {
    StartX(i, width, workers) <= x < StopX(i, width, workers)
  }

  /** The columns `[0, CoveredWidth(width, workers))` are the ones some worker renders;
      with no workers there are none. */
  function CoveredWidth(width: nat, workers: nat): nat
  {
    if workers == 0 then 0 else workers * (width / workers)
  }

  /** Each worker's range lies inside the grid, ranges are consecutive, and none reaches
      past the covered width. */
  lemma PartitionBounds(i: nat, width: nat, workers: nat)
    requires 0 < workers && i < workers
    ensures 0 <= StartX(i, width, workers) <= StopX(i, width, workers)
    ensures StopX(i, width, workers) <= CoveredWidth(width, workers) <= width
    ensures StopX(i, width, workers) == StartX(i + 1, width, workers)
  {
    var q := width / workers;
    assert (i + 1) * q <= workers * q;
    assert workers * q + width % workers == width;
  }

  /** Exactly `width mod workers` trailing columns are left to no worker (all of them when
      there are no workers). */
  lemma Uncovered(width: nat, workers: nat)
    ensures CoveredWidth(width, workers) <= width
    ensures width - CoveredWidth(width, workers) == if workers == 0 then width else width % workers
  {
    if workers > 0 {
      assert workers * (width / workers) + width % workers == width;
    }
  }

  /** Two different workers never share a column. */
  lemma PartitionsDisjoint(x: int, i1: nat, i2: nat, width: nat, workers: nat)
    requires 0 < workers && i1 < workers && i2 < workers && i1 != i2
    requires InRange(x, i1, width, workers)
    ensures !InRange(x, i2, width, workers)
  {
    var q := width / workers;
    if i1 < i2 {
      assert (i1 + 1) * q <= i2 * q;
    } else {
      assert (i2 + 1) * q <= i1 * q;
    }
  }

  /** A column belongs to some worker exactly when it lies below the covered width. */
  lemma Coverage(x: int, width: nat, workers: nat)
    requires 0 < workers && 0 <= x
    ensures (exists i: nat :: i < workers && InRange(x, i, width, workers))
        <==> x < CoveredWidth(width, workers)
  {
    var q := width / workers;
    if x < CoveredWidth(width, workers) {
      assert 0 < q;
      var i: nat := x / q;
      assert i * q <= x < (i + 1) * q;
      assert i < workers;
      assert InRange(x, i, width, workers);
    } else {
      forall i: nat | i < workers
        ensures !InRange(x, i, width, workers)
      {
        PartitionBounds(i, width, workers);
      }
    }
  }
}
