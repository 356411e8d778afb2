/**
  The row arithmetic of `runParallel`: rows `[0, height)` are cut into
  `numThreads` half-open ranges of `height / numThreads` rows each, and the
  last range runs to `height`, absorbing the remainder.
 */
module RowPartition {
  import opened Raster

  datatype RowRange = RowRange(start: int, end: int)
  {
    predicate Contains(row: int) { start <= row < end }
  }

  /** The range handed to thread `i`. */
  function RangeOf(numThreads: int, height: nat, i: int): RowRange
    requires numThreads >= 1
  {
    var rowsPerThread := height / numThreads;
    RowRange(i * rowsPerThread, if i == numThreads - 1 then height else (i + 1) * rowsPerThread)
  }

  /** All ranges, in thread order. */
  function RowRanges(numThreads: int, height: nat): (r: seq<RowRange>)
    requires numThreads >= 1
    ensures |r| == numThreads
  {
    seq(numThreads, i requires 0 <= i < numThreads => RangeOf(numThreads, height, i))
  }

  /**
    The ranges tile `[0, height)` in order: the first starts at 0, each ends
    where the next starts, the last ends at `height`, every range lies inside
    `[0, height)`, and all but the last hold exactly `height / numThreads` rows.
   */
  lemma RangesTile(numThreads: int, height: nat)
    requires numThreads >= 1
    ensures var r := RowRanges(numThreads, height);
      r[0].start == 0 && r[numThreads - 1].end == height &&
      (forall i :: 0 <= i < numThreads - 1 ==> r[i].end == r[i + 1].start) &&
      (forall i :: 0 <= i < numThreads ==> 0 <= r[i].start <= r[i].end <= height) &&
      (forall i :: 0 <= i < numThreads - 1 ==> r[i].end - r[i].start == height / numThreads)
  {
    var r := RowRanges(numThreads, height);
    var q := height / numThreads;
    forall i | 0 <= i < numThreads
      ensures 0 <= r[i].start <= r[i].end <= height
    {
      MulLeq(i, numThreads - 1, q);
      MulLeq(numThreads - 1, numThreads, q);
      assert numThreads * q <= height;
      if i < numThreads - 1 {
        MulLeq(i + 1, numThreads - 1, q);
      }
    }
  }

  /** Some range of `r` holds `row`. */
  predicate Covered(r: seq<RowRange>, row: int)
  {
    exists i :: 0 <= i < |r| && r[i].Contains(row)
  }

  /** The thread whose range holds a row of `[0, height)`. */
  lemma RangeHolding(numThreads: int, height: nat, row: int) returns (i: int)
    requires numThreads >= 1 && 0 <= row < height
    ensures 0 <= i < numThreads && RangeOf(numThreads, height, i).Contains(row)
  {
    var q := height / numThreads;
    if q == 0 {
      i := numThreads - 1;
    } else {
      var d := row / q;
      assert row == d * q + row % q;
      i := if d < numThreads - 1 then d else numThreads - 1;
      MulLeq(i, d, q);
      if i < numThreads - 1 {
        assert (i + 1) * q == i * q + q;
      }
    }
  }

  /** A row lies in some range exactly when it is in `[0, height)`. */
  lemma RangesCover(numThreads: int, height: nat)
    requires numThreads >= 1
    ensures forall row :: 0 <= row < height <==> Covered(RowRanges(numThreads, height), row)
  {
    var r := RowRanges(numThreads, height);
    RangesTile(numThreads, height);
    forall row | Covered(r, row)
      ensures 0 <= row < height
    {
    }
    forall row | 0 <= row < height
      ensures Covered(r, row)
    {
      var i := RangeHolding(numThreads, height, row);
      assert r[i].Contains(row);
    }
  }

  /** No row lies in two ranges. */
  lemma RangesDisjoint(numThreads: int, height: nat)
    requires numThreads >= 1
    ensures var r := RowRanges(numThreads, height);
      forall i, j, row :: 0 <= i < numThreads && 0 <= j < numThreads && r[i].Contains(row) && r[j].Contains(row) ==> i == j
  {
    var r := RowRanges(numThreads, height);
    var q := height / numThreads;
    RangesTile(numThreads, height);
    forall i, j | 0 <= i < j < numThreads
      ensures r[i].end <= r[j].start
    {
      MulLeq(i + 1, j, q);
    }
  }

  /**
    With more threads than rows every range but the last is empty and the
    last one gets all rows.
   */
  lemma MoreThreadsThanRows(numThreads: int, height: nat)
    requires numThreads > height
    ensures var r := RowRanges(numThreads, height);
      (forall i :: 0 <= i < numThreads - 1 ==> r[i] == RowRange(0, 0)) &&
      r[numThreads - 1] == RowRange(0, height)
  {
    DivModUnique(height, numThreads, 0, height);
  }
}
