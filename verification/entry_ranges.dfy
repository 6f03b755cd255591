/**
 * Ranges of log entry indices, one per `get-entries` request, and the
 * tiling they form when `dump_single_log` plans a whole log.
 */
module EntryRanges {

  /** The half-open span [start, end) of entry indices one request is planned to cover. */
  datatype EntryRange = EntryRange(start: int, end: int)

  predicate Contains(r: EntryRange, i: int) {
    r.start <= i < r.end
  }

  /** One past the last index the ranges reach, or 0 when there are none. */
  function Reach(rs: seq<EntryRange>): int {
    if |rs| == 0 then 0 else rs[|rs| - 1].end
  }

  /** Ranges of width `batch` laid end to end from index 0. */
  predicate Contiguous(rs: seq<EntryRange>, batch: int) {
    && (|rs| > 0 ==> rs[0].start == 0)
    && (forall k :: 0 < k < |rs| ==> rs[k].start == rs[k - 1].end)
    && (forall k :: 0 <= k < |rs| ==> rs[k].end - rs[k].start == batch)
  }

  /**
   * The shape of the planner's output for a log of `treeSize` entries:
   * contiguous ranges of width `batch`, none when the log is empty, every range
   * but the last ending inside the log and the last one reaching its end.
   */
  predicate IsTiling(rs: seq<EntryRange>, treeSize: int, batch: int) {
    && Contiguous(rs, batch)
    && (|rs| == 0 <==> treeSize <= 0)
    && (forall k :: 0 <= k < |rs| - 1 ==> rs[k].end < treeSize)
    && (|rs| > 0 ==> rs[|rs| - 1].end >= treeSize)
  }

  /** How many batches of `batch` entries a log of `treeSize` entries takes. */
  function RangeCount(treeSize: int, batch: int): nat
    requires batch > 0 || treeSize <= 0
    decreases if treeSize > 0 then treeSize else 0
  {
    if treeSize <= 0 then 0 else 1 + RangeCount(treeSize - batch, batch)
  }

  /** The number of ranges in `rs` that contain index `i`. */
  function Hits(rs: seq<EntryRange>, i: int): nat {
    if |rs| == 0 then 0
    else Hits(rs[..|rs| - 1], i) + (if Contains(rs[|rs| - 1], i) then 1 else 0)
  }

  /**
   * What holds of the ranges planned so far: they are contiguous, all but the
   * last end inside the log, and the ranges still to come number
   * RangeCount of what is left.
   */
  predicate PlannedPrefix(rs: seq<EntryRange>, treeSize: int, batch: int)
    requires batch > 0 || treeSize <= 0
  {
    && Contiguous(rs, batch)
    && Reach(rs) >= 0
    && (forall k :: 0 <= k < |rs| - 1 ==> rs[k].end < treeSize)
    && (|rs| > 0 ==> treeSize > 0)
    && |rs| + RangeCount(treeSize - Reach(rs), batch) == RangeCount(treeSize, batch)
  }

  /** Appending the next batch to an unfinished plan keeps it a planned prefix. */
  lemma PlannedPrefixStep(rs: seq<EntryRange>, next: EntryRange, treeSize: int, batch: int)
    requires batch > 0 || treeSize <= 0
    requires PlannedPrefix(rs, treeSize, batch) && Reach(rs) < treeSize
    requires next == EntryRange(Reach(rs), Reach(rs) + batch)
    ensures PlannedPrefix(rs + [next], treeSize, batch) && Reach(rs + [next]) == next.end
  {
  }

  /** A planned prefix that has reached the end of the log is the whole tiling. */
  lemma PlannedPrefixDone(rs: seq<EntryRange>, treeSize: int, batch: int)
    requires batch > 0 || treeSize <= 0
    requires PlannedPrefix(rs, treeSize, batch) && Reach(rs) >= treeSize
    ensures IsTiling(rs, treeSize, batch)
    ensures |rs| == RangeCount(treeSize, batch)
  {
  }

  /** `RangeCount` is the ceiling of `treeSize / batch`. */
  lemma {:induction false} RangeCountIsCeiling(treeSize: int, batch: int)
    requires batch > 0
    ensures treeSize <= 0 ==> RangeCount(treeSize, batch) == 0
    ensures treeSize > 0 ==>
              (RangeCount(treeSize, batch) - 1) * batch < treeSize <= RangeCount(treeSize, batch) * batch
    ensures treeSize > 0 ==> RangeCount(treeSize, batch) == (treeSize + batch - 1) / batch
    decreases if treeSize > 0 then treeSize else 0
  {
    if treeSize > 0 {
      var c := RangeCount(treeSize - batch, batch);
      RangeCountIsCeiling(treeSize - batch, batch);
      assert (c + 1) * batch == c * batch + batch;
      DivOfBounds(treeSize + batch - 1, batch, c + 1);
    }
  }

  lemma DivOfBounds(x: int, b: int, n: int)
    requires b > 0
    requires n * b <= x < n * b + b
    ensures x / b == n
  {
    var q, r := x / b, x % b;
    assert x == q * b + r && 0 <= r < b;
    assert -b < (q - n) * b < b;
    SmallMultiple(q - n, b);
  }

  lemma SmallMultiple(d: int, b: int)
    requires b > 0 && -b < d * b < b
    ensures d == 0
  {
    if d != 0 {
      var m := if d > 0 then d else -d;
      MulMonotone(1, m, b);
    }
  }

  lemma MulMonotone(x: int, y: int, b: int)
    requires x <= y && b >= 0
    ensures x * b <= y * b
  {
    assert y * b - x * b == (y - x) * b;
  }

  /** The k-th planned range of a contiguous plan is [k * batch, (k + 1) * batch). */
  lemma {:induction false} ContiguousClosedForm(rs: seq<EntryRange>, batch: int, k: int)
    requires Contiguous(rs, batch)
    requires 0 <= k < |rs|
    ensures rs[k] == EntryRange(k * batch, (k + 1) * batch)
    decreases k
  {
    if k > 0 {
      ContiguousClosedForm(rs, batch, k - 1);
      assert (k + 1) * batch == k * batch + batch;
    }
  }

  /** Later ranges start no earlier than earlier ranges end: the plan is in ascending order. */
  lemma {:induction false} ContiguousAscending(rs: seq<EntryRange>, batch: int, k1: int, k2: int)
    requires Contiguous(rs, batch) && batch >= 0
    requires 0 <= k1 < k2 < |rs|
    ensures rs[k1].end <= rs[k2].start
    decreases k2 - k1
  {
    if k1 + 1 < k2 {
      ContiguousAscending(rs, batch, k1 + 1, k2);
    }
  }

  /** Contiguous ranges hit every index below their reach exactly once and no other index. */
  lemma {:induction false} ContiguousHits(rs: seq<EntryRange>, batch: int)
    requires Contiguous(rs, batch) && batch >= 0
    ensures Reach(rs) >= 0
    ensures forall i :: Hits(rs, i) == (if 0 <= i < Reach(rs) then 1 else 0)
    decreases |rs|
  {
    if |rs| > 0 {
      var p := rs[..|rs| - 1];
      assert Contiguous(p, batch);
      ContiguousHits(p, batch);
      assert rs[|rs| - 1].start == Reach(p);
    }
  }

  /**
   * A tiling covers every index of the log exactly once, overlaps nowhere,
   * and overshoots the end of the log by less than one batch.
   */
  lemma TilingCoversOnce(rs: seq<EntryRange>, treeSize: int, batch: int)
    requires IsTiling(rs, treeSize, batch) && batch > 0
    ensures forall i :: 0 <= i < treeSize ==> Hits(rs, i) == 1
    ensures forall i :: Hits(rs, i) <= 1
    ensures treeSize > 0 ==> treeSize <= Reach(rs) < treeSize + batch
  {
    ContiguousHits(rs, batch);
    if |rs| > 1 {
      assert rs[|rs| - 2].end < treeSize;
    }
  }

  /** A tiling has exactly the ceiling of `treeSize / batch` ranges. */
  lemma TilingCount(rs: seq<EntryRange>, treeSize: int, batch: int)
    requires IsTiling(rs, treeSize, batch) && batch > 0
    ensures |rs| == RangeCount(treeSize, batch)
  {
    RangeCountIsCeiling(treeSize, batch);
    if treeSize > 0 {
      var n, c := |rs|, RangeCount(treeSize, batch);
      ContiguousClosedForm(rs, batch, n - 1);
      assert (n - 1) * batch < treeSize by {
        if n > 1 {
          ContiguousClosedForm(rs, batch, n - 2);
          assert rs[n - 2].end < treeSize;
        }
      }
      if n < c {
        MulMonotone(n, c - 1, batch);
      } else if n > c {
        MulMonotone(c, n - 1, batch);
      }
    }
  }

  /** There is only one tiling for a given log size and batch size. */
  lemma TilingUnique(rs1: seq<EntryRange>, rs2: seq<EntryRange>, treeSize: int, batch: int)
    requires IsTiling(rs1, treeSize, batch) && IsTiling(rs2, treeSize, batch) && batch > 0
    ensures rs1 == rs2
  {
    TilingCount(rs1, treeSize, batch);
    TilingCount(rs2, treeSize, batch);
    forall k | 0 <= k < |rs1|
      ensures rs1[k] == rs2[k]
    {
      ContiguousClosedForm(rs1, batch, k);
      ContiguousClosedForm(rs2, batch, k);
    }
  }

  /** A log of 250 entries served 100 at a time is fetched as [0,100), [100,200), [200,300). */
  lemma TilingOf250By100(rs: seq<EntryRange>)
    requires IsTiling(rs, 250, 100)
    ensures rs == [EntryRange(0, 100), EntryRange(100, 200), EntryRange(200, 300)]
  {
    var expected := [EntryRange(0, 100), EntryRange(100, 200), EntryRange(200, 300)];
    assert IsTiling(expected, 250, 100);
    TilingUnique(rs, expected, 250, 100);
  }
}
