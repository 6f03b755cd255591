/**
 * The modelled part of `dump_single_log`: the loop that turns a log's tree
 * size and the probed batch size into the list of `get-entries` urls, and the
 * per-url retry loop's choice of which response body to keep.
 */
module LogDump {
  import opened Options
  import opened EntryRanges
  import opened Endpoints

  /** The largest `i64`, the type of `start`, `end` and `tree_size` in the loop. */
  const I64Max: int := 0x7fff_ffff_ffff_ffff

  /**
   * The pagination loop: starting from 0, emit [start, start + batch) until
   * `end` reaches the tree size, never clipping the last range. With a zero
   * batch and a non-empty log the loop never ends, which the precondition
   * rules out; an empty log needs no batch at all.
   */
  method PlanRanges(logUrl: string, treeSize: int, batch: int)
    returns (ranges: seq<EntryRange>, urls: seq<string>)
    requires batch > 0 || treeSize <= 0
    ensures IsTiling(ranges, treeSize, batch)
    ensures |ranges| == RangeCount(treeSize, batch)
    ensures |urls| == |ranges|
    ensures forall k :: 0 <= k < |urls| ==> urls[k] == EntriesUrl(logUrl, ranges[k])
  {
    var start := 0;
    var end := 0;
    ranges, urls := [], [];
    while end < treeSize
      invariant start == end && Reach(ranges) == end
      invariant PlannedPrefix(ranges, treeSize, batch)
      invariant |urls| == |ranges|
      invariant forall k :: 0 <= k < |urls| ==> urls[k] == EntriesUrl(logUrl, ranges[k])
      decreases treeSize - end
    {
      end := start + batch;
      PlannedPrefixStep(ranges, EntryRange(start, end), treeSize, batch);
      ranges := ranges + [EntryRange(start, end)];
      urls := urls + [EntriesUrl(logUrl, EntryRange(start, end))];
      start := end;
    }
    PlannedPrefixDone(ranges, treeSize, batch);
  }

  /**
   * Planned urls come out in ascending order of their start index, and no two
   * of them ask for the same range.
   */
  lemma PlanUrlsAscendingAndDistinct(logUrl: string, ranges: seq<EntryRange>, urls: seq<string>,
                                     treeSize: int, batch: int)
    requires IsTiling(ranges, treeSize, batch) && batch > 0
    requires |urls| == |ranges|
    requires forall k :: 0 <= k < |urls| ==> urls[k] == EntriesUrl(logUrl, ranges[k])
    ensures forall k1, k2 :: 0 <= k1 < k2 < |ranges| ==> ranges[k1].start < ranges[k2].start
    ensures forall k1, k2 :: 0 <= k1 < k2 < |urls| ==> urls[k1] != urls[k2]
  {
    forall k1, k2 | 0 <= k1 < k2 < |ranges|
      ensures ranges[k1].start < ranges[k2].start
    {
      ContiguousAscending(ranges, batch, k1, k2);
    }
    forall k1, k2 | 0 <= k1 < k2 < |urls|
      ensures urls[k1] != urls[k2]
    {
      if urls[k1] == urls[k2] {
        EntriesUrlInjective(logUrl, ranges[k1], ranges[k2]);
      }
    }
  }

  /**
   * `end = start + (parsed_batch_size as i64)` stays inside `i64` whenever the
   * tree size plus the batch size, less one, does: every planned index lies in
   * [0, treeSize + batch - 1].
   */
  lemma PlanFitsInI64(ranges: seq<EntryRange>, treeSize: int, batch: int)
    requires IsTiling(ranges, treeSize, batch) && batch > 0
    requires treeSize + batch - 1 <= I64Max
    ensures forall k :: 0 <= k < |ranges| ==> 0 <= ranges[k].start < ranges[k].end <= I64Max
  {
    TilingCoversOnce(ranges, treeSize, batch);
    forall k | 0 <= k < |ranges|
      ensures 0 <= ranges[k].start < ranges[k].end <= I64Max
    {
      ContiguousClosedForm(ranges, batch, k);
      if k < |ranges| - 1 {
        ContiguousAscending(ranges, batch, k, |ranges| - 1);
      }
      assert k * batch >= 0;
    }
  }

  /**
   * The exact condition for line 196 not to overflow: every planned `start`
   * and `end` fits in an `i64` precisely when the last `end`, the range count
   * times the batch, does.
   */
  lemma PlanFitsInI64Exactly(ranges: seq<EntryRange>, treeSize: int, batch: int)
    requires IsTiling(ranges, treeSize, batch) && batch > 0
    ensures (forall k :: 0 <= k < |ranges| ==> 0 <= ranges[k].start < ranges[k].end <= I64Max)
            <==> RangeCount(treeSize, batch) * batch <= I64Max
  {
    TilingCount(ranges, treeSize, batch);
    var n := |ranges|;
    if n > 0 {
      ContiguousClosedForm(ranges, batch, n - 1);
      if n * batch <= I64Max {
        forall k | 0 <= k < n
          ensures 0 <= ranges[k].start < ranges[k].end <= I64Max
        {
          ContiguousClosedForm(ranges, batch, k);
          MulMonotone(k + 1, n, batch);
          MulMonotone(0, k, batch);
        }
      }
    }
  }

  /** The body the retry loop reads in place of a failed request's. */
  const RetrySentinel := "continue"

  /**
   * `send_request(..).unwrap_or_else(|_| "continue")`: the body of a successful
   * attempt, or the sentinel for a failed one. The result is the sentinel
   * exactly when the attempt failed or its body was literally "continue".
   */
  function BodyOrSentinel(response: Option<string>): (body: string)
    ensures body == RetrySentinel <==> response.None? || response == Some(RetrySentinel)
    ensures response.Some? ==> body == response.value
  {
    match response
    case Some(body) => body
    case None => RetrySentinel
  }

  /** Which attempt's body the retry loop keeps, and the body itself. */
  datatype Accepted = Accepted(attempt: nat, body: string)

  /**
   * Given the outcomes of successive attempts on one url (`None` for a failed
   * request), the first attempt whose body is not the sentinel, or `None` while
   * the loop is still retrying. A successful response whose body is exactly
   * "continue" is retried like a failure.
   */
  function FirstAccepted(responses: seq<Option<string>>): (r: Option<Accepted>)
    ensures r.Some? ==> r.value.attempt < |responses|
    ensures r.Some? ==> responses[r.value.attempt] == Some(r.value.body)
    ensures r.Some? ==> r.value.body != RetrySentinel
    ensures r.Some? ==> forall j :: 0 <= j < r.value.attempt ==> BodyOrSentinel(responses[j]) == RetrySentinel
    ensures r.None? ==> forall j :: 0 <= j < |responses| ==> BodyOrSentinel(responses[j]) == RetrySentinel
  {
    if |responses| == 0 then None
    else if BodyOrSentinel(responses[0]) != RetrySentinel then Some(Accepted(0, responses[0].value))
    else
      match FirstAccepted(responses[1..])
      case None => None
      case Some(a) => Some(Accepted(a.attempt + 1, a.body))
  }
}
