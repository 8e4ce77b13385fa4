/**
 * Choosing the latest continuous-integration report of a revision
 * (mirror/review/ci.go, and its copy mirror/review/ci/ci.go). The reports
 * are the ones git-appraise parsed from the notes as valid, in note order;
 * the choice is the one with the greatest integer timestamp, and among
 * equal timestamps the later report.
 */
module CI {
  import opened Wrappers
  import opened GoStrings

  /** git-appraise's CI report; only the timestamp is looked at. */
  datatype Report = Report(timestamp: string, url: string, status: string, agent: string)

  /** Go's zero value of the report. */
  const EmptyReport := Report("", "", "", "")

  /** What a timestamp that is not an integer ends the process with. */
  const AtoiFailure := "strconv.Atoi: invalid syntax"

  predicate Timed(r: Report)
  {
    Atoi(r.timestamp).Some?
  }

  function TimeOf(r: Report): int
    requires Timed(r)
  {
    Atoi(r.timestamp).value
  }

  predicate AllTimed(valid: seq<Report>)
  {
    forall i | 0 <= i < |valid| :: Timed(valid[i])
  }

  /** The times of the reports, in order. */
  function Times(valid: seq<Report>): (times: seq<int>)
    requires AllTimed(valid)
    ensures |times| == |valid|
    ensures forall i | 0 <= i < |valid| :: times[i] == TimeOf(valid[i])
  {
    seq(|valid|, i requires 0 <= i < |valid| => TimeOf(valid[i]))
  }

  /** Time k is the greatest, and every later time is smaller. */
  predicate LatestIn(times: seq<int>, k: int)
  {
    && 0 <= k < |times|
    && (forall i | 0 <= i < |times| :: times[i] <= times[k])
    && (forall i | k < i < |times| :: times[i] < times[k])
  }

  /** Report k has the greatest time, and every later report an earlier one. */
  predicate IsLatest(valid: seq<Report>, k: int)
  {
    AllTimed(valid) && LatestIn(Times(valid), k)
  }

  /**
   * The position of the latest time by a single pass that keeps the best so
   * far and lets a later equal time replace it.
   */
  function LatestIndex(times: seq<int>): (k: nat)
    requires times != []
    ensures k < |times|
  {
    if |times| == 1 then 0
    else
      var k := LatestIndex(times[..|times| - 1]);
      if times[|times| - 1] >= times[k] then |times| - 1 else k
  }

  /** The single pass finds the latest time. */
  lemma {:induction false} LatestIndexSpec(times: seq<int>)
    requires times != []
    ensures LatestIn(times, LatestIndex(times))
  {
    if |times| > 1 {
      LatestIndexSpec(times[..|times| - 1]);
      LatestInExtend(times, LatestIndex(times[..|times| - 1]));
    }
  }

  /** One more time is the latest if it is at least the latest so far. */
  lemma LatestInExtend(times: seq<int>, k: int)
    requires |times| > 1 && LatestIn(times[..|times| - 1], k)
    ensures times[|times| - 1] >= times[k] ==> LatestIn(times, |times| - 1)
    ensures times[|times| - 1] < times[k] ==> LatestIn(times, k)
  {
    var front := times[..|times| - 1];
    assert forall i | 0 <= i < |front| :: front[i] == times[i];
  }

  /**
   * The reference choice: fatal when some timestamp is not an integer, the
   * empty report for no reports, otherwise the report the single pass finds.
   */
  function LatestReport(valid: seq<Report>): Result<Report>
  {
    if !AllTimed(valid) then Fatal(AtoiFailure)
    else if valid == [] then Ok(EmptyReport)
    else Ok(valid[LatestIndex(Times(valid))])
  }

  /**
   * The choice is fatal exactly when some timestamp is not an integer, never
   * an ordinary error, the empty report for no reports, and otherwise the
   * one report that is the latest.
   */
  lemma LatestReportSpec(valid: seq<Report>)
    ensures LatestReport(valid).Fatal? <==> !AllTimed(valid)
    ensures !LatestReport(valid).Err?
    ensures AllTimed(valid) && valid == [] ==> LatestReport(valid) == Ok(EmptyReport)
    ensures AllTimed(valid) && valid != [] ==>
      exists k :: IsLatest(valid, k) && LatestReport(valid) == Ok(valid[k])
  {
    if AllTimed(valid) && valid != [] {
      LatestIndexSpec(Times(valid));
      assert IsLatest(valid, LatestIndex(Times(valid)));
    }
  }

  /** At most one report is the latest. */
  lemma LatestIsUnique(times: seq<int>, k1: int, k2: int)
    requires LatestIn(times, k1) && LatestIn(times, k2)
    ensures k1 == k2
  {
    var t1, t2 := times[k1], times[k2];
    assert k1 < k2 ==> t2 < t1;
    assert k2 < k1 ==> t1 < t2;
  }

  /**
   * `GetLatestCIReport`: collect the times and a map from time to report (a
   * later report overwriting an earlier one of the same time), then take
   * the greatest time.
   */
  method GetLatestCIReport(valid: seq<Report>) returns (r: Result<Report>)
    ensures r == LatestReport(valid)
  {
    var timestamps, byTimestamp, source, failed := IndexReports(valid);
    if failed {
      return Fatal(AtoiFailure);
    }
    if |timestamps| == 0 {
      return Ok(EmptyReport);
    }
    var greatest := GreatestOf(timestamps);
    var k := source[greatest];
    assert IsLatest(valid, k);
    LatestIndexSpec(Times(valid));
    LatestIsUnique(Times(valid), k, LatestIndex(Times(valid)));
    return Ok(byTimestamp[greatest]);
  }

  /** Report i is the last of `valid[..k]` with time t. */
  ghost predicate LastWithTime(valid: seq<Report>, t: int, i: int, k: int)
    requires 0 <= k <= |valid|
  {
    && 0 <= i < k && Timed(valid[i]) && TimeOf(valid[i]) == t
    && forall j | i < j < k && Timed(valid[j]) :: TimeOf(valid[j]) != t
  }

  /** The first loop: the times, and the report of each time; `failed` on a timestamp that is not an integer. */
  method IndexReports(valid: seq<Report>)
    returns (timestamps: seq<int>, byTimestamp: map<int, Report>, ghost source: map<int, int>, failed: bool)
    ensures failed <==> !AllTimed(valid)
    ensures !failed ==> (|timestamps| == 0 <==> valid == [])
    ensures byTimestamp.Keys == source.Keys
    ensures forall t | t in timestamps :: t in byTimestamp
    ensures !failed ==> forall i | 0 <= i < |valid| :: TimeOf(valid[i]) in timestamps
    ensures !failed ==> forall t | t in byTimestamp :: LastWithTime(valid, t, source[t], |valid|) && byTimestamp[t] == valid[source[t]]
  {
    timestamps, byTimestamp, source := [], map[], map[];
    for k := 0 to |valid|
      invariant AllTimed(valid[..k])
      invariant |timestamps| == k
      invariant byTimestamp.Keys == source.Keys
      invariant forall t | t in timestamps :: t in byTimestamp
      invariant forall i | 0 <= i < k :: TimeOf(valid[i]) in timestamps
      invariant forall t | t in byTimestamp :: LastWithTime(valid, t, source[t], k) && byTimestamp[t] == valid[source[t]]
    {
      var parsed := Atoi(valid[k].timestamp);
      if parsed.None? {
        assert !Timed(valid[k]);
        return timestamps, byTimestamp, source, true;
      }
      var timestamp := parsed.value;
      assert valid[..k + 1] == valid[..k] + [valid[k]];
      LastWithTimeStep(valid, byTimestamp, source, k);
      timestamps := timestamps + [timestamp];
      byTimestamp := byTimestamp[timestamp := valid[k]];
      source := source[timestamp := k];
    }
    assert valid[..|valid|] == valid;
    failed := false;
  }

  lemma LastWithTimeStep(valid: seq<Report>, byTimestamp: map<int, Report>, source: map<int, int>, k: int)
    requires 0 <= k < |valid| && Timed(valid[k])
    requires byTimestamp.Keys == source.Keys
    requires forall t | t in byTimestamp :: LastWithTime(valid, t, source[t], k) && byTimestamp[t] == valid[source[t]]
    ensures forall t | t in byTimestamp && t != TimeOf(valid[k]) :: LastWithTime(valid, t, source[t], k + 1)
    ensures LastWithTime(valid, TimeOf(valid[k]), k, k + 1)
  {
  }
}
