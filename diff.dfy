/**
 * Differential diffs (mirror/review/arcanist/diff.go): finding the commit
 * a diff was generated from in its "local:commits" property, and building
 * that property for a new diff from the diffs before it. Decoded JSON is
 * the `Json` datatype; the `differential.querydiffs` replies are inputs.
 */
module Diff {
  import opened Wrappers
  import opened GoStrings
  import Arcanist

  /** A decoded JSON value, as Go's `interface{}` holds it. */
  datatype Json =
    | JNull
    | JBool(b: bool)
    | JNumber(n: int)
    | JString(s: string)
    | JArray(items: seq<Json>)
    | JObject(fields: map<string, Json>)

  // ---------------------------------------------------------------------------
  // The last commit of a diff

  /** An entry of "local:commits" that takes part: an object whose "time" is a string. */
  predicate Timed(v: Json)
  {
    v.JObject? && "time" in v.fields && v.fields["time"].JString?
  }

  /** A taking-part entry whose time is an integer. */
  predicate Dated(v: Json)
  {
    Timed(v) && Atoi(v.fields["time"].s).Some?
  }

  function TimeOf(v: Json): int
    requires Dated(v)
  {
    Atoi(v.fields["time"].s).value
  }

  /** Some entry has a "time" string that is not an integer, which is fatal. */
  predicate HasBadTime(commits: map<string, Json>)
  {
    exists c | c in commits :: Timed(commits[c]) && !Dated(commits[c])
  }

  /**
   * `findLastCommit`: the commit whose time is the greatest, over the
   * entries that are objects with a string "time"; "" when there is none.
   * A "time" that is not an integer stops the program. The map is visited
   * in no particular order, so of several commits with the greatest time
   * any one may be returned.
   */
  method FindLastCommit(commits: map<string, Json>) returns (r: Result<string>)
    ensures r.Fatal? <==> HasBadTime(commits)
    ensures !r.Err?
    ensures r.Ok? && (forall c | c in commits :: !Timed(commits[c])) ==> r.value == ""
    ensures r.Ok? && (exists c | c in commits :: Timed(commits[c])) ==>
      && r.value in commits && Dated(commits[r.value])
      && forall c | c in commits && Dated(commits[c]) :: TimeOf(commits[c]) <= TimeOf(commits[r.value])
  {
    var timestamps: seq<int> := [];
    var byTimestamp: map<int, string> := map[];
    var remaining := commits.Keys;
    while remaining != {}
      invariant remaining <= commits.Keys
      invariant forall c | c in commits && c !in remaining && Timed(commits[c]) :: Dated(commits[c]) && TimeOf(commits[c]) in timestamps
      invariant forall t | t in timestamps :: t in byTimestamp
      invariant forall t | t in byTimestamp ::
        byTimestamp[t] in commits && Dated(commits[byTimestamp[t]]) && TimeOf(commits[byTimestamp[t]]) == t
      decreases |remaining|
    {
      var commit :| commit in remaining;
      var data := commits[commit];
      if data.JObject? && "time" in data.fields && data.fields["time"].JString? {
        var timestamp := Atoi(data.fields["time"].s);
        if timestamp.None? {
          return Fatal("invalid syntax");
        }
        timestamps := timestamps + [timestamp.value];
        byTimestamp := byTimestamp[timestamp.value := commit];
      }
      remaining := remaining - {commit};
    }
    if |timestamps| == 0 {
      return Ok("");
    }
    var greatest := GreatestOf(timestamps);
    r := Ok(byTimestamp[greatest]);
  }

  /** The "local:commits" object of a diff's properties, if both are objects. */
  function LocalCommitsOf(properties: Json): (commits: Option<map<string, Json>>)
    ensures commits.Some? <==> properties.JObject? && "local:commits" in properties.fields
                               && properties.fields["local:commits"].JObject?
  {
    if properties.JObject? && "local:commits" in properties.fields && properties.fields["local:commits"].JObject?
    then Some(properties.fields["local:commits"].fields)
    else None
  }

  /** Finding the last commit of a diff with these properties stops the program. */
  predicate DiffFatal(properties: Json)
  {
    LocalCommitsOf(properties).Some? && HasBadTime(LocalCommitsOf(properties).value)
  }

  /**
   * `commit` is an acceptable answer for the last commit of a diff with
   * these properties: "" when there is no "local:commits" object or no
   * entry in it has a string time, and otherwise an entry with the
   * greatest time.
   */
  predicate IsLastCommit(properties: Json, commit: string)
  {
    match LocalCommitsOf(properties)
    case None => commit == ""
    case Some(commits) =>
      && ((forall c | c in commits :: !Timed(commits[c])) ==> commit == "")
      && ((exists c | c in commits :: Timed(commits[c])) ==>
            && commit in commits && Dated(commits[commit])
            && forall c | c in commits && Dated(commits[c]) :: TimeOf(commits[c]) <= TimeOf(commits[commit]))
  }

  /**
   * `queryDiffItem.findLastCommit`: "" unless the properties are an object
   * whose "local:commits" is an object, and then the last commit in it.
   */
  method FindDiffLastCommit(properties: Json) returns (r: Result<string>)
    ensures r.Fatal? <==> DiffFatal(properties)
    ensures r.Ok? ==> IsLastCommit(properties, r.value)
    ensures !r.Err?
  {
    var commits := LocalCommitsOf(properties);
    if commits.Some? {
      r := FindLastCommit(commits.value);
    } else {
      r := Ok("");
    }
  }

  /** The times of the last-commit scenario, read as integers; the leading zero is dropped. */
  lemma ScenarioTimes()
    ensures Atoi("012345") == Some(12345) && Atoi("456789") == Some(456789)
  {
    assert DecimalValue("01234") == 1234 by {
      assert "01234"[..4] == "0123" && "0123"[..3] == "012" && "012"[..2] == "01" && "01"[..1] == "0" && "0"[..0] == "";
    }
    assert "012345"[..5] == "01234";
    assert DecimalValue("45678") == 45678 by {
      assert "45678"[..4] == "4567" && "4567"[..3] == "456" && "456"[..2] == "45" && "45"[..1] == "4" && "4"[..0] == "";
    }
    assert "456789"[..5] == "45678";
  }

  /** The last-commit scenario: of two commits timed "012345" and "456789", the later one is found. */
  method LastCommitScenario() returns (last: Result<string>)
    ensures last == Ok("EFGHI")
  {
    var abcd := JObject(map["time" := JString("012345")]);
    var efghi := JObject(map["time" := JString("456789")]);
    var commits := map["ABCD" := abcd, "EFGHI" := efghi];
    ScenarioTimes();
    assert Dated(abcd) && Dated(efghi);
    assert TimeOf(abcd) == 12345 && TimeOf(efghi) == 456789;
    assert !HasBadTime(commits);
    last := FindDiffLastCommit(JObject(map["local:commits" := JObject(commits)]));
    assert commits["ABCD"] == abcd && commits["EFGHI"] == efghi && Timed(commits["ABCD"]);
    assert last.Ok? && last.value in commits;
    assert TimeOf(commits["EFGHI"]) <= TimeOf(commits[last.value]);
    assert last.value != "ABCD";
  }

  /**
   * Malformed properties give "": an entry whose time is a number, an entry
   * that is a string, a "local:commits" that is a string, and properties
   * that are a string.
   */
  method MalformedScenario() returns (malformed: seq<Result<string>>)
    ensures malformed == [Ok(""), Ok(""), Ok(""), Ok("")]
  {
    var numericEntry := JObject(map["time" := JNumber(12345)]);
    var numericTime := JObject(map["local:commits" := JObject(map["ABCD" := numericEntry])]);
    var stringEntry := JObject(map["local:commits" := JObject(map["ABCD" := JString("ABCD")])]);
    var stringCommits := JObject(map["local:commits" := JString("A bunch of stuff")]);
    var stringProperties := JString("props");
    assert !Timed(numericEntry) && !Timed(JString("ABCD"));
    var m0 := FindDiffLastCommit(numericTime);
    var m1 := FindDiffLastCommit(stringEntry);
    var m2 := FindDiffLastCommit(stringCommits);
    var m3 := FindDiffLastCommit(stringProperties);
    malformed := [m0, m1, m2, m3];
  }

  // ---------------------------------------------------------------------------
  // Creating a diff

  /** The decoded reply of a `differential.querydiffs` call: the properties of each diff, by id. */
  datatype QueryDiffsResponse = QueryDiffsResponse(error: string, errorMessage: string, properties: map<string, Json>)

  /** The properties of the diff with this id; a missing diff has none (Go's nil). */
  function PropertiesOf(response: QueryDiffsResponse, diffID: string): Json
  {
    if diffID in response.properties then response.properties[diffID] else JNull
  }

  /** The commits one prior diff contributes: its "local:commits" object, or nothing. */
  function Contribution(response: QueryDiffsResponse, diffID: string): map<string, Json>
  {
    match LocalCommitsOf(PropertiesOf(response, diffID))
    case Some(commits) => commits
    case None => map[]
  }

  /**
   * The "local:commits" gathered from the prior diffs, in order; the first
   * id that is not an integer, or the first query that fails, is the
   * error. `responses[i]` is the reply to the query for `priorDiffs[i]`.
   */
  function PriorCommits(priorDiffs: seq<string>, responses: seq<QueryDiffsResponse>): Result<map<string, Json>>
    requires |responses| == |priorDiffs|
  {
    if priorDiffs == [] then Ok(map[])
    else
      var n := |priorDiffs| - 1;
      var front := PriorCommits(priorDiffs[..n], responses[..n]);
      if !front.Ok? then front else GatherStep(front.value, priorDiffs[n], responses[n])
  }

  /** One prior diff: its id must be an integer and its query must succeed; then its commits are added. */
  function GatherStep(gathered: map<string, Json>, diffID: string, response: QueryDiffsResponse): Result<map<string, Json>>
  {
    if Atoi(diffID).None? then Err("invalid syntax")
    else if response.error != "" then Err(response.errorMessage)
    else Ok(gathered + Contribution(response, diffID))
  }

  /**
   * The "local:commits" property `createDifferentialDiff` sets on a new
   * diff: the commits of every prior diff, then the new revision's details.
   */
  method BuildLocalCommits(revision: string, revisionDetails: Json, priorDiffs: seq<string>, responses: seq<QueryDiffsResponse>)
    returns (r: Result<map<string, Json>>)
    requires |responses| == |priorDiffs|
    ensures r == match PriorCommits(priorDiffs, responses)
                 case Ok(prior) => Ok(prior[revision := revisionDetails])
                 case Err(msg) => Err(msg)
                 case Fatal(reason) => Fatal(reason)
  {
    var localCommits: map<string, Json> := map[];
    for i := 0 to |priorDiffs|
      invariant PriorCommits(priorDiffs[..i], responses[..i]) == Ok(localCommits)
    {
      var step := GatherOne(localCommits, priorDiffs[i], responses[i]);
      assert priorDiffs[..i + 1][..i] == priorDiffs[..i] && responses[..i + 1][..i] == responses[..i];
      assert PriorCommits(priorDiffs[..i + 1], responses[..i + 1]) == step;
      if !step.Ok? {
        PriorCommitsFailureSticks(priorDiffs, responses, i + 1);
        return step;
      }
      localCommits := step.value;
    }
    assert priorDiffs[..|priorDiffs|] == priorDiffs && responses[..|responses|] == responses;
    localCommits := localCommits[revision := revisionDetails];
    r := Ok(localCommits);
  }

  /** The body of the loop over the prior diffs. */
  method GatherOne(localCommits: map<string, Json>, priorDiff: string, response: QueryDiffsResponse)
    returns (r: Result<map<string, Json>>)
    ensures r == GatherStep(localCommits, priorDiff, response)
  {
    var diffID := Atoi(priorDiff);
    if diffID.None? {
      return Err("invalid syntax");
    }
    if response.error != "" {
      return Err(response.errorMessage);
    }
    var merged := localCommits;
    var priorProperty := if priorDiff in response.properties then response.properties[priorDiff] else JNull;
    assert priorProperty == PropertiesOf(response, priorDiff);
    if priorProperty.JObject? && "local:commits" in priorProperty.fields {
      var localCommitsProperty := priorProperty.fields["local:commits"];
      if localCommitsProperty.JObject? {
        merged := CopyEntries(merged, localCommitsProperty.fields);
      }
    }
    assert merged == localCommits + Contribution(response, priorDiff) by {
      if LocalCommitsOf(priorProperty).None? {
        assert localCommits + map[] == localCommits;
      }
    }
    return Ok(merged);
  }

  /** The inner loop of the merge: copy every entry of `from` into `into`, overwriting. */
  method CopyEntries(into: map<string, Json>, from: map<string, Json>) returns (merged: map<string, Json>)
    ensures merged == into + from
  {
    merged := into;
    var ids := from.Keys;
    while ids != {}
      invariant ids <= from.Keys
      invariant merged == into + Done(from, ids)
      decreases |ids|
    {
      var id :| id in ids;
      assert Done(from, ids - {id}) == Done(from, ids)[id := from[id]];
      merged := merged[id := from[id]];
      ids := ids - {id};
    }
    assert Done(from, {}) == from;
  }

  /** The entries of `from` whose keys are not still to be copied. */
  function Done(from: map<string, Json>, ids: set<string>): map<string, Json>
  {
    map k | k in from && k !in ids :: from[k]
  }

  /** Once the gathering has failed, the failure is the outcome of the whole list. */
  lemma {:induction false} PriorCommitsFailureSticks(priorDiffs: seq<string>, responses: seq<QueryDiffsResponse>, k: nat)
    requires |responses| == |priorDiffs| && k <= |priorDiffs|
    requires !PriorCommits(priorDiffs[..k], responses[..k]).Ok?
    ensures PriorCommits(priorDiffs, responses) == PriorCommits(priorDiffs[..k], responses[..k])
    decreases |priorDiffs| - k
  {
    if k < |priorDiffs| {
      assert priorDiffs[..k + 1][..k] == priorDiffs[..k] && responses[..k + 1][..k] == responses[..k];
      PriorCommitsFailureSticks(priorDiffs, responses, k + 1);
    } else {
      assert priorDiffs[..k] == priorDiffs && responses[..k] == responses;
    }
  }

  /**
   * The gathering succeeds exactly when every prior id is an integer and
   * every query succeeds; a failure is the one of the first prior diff
   * that fails.
   */
  lemma {:induction false} PriorCommitsSucceeds(priorDiffs: seq<string>, responses: seq<QueryDiffsResponse>)
    requires |responses| == |priorDiffs|
    ensures PriorCommits(priorDiffs, responses).Ok? <==>
      forall i | 0 <= i < |priorDiffs| :: Usable(priorDiffs[i], responses[i])
    ensures !PriorCommits(priorDiffs, responses).Fatal?
  {
    if priorDiffs != [] {
      var n := |priorDiffs| - 1;
      var front, frontResponses := priorDiffs[..n], responses[..n];
      PriorCommitsSucceeds(front, frontResponses);
      PriorCommitsUnfold(priorDiffs, responses);
      assert forall i | 0 <= i < n :: front[i] == priorDiffs[i] && frontResponses[i] == responses[i];
    }
  }

  /** The id is an integer and its query succeeded. */
  predicate Usable(diffID: string, response: QueryDiffsResponse)
  {
    Atoi(diffID).Some? && response.error == ""
  }

  /** One step of the gathering, in terms of `Usable`. */
  lemma PriorCommitsUnfold(priorDiffs: seq<string>, responses: seq<QueryDiffsResponse>)
    requires |responses| == |priorDiffs| && priorDiffs != []
    ensures var n := |priorDiffs| - 1;
      var front := PriorCommits(priorDiffs[..n], responses[..n]);
      && (!front.Ok? ==> PriorCommits(priorDiffs, responses) == front)
      && (front.Ok? && !Usable(priorDiffs[n], responses[n]) ==> PriorCommits(priorDiffs, responses).Err?)
      && (front.Ok? && Usable(priorDiffs[n], responses[n]) ==>
            PriorCommits(priorDiffs, responses) == Ok(front.value + Contribution(responses[n], priorDiffs[n])))
  {
  }

  /** The prior diff at index i is the last one whose commits include `commit`. */
  predicate LastContributor(priorDiffs: seq<string>, responses: seq<QueryDiffsResponse>, commit: string, i: int)
    requires |responses| == |priorDiffs|
  {
    && 0 <= i < |priorDiffs| && commit in Contribution(responses[i], priorDiffs[i])
    && forall j | i < j < |priorDiffs| :: commit !in Contribution(responses[j], priorDiffs[j])
  }

  /** A commit is gathered exactly when some prior diff lists it. */
  lemma {:induction false} PriorCommitsKeys(priorDiffs: seq<string>, responses: seq<QueryDiffsResponse>)
    requires |responses| == |priorDiffs|
    requires PriorCommits(priorDiffs, responses).Ok?
    ensures var m := PriorCommits(priorDiffs, responses).value;
      forall c :: c in m <==> exists i | 0 <= i < |priorDiffs| :: c in Contribution(responses[i], priorDiffs[i])
  {
    if priorDiffs != [] {
      var n := |priorDiffs| - 1;
      var front, frontResponses := priorDiffs[..n], responses[..n];
      PriorCommitsUnfold(priorDiffs, responses);
      PriorCommitsKeys(front, frontResponses);
      var fm := PriorCommits(front, frontResponses).value;
      var m := PriorCommits(priorDiffs, responses).value;
      assert m == fm + Contribution(responses[n], priorDiffs[n]);
      forall c ensures c in m <==> exists i | 0 <= i < |priorDiffs| :: c in Contribution(responses[i], priorDiffs[i])
      {
        ContributionsStep(priorDiffs, responses, fm, c);
      }
    }
  }

  lemma ContributionsStep(priorDiffs: seq<string>, responses: seq<QueryDiffsResponse>, fm: map<string, Json>, c: string)
    requires |responses| == |priorDiffs| > 0
    requires var n := |priorDiffs| - 1;
      c in fm <==> exists i | 0 <= i < n :: c in Contribution(responses[..n][i], priorDiffs[..n][i])
    ensures var n := |priorDiffs| - 1;
      c in fm + Contribution(responses[n], priorDiffs[n])
      <==> exists i | 0 <= i < |priorDiffs| :: c in Contribution(responses[i], priorDiffs[i])
  {
    var n := |priorDiffs| - 1;
    var front, frontResponses := priorDiffs[..n], responses[..n];
    if c in fm {
      var i :| 0 <= i < n && c in Contribution(frontResponses[i], front[i]);
      assert front[i] == priorDiffs[i] && frontResponses[i] == responses[i];
    }
    if exists i | 0 <= i < |priorDiffs| :: c in Contribution(responses[i], priorDiffs[i]) {
      var i :| 0 <= i < |priorDiffs| && c in Contribution(responses[i], priorDiffs[i]);
      if i < n {
        assert front[i] == priorDiffs[i] && frontResponses[i] == responses[i];
      }
    }
  }

  /** A gathered commit holds what the last prior diff listing it says. */
  lemma {:induction false} PriorCommitsValues(priorDiffs: seq<string>, responses: seq<QueryDiffsResponse>, c: string, i: int)
    requires |responses| == |priorDiffs|
    requires PriorCommits(priorDiffs, responses).Ok?
    requires LastContributor(priorDiffs, responses, c, i)
    ensures c in PriorCommits(priorDiffs, responses).value
    ensures PriorCommits(priorDiffs, responses).value[c] == Contribution(responses[i], priorDiffs[i])[c]
  {
    var n := |priorDiffs| - 1;
    var front, frontResponses := priorDiffs[..n], responses[..n];
    PriorCommitsUnfold(priorDiffs, responses);
    if i < n {
      assert c !in Contribution(responses[n], priorDiffs[n]);
      assert front[i] == priorDiffs[i] && frontResponses[i] == responses[i];
      assert forall j | i < j < n :: front[j] == priorDiffs[j] && frontResponses[j] == responses[j];
      assert LastContributor(front, frontResponses, c, i);
      PriorCommitsValues(front, frontResponses, c, i);
    }
  }

  /**
   * The new diff's "local:commits": the new revision maps to its details,
   * and every other commit is present exactly when a prior diff lists it,
   * with what the last such diff says.
   */
  lemma LocalCommitsSpec(revision: string, revisionDetails: Json, priorDiffs: seq<string>, responses: seq<QueryDiffsResponse>)
    requires |responses| == |priorDiffs|
    requires PriorCommits(priorDiffs, responses).Ok?
    ensures var m := PriorCommits(priorDiffs, responses).value[revision := revisionDetails];
      && m[revision] == revisionDetails
      && (forall c | c != revision :: c in m <==> exists i | 0 <= i < |priorDiffs| :: c in Contribution(responses[i], priorDiffs[i]))
      && (forall c, i | c != revision && LastContributor(priorDiffs, responses, c, i) ::
            c in m && m[c] == Contribution(responses[i], priorDiffs[i])[c])
  {
    PriorCommitsKeys(priorDiffs, responses);
    forall c, i | c != revision && LastContributor(priorDiffs, responses, c, i)
      ensures c in PriorCommits(priorDiffs, responses).value
      ensures PriorCommits(priorDiffs, responses).value[c] == Contribution(responses[i], priorDiffs[i])[c]
    {
      PriorCommitsValues(priorDiffs, responses, c, i);
    }
  }

  /** The request fields of `differential.creatediff` that the mirror sets. */
  datatype CreateDiffRequest = CreateDiffRequest(
    branch: string,
    sourceControlSystem: string,
    sourceControlBaseRevision: string,
    sourcePath: string,
    lintStatus: string,
    unitStatus: string)

  /**
   * The new diff: on the review ref's branch, named without "refs/heads/";
   * from the merge base; with lint and unit results marked postponed ("5").
   */
  function NewDiffRequest(req: Arcanist.Request, mergeBase: string, repoPath: string): (r: CreateDiffRequest)
    ensures Arcanist.HeadsPrefix <= req.reviewRef ==> Arcanist.HeadsPrefix + r.branch == req.reviewRef
    ensures !(Arcanist.HeadsPrefix <= req.reviewRef) ==> r.branch == req.reviewRef
    ensures r.sourceControlSystem == "git" && r.sourceControlBaseRevision == mergeBase && r.sourcePath == repoPath
    ensures r.lintStatus == "5" && r.unitStatus == "5"
  {
    CreateDiffRequest(Arcanist.AbbreviateRefName(req.reviewRef), "git", mergeBase, repoPath, "5", "5")
  }
}
