/**
 * The decisions the arcanist-backed review tool makes
 * (mirror/review/arcanist/arcanist.go): which reviews belong to a branch,
 * how a revision is titled, which commit starts a review, which inline
 * comments are posted, and what to do with a review request. The conduit
 * calls themselves are not modelled; their decoded answers are inputs and
 * the calls the code would make are outputs.
 */
module Arcanist {
  import opened Wrappers
  import opened GoStrings
  import opened Users
  import NotesComment

  /** Phabricator's marker for a commit hash, as opposed to a tree or blob hash. */
  const CommitHashType: string := "gtcm"

  /** Differential's limit on the length of a review title. */
  const TitleLengthLimit: nat := 256

  const NeedsReviewStatus: string := "0"
  const ClosedStatus: string := "3"
  const AbandonedStatus: string := "4"

  const HeadsPrefix: string := "refs/heads/"

  /** The review request of a git-notes review, as far as the tool reads it. */
  datatype Request = Request(
    reviewRef: string,
    targetRef: string,
    requester: string,
    reviewers: seq<string>,
    description: string)

  /** A review as `differential.query` reports it. */
  datatype DifferentialReview = DifferentialReview(
    id: string,
    phid: string,
    title: string,
    branch: string,
    status: string,
    statusName: string,
    authorPHID: string,
    reviewers: seq<string>,
    hashes: seq<seq<string>>,
    diffs: seq<string>)

  // ---------------------------------------------------------------------------
  // Refs and branches

  /** `abbreviateRefName`: drop one leading "refs/heads/". */
  function AbbreviateRefName(ref: string): (r: string)
    ensures HeadsPrefix <= ref ==> ref == HeadsPrefix + r
    ensures !(HeadsPrefix <= ref) ==> r == ref
  {
    if HeadsPrefix <= ref then ref[|HeadsPrefix|..] else ref
  }

  /** Only one prefix is dropped: "refs/heads/refs/heads/x" becomes "refs/heads/x". */
  lemma AbbreviateOnce(name: string)
    ensures AbbreviateRefName(HeadsPrefix + name) == name
    ensures AbbreviateRefName(HeadsPrefix + HeadsPrefix + name) == HeadsPrefix + name
  {
    assert (HeadsPrefix + HeadsPrefix + name)[|HeadsPrefix|..] == HeadsPrefix + name;
  }

  predicate OnBranch(review: DifferentialReview, reviewRef: string)
  {
    review.branch == reviewRef || review.branch == AbbreviateRefName(reviewRef)
  }

  /** The reviews on the branch of `reviewRef`, in query order. */
  function ReviewsOnBranch(reviews: seq<DifferentialReview>, reviewRef: string): seq<DifferentialReview>
  {
    if reviews == [] then []
    else
      var last := reviews[|reviews| - 1];
      ReviewsOnBranch(reviews[..|reviews| - 1], reviewRef) + (if OnBranch(last, reviewRef) then [last] else [])
  }

  /**
   * The client-side branch filter of `listDifferentialReviewsOrDie` over the
   * reviews the query returned.
   */
  method FilterByBranch(reviews: seq<DifferentialReview>, reviewRef: string) returns (filtered: seq<DifferentialReview>)
    ensures filtered == ReviewsOnBranch(reviews, reviewRef)
  {
    filtered := [];
    for i := 0 to |reviews|
      invariant filtered == ReviewsOnBranch(reviews[..i], reviewRef)
    {
      assert reviews[..i + 1][..i] == reviews[..i];
      if reviews[i].branch == reviewRef || reviews[i].branch == AbbreviateRefName(reviewRef) {
        filtered := filtered + [reviews[i]];
      }
    }
    assert reviews[..|reviews|] == reviews;
  }

  /**
   * A review is kept exactly when its branch is the review ref or its
   * abbreviation, and the kept reviews keep their order.
   */
  lemma {:induction false} ReviewsOnBranchSpec(reviews: seq<DifferentialReview>, reviewRef: string)
    ensures forall r :: r in ReviewsOnBranch(reviews, reviewRef) <==> r in reviews && OnBranch(r, reviewRef)
    ensures |ReviewsOnBranch(reviews, reviewRef)| <= |reviews|
  {
    if reviews != [] {
      var front := reviews[..|reviews| - 1];
      ReviewsOnBranchSpec(front, reviewRef);
      assert reviews == front + [reviews[|reviews| - 1]];
    }
  }

  /** A review that lists its branch without "refs/heads/" is found from the full ref. */
  lemma AbbreviatedBranchMatches(review: DifferentialReview, name: string)
    requires review.branch == name
    ensures OnBranch(review, HeadsPrefix + name)
  {
    AbbreviateOnce(name);
  }

  // ---------------------------------------------------------------------------
  // Status

  /** `isClosed`: closed or abandoned. */
  predicate IsClosed(review: DifferentialReview)
  {
    review.status == ClosedStatus || review.status == AbandonedStatus
  }

  // ---------------------------------------------------------------------------
  // Title, summary, reviewers

  /** The text before the first newline. */
  function FirstLine(description: string): string
  {
    Split(description, '\n')[0]
  }

  /** The first line has no newline, starts the description, and ends at a newline or the end. */
  lemma {:induction false} FirstLineSpec(d: string)
    ensures '\n' !in FirstLine(d)
    ensures FirstLine(d) <= d
    ensures |FirstLine(d)| < |d| ==> d[|FirstLine(d)|] == '\n'
  {
    SplitPiecesLackSeparator(d, '\n');
    if d != [] && d[0] != '\n' {
      FirstLineSpec(d[1..]);
      assert FirstLine(d) == [d[0]] + FirstLine(d[1..]);
    }
  }

  /**
   * The title `createDifferentialRevision` sends: the first line of the
   * description, cut to 252 characters and "..." when it is longer than 256.
   */
  function Title(description: string): (t: string)
    ensures |t| <= TitleLengthLimit
  {
    var line := FirstLine(description);
    if |line| > TitleLengthLimit then line[..TitleLengthLimit - 4] + "..." else line
  }

  /** The summary: the whole description, when the title is not already all of it. */
  function Summary(description: string): (s: string)
    ensures s == description || s == []
  {
    if Title(description) != description then description else []
  }

  /**
   * What the title and summary are: a first line of at most 256 characters
   * is the title as it is, a longer one is cut to its first 252 characters
   * followed by "..."; the title holds no newline; and the summary is the
   * whole description exactly when the title differs from it.
   */
  lemma TitleSummarySpec(d: string)
    ensures |FirstLine(d)| <= TitleLengthLimit ==> Title(d) == FirstLine(d) && Title(d) <= d
    ensures |FirstLine(d)| > TitleLengthLimit ==>
      |d| > TitleLengthLimit && |Title(d)| == 255 && Title(d)[..252] == d[..252] && Title(d)[252..] == "..."
    ensures '\n' !in Title(d)
    ensures Title(d) != d <==> Summary(d) == d && d != []
    ensures Title(d) == d <==> Summary(d) == []
  {
    FirstLineSpec(d);
    var line := FirstLine(d);
    if |line| > TitleLengthLimit {
      assert line[..252] == d[..252];
      assert Title(d) == line[..252] + "...";
      assert forall i | 0 <= i < 252 :: Title(d)[i] == line[i];
    }
    if d == [] {
      assert Split(d, '\n') == [[]];
    }
  }

  /** A one-line description of at most 256 characters is the title and leaves no summary. */
  lemma ShortDescription(d: string)
    requires '\n' !in d && |d| <= TitleLengthLimit
    ensures Title(d) == d && Summary(d) == []
  {
    FirstLineSpec(d);
  }

  /** The PHIDs of the users found, in order; failed or empty lookups are skipped. */
  function FoundPHIDs(lookups: seq<Result<Option<User>>>): (phids: seq<string>)
    ensures |phids| <= |lookups|
  {
    if lookups == [] then []
    else
      var rest := FoundPHIDs(lookups[..|lookups| - 1]);
      var last := lookups[|lookups| - 1];
      if last.Ok? && last.value.Some? then rest + [last.value.value.phid] else rest
  }

  /** The fields of a new revision. */
  datatype RevisionFields = RevisionFields(title: string, summary: string, reviewers: seq<string>, ccs: seq<string>)

  /**
   * The fields `createDifferentialRevision` sends: title and summary from
   * the description; the PHID of each reviewer found, in order; the PHID of
   * the requester, when there is one and it is found. `reviewerLookups[i]`
   * is the answer of `queryUser` for `req.reviewers[i]`.
   */
  method BuildRevisionFields(req: Request, reviewerLookups: seq<Result<Option<User>>>, requesterLookup: Result<Option<User>>)
    returns (fields: RevisionFields)
    requires |reviewerLookups| == |req.reviewers|
    ensures fields.title == Title(req.description) && fields.summary == Summary(req.description)
    ensures fields.reviewers == FoundPHIDs(reviewerLookups)
    ensures fields.ccs == if req.requester != "" && requesterLookup.Ok? && requesterLookup.value.Some?
                          then [requesterLookup.value.value.phid] else []
  {
    var line := Split(req.description, '\n')[0];
    var title := line;
    if |title| > TitleLengthLimit {
      title := title[0..TitleLengthLimit - 4] + "...";
    }
    var summary := "";
    if title != req.description {
      summary := req.description;
    }
    var reviewers := [];
    for i := 0 to |req.reviewers|
      invariant reviewers == FoundPHIDs(reviewerLookups[..i])
    {
      assert reviewerLookups[..i + 1][..i] == reviewerLookups[..i];
      var user := reviewerLookups[i];
      if user.Ok? && user.value.Some? {
        reviewers := reviewers + [user.value.value.phid];
      }
    }
    assert reviewerLookups[..|reviewerLookups|] == reviewerLookups;
    var ccs := [];
    if req.requester != "" {
      if requesterLookup.Ok? && requesterLookup.value.Some? {
        ccs := ccs + [requesterLookup.value.value.phid];
      }
    }
    fields := RevisionFields(title, summary, reviewers, ccs);
  }

  /** Every found reviewer, and only those, contributes its PHID. */
  lemma {:induction false} FoundPHIDsSpec(lookups: seq<Result<Option<User>>>)
    ensures forall p :: p in FoundPHIDs(lookups) <==>
      exists i | 0 <= i < |lookups| :: lookups[i].Ok? && lookups[i].value.Some? && lookups[i].value.value.phid == p
  {
    if lookups != [] {
      var front := lookups[..|lookups| - 1];
      FoundPHIDsSpec(front);
      forall p ensures p in FoundPHIDs(lookups) <==>
        exists i | 0 <= i < |lookups| :: lookups[i].Ok? && lookups[i].value.Some? && lookups[i].value.value.phid == p
      {
        if exists i | 0 <= i < |front| :: front[i].Ok? && front[i].value.Some? && front[i].value.value.phid == p {
          var i :| 0 <= i < |front| && front[i].Ok? && front[i].value.Some? && front[i].value.value.phid == p;
          assert lookups[i] == front[i];
        }
        if exists i | 0 <= i < |lookups| :: lookups[i].Ok? && lookups[i].value.Some? && lookups[i].value.value.phid == p {
          var i :| 0 <= i < |lookups| && lookups[i].Ok? && lookups[i].value.Some? && lookups[i].value.value.phid == p;
          if i < |front| {
            assert front[i] == lookups[i];
          }
        }
      }
    }
  }

  // ---------------------------------------------------------------------------
  // The first commit of a review

  /** The commit hashes of the review: the second element of each two-element "gtcm" pair, in order. */
  function CommitHashes(hashes: seq<seq<string>>): seq<string>
  {
    if hashes == [] then []
    else
      var rest := CommitHashes(hashes[..|hashes| - 1]);
      var pair := hashes[|hashes| - 1];
      if |pair| == 2 && pair[0] == CommitHashType then rest + [pair[1]] else rest
  }

  lemma {:induction false} CommitHashesSpec(hashes: seq<seq<string>>)
    ensures forall c :: c in CommitHashes(hashes) <==>
      exists pair | pair in hashes :: |pair| == 2 && pair[0] == CommitHashType && pair[1] == c
  {
    if hashes != [] {
      CommitHashesSpec(hashes[..|hashes| - 1]);
      assert hashes == hashes[..|hashes| - 1] + [hashes[|hashes| - 1]];
    }
  }

  /**
   * A commit counts when its details load (`commitTime` gives the time
   * field of `GetDetails`) and that time is an integer.
   */
  predicate Dated(commitTime: string -> Option<string>, c: string)
  {
    commitTime(c).Some? && Atoi(commitTime(c).value).Some?
  }

  function TimeOf(commitTime: string -> Option<string>, c: string): int
    requires Dated(commitTime, c)
  {
    Atoi(commitTime(c).value).value
  }

  /**
   * `GetFirstCommit`: among the review's commits whose time can be read,
   * the one with the smallest time; of several equally old ones, the last
   * listed. None when no commit qualifies.
   */
  method GetFirstCommit(review: DifferentialReview, commitTime: string -> Option<string>) returns (first: Option<string>)
    ensures var cs := CommitHashes(review.hashes);
      && (first.None? <==> forall i | 0 <= i < |cs| :: !Dated(commitTime, cs[i]))
      && (first.Some? ==> exists i | 0 <= i < |cs| ::
            && Dated(commitTime, cs[i]) && first.value == cs[i]
            && (forall j | 0 <= j < |cs| && Dated(commitTime, cs[j]) :: TimeOf(commitTime, cs[i]) <= TimeOf(commitTime, cs[j]))
            && (forall j | i < j < |cs| && Dated(commitTime, cs[j]) :: TimeOf(commitTime, cs[j]) != TimeOf(commitTime, cs[i])))
  {
    var commits := ListCommits(review);
    var timestamps, byTimestamp, source := IndexByTimestamp(commits, commitTime);
    if |timestamps| == 0 {
      return None;
    }
    var least := Least(timestamps);
    first := Some(byTimestamp[least]);
    assert LastWithTime(commits, commitTime, least, source[least], |commits|);
  }

  /** The first loop of `GetFirstCommit`: the commit hashes of the review. */
  method ListCommits(review: DifferentialReview) returns (commits: seq<string>)
    ensures commits == CommitHashes(review.hashes)
  {
    commits := [];
    for i := 0 to |review.hashes|
      invariant commits == CommitHashes(review.hashes[..i])
    {
      assert review.hashes[..i + 1][..i] == review.hashes[..i];
      var pair := review.hashes[i];
      if |pair| == 2 && pair[0] == CommitHashType {
        commits := commits + [pair[1]];
      }
    }
    assert review.hashes[..|review.hashes|] == review.hashes;
  }

  /**
   * The second loop of `GetFirstCommit`: the time of every dated commit,
   * and for each time the last commit with it (`source` records its index).
   */
  method IndexByTimestamp(commits: seq<string>, commitTime: string -> Option<string>)
    returns (timestamps: seq<int>, byTimestamp: map<int, string>, ghost source: map<int, int>)
    ensures byTimestamp.Keys == source.Keys
    ensures forall t | t in timestamps :: t in byTimestamp
    ensures forall i | 0 <= i < |commits| && Dated(commitTime, commits[i]) :: TimeOf(commitTime, commits[i]) in timestamps
    ensures forall t | t in byTimestamp :: LastWithTime(commits, commitTime, t, source[t], |commits|) && byTimestamp[t] == commits[source[t]]
  {
    timestamps := [];
    byTimestamp := map[];
    source := map[];
    for k := 0 to |commits|
      invariant byTimestamp.Keys == source.Keys
      invariant forall t | t in timestamps :: t in byTimestamp
      invariant forall i | 0 <= i < k && Dated(commitTime, commits[i]) :: TimeOf(commitTime, commits[i]) in timestamps
      invariant forall t | t in byTimestamp :: LastWithTime(commits, commitTime, t, source[t], k) && byTimestamp[t] == commits[source[t]]
    {
      var details := commitTime(commits[k]);
      var parsed := if details.Some? then Atoi(details.value) else None;
      if parsed.Some? {
        var timestamp := parsed.value;
        assert Dated(commitTime, commits[k]) && TimeOf(commitTime, commits[k]) == timestamp;
        LastWithTimeStep(commits, commitTime, byTimestamp, source, k);
        timestamps := timestamps + [timestamp];
        byTimestamp := byTimestamp[timestamp := commits[k]];
        source := source[timestamp := k];
      } else {
        assert !Dated(commitTime, commits[k]);
        LastWithTimeSkip(commits, commitTime, byTimestamp, source, k);
      }
    }
  }

  /** The smallest of the times (the head of the sorted list). */
  method Least(timestamps: seq<int>) returns (least: int)
    requires |timestamps| > 0
    ensures least in timestamps
    ensures forall t | t in timestamps :: least <= t
  {
    least := timestamps[0];
    for i := 1 to |timestamps|
      invariant least in timestamps
      invariant forall j | 0 <= j < i :: least <= timestamps[j]
    {
      if timestamps[i] < least {
        least := timestamps[i];
      }
    }
  }

  /** Commit i is the last of `commits[..k]` with time t. */
  ghost predicate LastWithTime(commits: seq<string>, commitTime: string -> Option<string>, t: int, i: int, k: int)
    requires 0 <= k <= |commits|
  {
    && 0 <= i < k && Dated(commitTime, commits[i]) && TimeOf(commitTime, commits[i]) == t
    && forall j | i < j < k && Dated(commitTime, commits[j]) :: TimeOf(commitTime, commits[j]) != t
  }

  lemma LastWithTimeStep(commits: seq<string>, commitTime: string -> Option<string>, byTimestamp: map<int, string>, source: map<int, int>, k: int)
    requires 0 <= k < |commits| && Dated(commitTime, commits[k])
    requires byTimestamp.Keys == source.Keys
    requires forall t | t in byTimestamp :: LastWithTime(commits, commitTime, t, source[t], k) && byTimestamp[t] == commits[source[t]]
    ensures forall t | t in byTimestamp && t != TimeOf(commitTime, commits[k]) :: LastWithTime(commits, commitTime, t, source[t], k + 1)
    ensures LastWithTime(commits, commitTime, TimeOf(commitTime, commits[k]), k, k + 1)
  {
  }

  lemma LastWithTimeSkip(commits: seq<string>, commitTime: string -> Option<string>, byTimestamp: map<int, string>, source: map<int, int>, k: int)
    requires 0 <= k < |commits| && !Dated(commitTime, commits[k])
    requires byTimestamp.Keys == source.Keys
    requires forall t | t in byTimestamp :: LastWithTime(commits, commitTime, t, source[t], k)
    ensures forall t | t in byTimestamp :: LastWithTime(commits, commitTime, t, source[t], k + 1)
  {
  }

  // ---------------------------------------------------------------------------
  // Comment requests

  /** A `differential.createinline` request. */
  datatype InlineRequest = InlineRequest(
    revisionID: string, diffID: string, filePath: string, lineNumber: uint32, content: string, isNewFile: uint32)

  /** A `differential.createcomment` request. */
  datatype CommentRequest = CommentRequest(revisionID: string, message: string, action: string, attachInlines: bool)

  /** The diff a commit maps to, or "" when it maps to none (Go's zero value). */
  function DiffFor(commitToDiff: map<string, string>, commit: string): string
  {
    if commit in commitToDiff then commitToDiff[commit] else ""
  }

  /**
   * The inline request for one comment, if any: only comments on a file
   * whose commit maps to a diff; the line is the range's start line, or 1
   * for a whole-file comment; the content is the quoted comment; always on
   * the right-hand side.
   */
  function InlineFor(reviewID: string, c: NotesComment.Comment, commitToDiff: map<string, string>): (r: Option<InlineRequest>)
    ensures r.Some? <==> c.location.Some? && c.location.value.path != "" && DiffFor(commitToDiff, c.location.value.commit) != ""
    ensures r.Some? ==> r.value == InlineRequest(
      reviewID, DiffFor(commitToDiff, c.location.value.commit), c.location.value.path,
      if c.location.value.range.Some? then c.location.value.range.value.startLine else 1,
      NotesComment.QuoteDescription(c), 1)
  {
    if c.location.Some? && c.location.value.path != "" then
      var line: uint32 := if c.location.value.range.Some? then c.location.value.range.value.startLine else 1;
      var diffID := DiffFor(commitToDiff, c.location.value.commit);
      if diffID != "" then
        Some(InlineRequest(reviewID, diffID, c.location.value.path, line, NotesComment.QuoteDescription(c), 1))
      else None
    else None
  }

  /** The inline requests for the comments, in comment order. */
  function Inlines(reviewID: string, comments: seq<NotesComment.Comment>, commitToDiff: map<string, string>): seq<InlineRequest>
  {
    if comments == [] then []
    else
      var rest := Inlines(reviewID, comments[..|comments| - 1], commitToDiff);
      match InlineFor(reviewID, comments[|comments| - 1], commitToDiff)
      case Some(r) => rest + [r]
      case None => rest
  }

  /**
   * `buildCommentRequests`: one inline request per comment that qualifies,
   * in order, and one "comment" request attaching them when there is at
   * least one.
   */
  method BuildCommentRequests(review: DifferentialReview, comments: seq<NotesComment.Comment>, commitToDiff: map<string, string>)
    returns (inlineRequests: seq<InlineRequest>, commentRequests: seq<CommentRequest>)
    ensures inlineRequests == Inlines(review.id, comments, commitToDiff)
    ensures commentRequests == if |inlineRequests| > 0 then [CommentRequest(review.id, "", "comment", true)] else []
  {
    inlineRequests := [];
    commentRequests := [];
    for i := 0 to |comments|
      invariant inlineRequests == Inlines(review.id, comments[..i], commitToDiff)
    {
      assert comments[..i + 1][..i] == comments[..i];
      var c := comments[i];
      if c.location.Some? && c.location.value.path != "" {
        var lineNumber: uint32 := 1;
        if c.location.value.range.Some? {
          lineNumber := c.location.value.range.value.startLine;
        }
        var diffID := if c.location.value.commit in commitToDiff then commitToDiff[c.location.value.commit] else "";
        if diffID != "" {
          var content := NotesComment.QuoteDescription(c);
          inlineRequests := inlineRequests + [InlineRequest(review.id, diffID, c.location.value.path, lineNumber, content, 1)];
        }
      }
    }
    assert comments[..|comments|] == comments;
    if |inlineRequests| > 0 {
      commentRequests := commentRequests + [CommentRequest(review.id, "", "comment", true)];
    }
  }

  /**
   * Every inline request comes from a comment of the list, and every
   * qualifying comment yields one; all are for this review and on the
   * right-hand side.
   */
  lemma {:induction false} InlinesSpec(reviewID: string, comments: seq<NotesComment.Comment>, commitToDiff: map<string, string>)
    ensures |Inlines(reviewID, comments, commitToDiff)| <= |comments|
    ensures forall r | r in Inlines(reviewID, comments, commitToDiff) ::
      r.revisionID == reviewID && r.isNewFile == 1 && exists c | c in comments :: InlineFor(reviewID, c, commitToDiff) == Some(r)
    ensures forall c | c in comments && InlineFor(reviewID, c, commitToDiff).Some? ::
      InlineFor(reviewID, c, commitToDiff).value in Inlines(reviewID, comments, commitToDiff)
  {
    if comments != [] {
      var front := comments[..|comments| - 1];
      InlinesSpec(reviewID, front, commitToDiff);
      assert comments == front + [comments[|comments| - 1]];
    }
  }

  /**
   * The comment-request scenario: a commit comment, a file comment on ABCD
   * and a line comment on EFGH, with ABCD mapped to diff 1 and EFGH to
   * diff 2, give two inline requests (line 1 on diff 1, line 42 on diff 2,
   * both quoting their comment) and one "comment" request.
   */
  method CommentRequestsScenario() returns (inlineRequests: seq<InlineRequest>, commentRequests: seq<CommentRequest>)
    ensures inlineRequests == [
      InlineRequest("testReview", "1", "hello.txt", 1, "example@example.com" + ":\n\n" + "A file comment", 1),
      InlineRequest("testReview", "2", "hello.txt", 42, "example@example.com" + ":\n\n" + "A line comment", 1)]
    ensures commentRequests == [CommentRequest("testReview", "", "comment", true)]
  {
    var review := DifferentialReview("testReview", "", "", "", "", "", "", [], [], []);
    var commitToDiff := map["ABCD" := "1", "EFGH" := "2"];
    var author := "example@example.com";
    var c0 := NotesComment.Comment("01234", author, "", None, "A review comment", None);
    var c1 := NotesComment.Comment("01234", author, "", Some(NotesComment.Location("ABCD", "hello.txt", None)), "A file comment", None);
    var c2 := NotesComment.Comment("01234", author, "",
      Some(NotesComment.Location("EFGH", "hello.txt", Some(NotesComment.Range(42)))), "A line comment", None);
    var comments := [c0, c1, c2];
    assert InlineFor("testReview", c0, commitToDiff) == None;
    assert InlineFor("testReview", c1, commitToDiff)
      == Some(InlineRequest("testReview", "1", "hello.txt", 1, "example@example.com" + ":\n\n" + "A file comment", 1));
    assert InlineFor("testReview", c2, commitToDiff)
      == Some(InlineRequest("testReview", "2", "hello.txt", 42, "example@example.com" + ":\n\n" + "A line comment", 1));
    assert comments[..2][..1] == [c0] && comments[..2] == [c0, c1] && comments[..1][..0] == [];
    assert Inlines("testReview", [c0], commitToDiff) == [];
    assert Inlines("testReview", [c0, c1], commitToDiff) == [InlineRequest("testReview", "1", "hello.txt", 1, "example@example.com" + ":\n\n" + "A file comment", 1)];
    inlineRequests, commentRequests := BuildCommentRequests(review, comments, commitToDiff);
  }

  // ---------------------------------------------------------------------------
  // Mirroring a review request

  /** What `EnsureRequestExists` asks of the tool, one action at a time. */
  datatype Action =
    | Close(id: string)                                    // close an open review
    | Update(review: DifferentialReview, headCommit: string) // `updateReviewDiffs` on the review, to the head commit
    | CreateDiff(base: string, revision: string)           // a diff of the revision against its merge base
    | CreateRevision(revision: string)                     // a revision for the diff just created

  /** The ids of the reviews that are not yet closed, in order. */
  function OpenIDs(reviews: seq<DifferentialReview>): seq<string>
  {
    if reviews == [] then []
    else
      var last := reviews[|reviews| - 1];
      OpenIDs(reviews[..|reviews| - 1]) + (if IsClosed(last) then [] else [last.id])
  }

  /** One update per review, each to the head commit, in order. */
  function UpdateAll(reviews: seq<DifferentialReview>, headCommit: string): seq<Action>
  {
    if reviews == [] then []
    else UpdateAll(reviews[..|reviews| - 1], headCommit) + [Update(reviews[|reviews| - 1], headCommit)]
  }

  /**
   * `EnsureRequestExists`, as the actions it asks for. `mergeBase` is the
   * merge base of the target ref and the revision (Err when it cannot be
   * computed), `existing` the reviews listed for the request, `headCommit`
   * the commit of the review ref (None when the ref does not exist),
   * `diff` the tool's answer to the creation of a diff (Ok(false) when it
   * silently refuses, not Ok when it fails), `revisionMade` whether the
   * revision for it was created, and `relisted` the reviews listed once the
   * revision exists. A failure to create either is fatal.
   */
  function EnsureRequestExists(mergeBase: Result<string>, revision: string, existing: seq<DifferentialReview>, headCommit: Option<string>,
                               diff: Result<bool>, revisionMade: bool, relisted: seq<DifferentialReview>): Result<seq<Action>>
  {
    if !mergeBase.Ok? then Ok([])
    else if mergeBase.value == revision then Ok(seq(|OpenIDs(existing)|, i requires 0 <= i < |OpenIDs(existing)| => Close(OpenIDs(existing)[i])))
    else if headCommit.None? then Ok([])
    else if |existing| > 0 then Ok(UpdateAll(existing, headCommit.value))
    else if !diff.Ok? then Fatal("the diff could not be created")
    else if !diff.value then Ok([CreateDiff(mergeBase.value, revision)])
    else if !revisionMade then Fatal("the revision could not be created")
    else Ok([CreateDiff(mergeBase.value, revision), CreateRevision(revision)] + UpdateAll(relisted, headCommit.value))
  }

  /**
   * The close-on-merged decision: when the revision is its own merge base,
   * only reviews are closed, and exactly the ones not closed yet; otherwise
   * nothing is closed.
   */
  lemma CloseOnMerged(mergeBase: Result<string>, revision: string, existing: seq<DifferentialReview>, headCommit: Option<string>,
                      diff: Result<bool>, revisionMade: bool, relisted: seq<DifferentialReview>)
    ensures var r := EnsureRequestExists(mergeBase, revision, existing, headCommit, diff, revisionMade, relisted);
      && (mergeBase == Ok(revision) ==> r.Ok? && forall a | a in r.value :: a.Close?)
      && (mergeBase == Ok(revision) ==> forall id :: Close(id) in r.value <==> exists c | c in existing :: !IsClosed(c) && c.id == id)
      && (mergeBase != Ok(revision) && r.Ok? ==> forall a | a in r.value :: !a.Close?)
  {
    OpenIDsSpec(existing);
    if mergeBase != Ok(revision) && headCommit.Some? {
      UpdateAllSpec(existing, headCommit.value);
      UpdateAllSpec(relisted, headCommit.value);
    }
    if mergeBase == Ok(revision) {
      var ids := OpenIDs(existing);
      var r := EnsureRequestExists(mergeBase, revision, existing, headCommit, diff, revisionMade, relisted);
      forall id
        ensures Close(id) in r.value <==> id in ids
      {
        if Close(id) in r.value {
          var i :| 0 <= i < |r.value| && r.value[i] == Close(id);
          assert ids[i] == id;
        }
        if id in ids {
          var i :| 0 <= i < |ids| && ids[i] == id;
          assert r.value[i] == Close(id);
        }
      }
    }
  }

  lemma {:induction false} OpenIDsSpec(reviews: seq<DifferentialReview>)
    ensures forall id :: id in OpenIDs(reviews) <==> exists r | r in reviews :: !IsClosed(r) && r.id == id
  {
    if reviews != [] {
      var front := reviews[..|reviews| - 1];
      OpenIDsSpec(front);
      assert reviews == front + [reviews[|reviews| - 1]];
    }
  }

  /** Every review is updated, once, in order, to the head commit. */
  lemma {:induction false} UpdateAllSpec(reviews: seq<DifferentialReview>, headCommit: string)
    ensures |UpdateAll(reviews, headCommit)| == |reviews|
    ensures forall i | 0 <= i < |reviews| :: UpdateAll(reviews, headCommit)[i] == Update(reviews[i], headCommit)
  {
    if reviews != [] {
      var front := reviews[..|reviews| - 1];
      UpdateAllSpec(front, headCommit);
      assert forall i | 0 <= i < |front| :: front[i] == reviews[i];
    }
  }

  /**
   * A request that is not merged is mirrored only when its review ref
   * exists. Existing reviews are each updated to the head commit. Without
   * one, a diff of the revision against the merge base is asked for; a
   * refused diff ends the request there, a created one is followed by a
   * revision and then by an update of every review listed afterwards to
   * the head commit; a failed creation is fatal.
   */
  lemma PendingRequest(mergeBase: Result<string>, revision: string, existing: seq<DifferentialReview>, headCommit: Option<string>,
                       diff: Result<bool>, revisionMade: bool, relisted: seq<DifferentialReview>)
    requires mergeBase.Ok? && mergeBase.value != revision
    ensures var r := EnsureRequestExists(mergeBase, revision, existing, headCommit, diff, revisionMade, relisted);
      && (headCommit.None? ==> r == Ok([]))
      && (headCommit.Some? && existing != [] ==>
            r.Ok? && |r.value| == |existing| && forall i | 0 <= i < |existing| :: r.value[i] == Update(existing[i], headCommit.value))
      && (headCommit.Some? && existing == [] ==>
            && (r.Ok? <==> diff.Ok? && (diff.value ==> revisionMade))
            && (r.Ok? ==> r.value[0] == CreateDiff(mergeBase.value, revision))
            && (r.Ok? ==> (CreateRevision(revision) in r.value <==> diff.value))
            && (r.Ok? && diff.value ==> r.value[2..] == UpdateAll(relisted, headCommit.value)))
      && (r.Ok? ==> forall a | a in r.value && a.Update? :: Some(a.headCommit) == headCommit)
  {
    if headCommit.Some? {
      UpdateAllSpec(existing, headCommit.value);
      UpdateAllSpec(relisted, headCommit.value);
      var r := EnsureRequestExists(mergeBase, revision, existing, headCommit, diff, revisionMade, relisted);
      if existing == [] && r.Ok? && diff.value {
        assert r.value == [CreateDiff(mergeBase.value, revision), CreateRevision(revision)] + UpdateAll(relisted, headCommit.value);
      }
    }
  }

  /**
   * The review created for a request is then brought to the head commit
   * exactly as existing reviews are: the actions after the creation are
   * those of a later call that finds the re-listed reviews existing.
   */
  lemma CreatedReviewIsUpdated(mergeBase: Result<string>, revision: string, headCommit: Option<string>,
                               relisted: seq<DifferentialReview>, diff: Result<bool>, revisionMade: bool, relisted2: seq<DifferentialReview>)
    requires mergeBase.Ok? && mergeBase.value != revision && headCommit.Some? && relisted != []
    ensures EnsureRequestExists(mergeBase, revision, [], headCommit, Ok(true), true, relisted)
      == Ok([CreateDiff(mergeBase.value, revision), CreateRevision(revision)]
            + EnsureRequestExists(mergeBase, revision, relisted, headCommit, diff, revisionMade, relisted2).value)
  {
  }

  /** What `updateReviewDiffs` does with one existing review. */
  datatype UpdatePlan =
    | LeaveAlone            // closed, or no merge base
    | MirrorComments        // the head commit is already in the review
    // a diff of the head against the merge base, after the review's earlier diffs, was asked for and silently refused
    | DiffRefused(base: string, head: string, priorDiffs: seq<string>)
    // that diff was created, and `differential.updaterevision` attached it to the review
    | AttachDiff(base: string, head: string, priorDiffs: seq<string>, reviewID: string, diffID: string)

  /** The review already lists the head commit. */
  predicate HasCommit(review: DifferentialReview, headCommit: string)
  {
    exists pair | pair in review.hashes :: |pair| == 2 && pair[0] == CommitHashType && pair[1] == headCommit
  }

  /**
   * `updateReviewDiffs`. `mergeBase` is the merge base of the target ref and
   * the head commit (Err when it cannot be computed), `diff` the tool's
   * answer to the creation of the diff (the new diff's id, None when it
   * silently refuses, not Ok when it fails), and `updateFailed` whether
   * `differential.updaterevision` reported an error. A failed creation or
   * update is fatal.
   */
  function UpdateReviewDiffs(review: DifferentialReview, headCommit: string, mergeBase: Result<string>,
                             diff: Result<Option<nat>>, updateFailed: bool): Result<UpdatePlan>
  {
    if IsClosed(review) then Ok(LeaveAlone)
    else if !mergeBase.Ok? then Ok(LeaveAlone)
    else if HasCommit(review, headCommit) then Ok(MirrorComments)
    else if !diff.Ok? then Fatal("the diff could not be created")
    else if diff.value.None? then Ok(DiffRefused(mergeBase.value, headCommit, review.diffs))
    else if updateFailed then Fatal("the revision could not be updated")
    else Ok(AttachDiff(mergeBase.value, headCommit, review.diffs, review.id, FormatNat(diff.value.value)))
  }

  /**
   * A closed review, or one without a merge base, is never updated. An open
   * one that lists the head commit only has comments mirrored into it.
   * Otherwise a diff of the head commit against the merge base, following
   * the review's earlier diffs, is asked for: a refusal ends there, a
   * created diff is attached to this review by its decimal id, and a failed
   * creation or update stops the program.
   */
  lemma UpdateReviewDiffsSpec(review: DifferentialReview, headCommit: string, mergeBase: Result<string>,
                              diff: Result<Option<nat>>, updateFailed: bool)
    ensures var r := UpdateReviewDiffs(review, headCommit, mergeBase, diff, updateFailed);
      && (IsClosed(review) || !mergeBase.Ok? ==> r == Ok(LeaveAlone))
      && (!IsClosed(review) && mergeBase.Ok? ==>
            && (r == Ok(MirrorComments) <==> headCommit in CommitHashes(review.hashes))
            && (headCommit !in CommitHashes(review.hashes) ==>
                  && (r.Ok? <==> diff.Ok? && (diff.value.Some? ==> !updateFailed))
                  && (r.Ok? ==> (r.value.DiffRefused? || r.value.AttachDiff?)
                                && r.value.base == mergeBase.value && r.value.head == headCommit
                                && r.value.priorDiffs == review.diffs)
                  && (r.Ok? ==> (r.value.AttachDiff? <==> diff.value.Some?))
                  && (r.Ok? && r.value.AttachDiff? ==>
                        r.value.reviewID == review.id && DecimalValue(r.value.diffID) == diff.value.value)))
  {
    CommitHashesSpec(review.hashes);
    if diff.Ok? && diff.value.Some? {
      FormatNatRoundTrip(diff.value.value);
    }
  }

  /** `Refresh`: the callsign for a repository under "/var/repo/", if any. */
  function RefreshCallsign(repoPath: string): (callsign: Option<string>)
    ensures callsign.Some? <==> "/var/repo/" <= repoPath
    ensures callsign.Some? ==> repoPath == "/var/repo/" + callsign.value
  {
    if "/var/repo/" <= repoPath then Some(TrimPrefix(repoPath, "/var/repo/")) else None
  }
}
