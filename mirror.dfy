/**
 * One mirroring pass over a repository (mirror/mirror.go): when the
 * repository's state has changed since it was last processed, every review
 * of the notes is recorded and handed to the review tool, and the tool's
 * open reviews are listed again; in every pass, the comments of each open
 * review are appended as notes to its first commit unless an overlapping
 * comment is already in the notes.
 *
 * The repository, the review tool and the open reviews are interfaces whose
 * answers are given as values; what the pass asks of them is returned as a
 * sequence of effects, in the order the pass performs them.
 */
module Mirror {
  import opened Wrappers
  import N = NotesComment
  import RC = ReviewComment

  type Comment = N.Comment
  type Thread = RC.Thread

  // ---------------------------------------------------------------------------
  // Overlap with the comments already in the notes

  /** `hasOverlap`: some comment of the threads, at any depth, overlaps c. */
  predicate HasOverlap(c: Comment, threads: seq<Thread>)
    decreases threads
  {
    if threads == [] then false
    else RC.Overlaps(c, threads[0].comment) || HasOverlap(c, threads[0].children) || HasOverlap(c, threads[1..])
  }

  /** The forest holds, at some depth, a comment that c overlaps. */
  ghost predicate OverlapsSomeInForest(c: Comment, threads: seq<Thread>)
  {
    exists h, d :: RC.InForest(threads, h, d) && RC.Overlaps(c, d)
  }

  /** The search of `hasOverlap` finds exactly the comments of the forest. */
  lemma {:induction false} HasOverlapSpec(c: Comment, threads: seq<Thread>)
    ensures HasOverlap(c, threads) <==> OverlapsSomeInForest(c, threads)
    decreases threads
  {
    if threads != [] {
      var t := threads[0];
      HasOverlapSpec(c, t.children);
      HasOverlapSpec(c, threads[1..]);
      if HasOverlap(c, threads) {
        if RC.Overlaps(c, t.comment) {
          RC.InForestCons(threads, t.hash, t.comment);
        } else if HasOverlap(c, t.children) {
          var h, d :| RC.InForest(t.children, h, d) && RC.Overlaps(c, d);
          RC.InForestCons(threads, h, d);
        } else {
          var h, d :| RC.InForest(threads[1..], h, d) && RC.Overlaps(c, d);
          RC.InForestCons(threads, h, d);
        }
      }
      if OverlapsSomeInForest(c, threads) {
        var h, d :| RC.InForest(threads, h, d) && RC.Overlaps(c, d);
        RC.InForestCons(threads, h, d);
      }
    }
  }

  // ---------------------------------------------------------------------------
  // What the pass sees and does

  /** A review of the notes: its revision and its comment threads. */
  datatype NotesReview = NotesReview(revision: string, comments: seq<Thread>)

  /** The repository as the pass sees it: its path, its state hash and its reviews. */
  datatype Repo = Repo(path: string, stateHash: string, reviews: seq<NotesReview>)

  /** An open review of the tool, as the listing hands it over: the tool's id of the review. */
  type ReviewHandle = string

  /**
   * What an open review answers when the pass asks it: the first commit it
   * covers ("" when unknown) and the comments it holds at that moment. Each
   * pass asks again, so each pass is given its own answers.
   */
  datatype OpenReview = OpenReview(firstCommit: string, comments: seq<Comment>)

  /** What the pass asks of the repository and of the review tool. */
  datatype Effect =
    | PullNotes
    | EnsureRequestExists(review: NotesReview)
    | ListOpenReviews
    | Refresh
    | AppendNote(commit: string, note: N.Note)
    | PushNotes

  /** The three package-level maps, by value. */
  datatype MirrorState = MirrorState(
    processedStates: map<string, string>,
    existingComments: map<string, seq<Thread>>,
    openReviews: map<string, seq<ReviewHandle>>)

  /** A map lookup that yields Go's zero value for a missing key. */
  function StateOf(processed: map<string, string>, path: string): string
  {
    if path in processed then processed[path] else ""
  }

  function Lookup<V>(m: map<string, seq<V>>, key: string): seq<V>
  {
    if key in m then m[key] else []
  }

  /** The repository changed since the pass last recorded its state. */
  predicate Stale(s: MirrorState, repo: Repo)
  {
    StateOf(s.processedStates, repo.path) != repo.stateHash
  }

  /** The comment threads of the reviews, by revision; a later review of a revision wins. */
  function RecordReviews(existing: map<string, seq<Thread>>, reviews: seq<NotesReview>): map<string, seq<Thread>>
  {
    if reviews == [] then existing
    else
      var last := reviews[|reviews| - 1];
      RecordReviews(existing, reviews[..|reviews| - 1])[last.revision := last.comments]
  }

  /** One request for each review, in order. */
  function EnsureCalls(reviews: seq<NotesReview>): seq<Effect>
  {
    if reviews == [] then []
    else EnsureCalls(reviews[..|reviews| - 1]) + [EnsureRequestExists(reviews[|reviews| - 1])]
  }

  /** The comments of one review that overlap nothing in the threads, as notes on the commit. */
  function HarvestComments(commit: string, comments: seq<Comment>, threads: seq<Thread>, encode: Comment -> N.Note): seq<Effect>
  {
    if comments == [] then []
    else
      var last := comments[|comments| - 1];
      HarvestComments(commit, comments[..|comments| - 1], threads, encode)
        + (if !HasOverlap(last, threads) then [AppendNote(commit, N.Write(encode, last))] else [])
  }

  /**
   * The new comments of every open review whose first commit is known;
   * `answer` gives what each review answers in this pass.
   */
  function HarvestReviews(reviews: seq<ReviewHandle>, answer: ReviewHandle -> OpenReview, existing: map<string, seq<Thread>>, encode: Comment -> N.Note): seq<Effect>
  {
    if reviews == [] then []
    else
      var last := answer(reviews[|reviews| - 1]);
      HarvestReviews(reviews[..|reviews| - 1], answer, existing, encode)
        + (if last.firstCommit != "" then HarvestComments(last.firstCommit, last.comments, Lookup(existing, last.firstCommit), encode) else [])
  }

  /** The maps after a pass; `listed` is the tool's answer to the listing of open reviews. */
  function Next(s: MirrorState, repo: Repo, listed: seq<ReviewHandle>): MirrorState
  {
    if !Stale(s, repo) then s
    else MirrorState(
      s.processedStates[repo.path := repo.stateHash],
      RecordReviews(s.existingComments, repo.reviews),
      s.openReviews[repo.path := listed])
  }

  /**
   * The effects of a pass, in order; `answer` gives what each open review
   * answers when this pass asks it for its first commit and its comments.
   */
  function Effects(s: MirrorState, repo: Repo, listed: seq<ReviewHandle>, answer: ReviewHandle -> OpenReview, syncToRemote: bool, encode: Comment -> N.Note): seq<Effect>
  {
    var after := Next(s, repo, listed);
    (if syncToRemote then [PullNotes] else [])
    + (if Stale(s, repo) then EnsureCalls(repo.reviews) + [ListOpenReviews, Refresh] else [])
    + HarvestReviews(Lookup(after.openReviews, repo.path), answer, after.existingComments, encode)
    + (if syncToRemote then [PushNotes] else [])
  }

  // ---------------------------------------------------------------------------
  // The pass, over the package-level maps

  class Mirrorer {
    var processedStates: map<string, string>
    var existingComments: map<string, seq<Thread>>
    var openReviews: map<string, seq<ReviewHandle>>

    constructor()
      ensures processedStates == map[] && existingComments == map[] && openReviews == map[]
    {
      processedStates, existingComments, openReviews := map[], map[], map[];
    }

    function State(): MirrorState
      reads this
    {
      MirrorState(processedStates, existingComments, openReviews)
    }

    /**
     * `mirrorRepoToReview`. A failed push is only logged, so it changes
     * nothing here.
     */
    method MirrorRepoToReview(repo: Repo, listed: seq<ReviewHandle>, answer: ReviewHandle -> OpenReview, syncToRemote: bool, encode: Comment -> N.Note)
      returns (effects: seq<Effect>)
      modifies this
      ensures State() == Next(old(State()), repo, listed)
      ensures effects == Effects(old(State()), repo, listed, answer, syncToRemote, encode)
    {
      ghost var s0 := State();
      ghost var pull, mid, harvest, push := EffectsPhases(s0, repo, listed, answer, syncToRemote, encode);
      effects := if syncToRemote then [PullNotes] else [];
      if StateOf(processedStates, repo.path) != repo.stateHash {
        var recorded, requested := RecordAll(existingComments, repo.reviews);
        existingComments := recorded;
        openReviews := openReviews[repo.path := listed];
        processedStates := processedStates[repo.path := repo.stateHash];
        effects := effects + (requested + [ListOpenReviews, Refresh]);
      }
      assert State() == Next(s0, repo, listed);
      assert effects == pull + mid;
      var harvested := Harvest(Lookup(openReviews, repo.path), answer, existingComments, encode);
      effects := effects + harvested;
      if syncToRemote {
        effects := effects + [PushNotes];
      }
    }
  }

  /** The loop over the reviews of the notes: record each one's threads, ask for its request. */
  method RecordAll(existing: map<string, seq<Thread>>, reviews: seq<NotesReview>)
    returns (recorded: map<string, seq<Thread>>, requested: seq<Effect>)
    ensures recorded == RecordReviews(existing, reviews)
    ensures requested == EnsureCalls(reviews)
  {
    recorded, requested := existing, [];
    for i := 0 to |reviews|
      invariant recorded == RecordReviews(existing, reviews[..i])
      invariant requested == EnsureCalls(reviews[..i])
    {
      assert reviews[..i + 1][..i] == reviews[..i];
      var r := reviews[i];
      recorded := recorded[r.revision := r.comments];
      requested := requested + [EnsureRequestExists(r)];
    }
    assert reviews[..|reviews|] == reviews;
  }

  /** The harvesting loop of the pass. */
  method Harvest(reviews: seq<ReviewHandle>, answer: ReviewHandle -> OpenReview, existing: map<string, seq<Thread>>, encode: Comment -> N.Note)
    returns (effects: seq<Effect>)
    ensures effects == HarvestReviews(reviews, answer, existing, encode)
  {
    effects := [];
    for i := 0 to |reviews|
      invariant effects == HarvestReviews(reviews[..i], answer, existing, encode)
    {
      assert reviews[..i + 1][..i] == reviews[..i];
      var reviewCommit := answer(reviews[i]).firstCommit;
      if reviewCommit != "" {
        var appended := HarvestReview(reviewCommit, answer(reviews[i]).comments, Lookup(existing, reviewCommit), encode);
        effects := effects + appended;
      }
    }
    assert reviews[..|reviews|] == reviews;
  }

  /** The inner loop: the comments of one open review. */
  method HarvestReview(reviewCommit: string, comments: seq<Comment>, revisionComments: seq<Thread>, encode: Comment -> N.Note)
    returns (effects: seq<Effect>)
    ensures effects == HarvestComments(reviewCommit, comments, revisionComments, encode)
  {
    effects := [];
    for j := 0 to |comments|
      invariant effects == HarvestComments(reviewCommit, comments[..j], revisionComments, encode)
    {
      assert comments[..j + 1][..j] == comments[..j];
      if !HasOverlap(comments[j], revisionComments) {
        effects := effects + [AppendNote(reviewCommit, N.Write(encode, comments[j]))];
      }
    }
    assert comments[..|comments|] == comments;
  }

  // ---------------------------------------------------------------------------
  // Properties of a pass

  /** One request per review of the notes, each for that review, in order. */
  lemma {:induction false} EnsureCallsSpec(reviews: seq<NotesReview>)
    ensures |EnsureCalls(reviews)| == |reviews|
    ensures forall i | 0 <= i < |reviews| :: EnsureCalls(reviews)[i] == EnsureRequestExists(reviews[i])
  {
    if reviews != [] {
      var front := reviews[..|reviews| - 1];
      EnsureCallsSpec(front);
      assert forall i | 0 <= i < |front| :: front[i] == reviews[i];
    }
  }

  /**
   * After recording, a revision maps to the threads of the last review of
   * it; a revision no review names keeps what it had.
   */
  lemma {:induction false} RecordReviewsSpec(existing: map<string, seq<Thread>>, reviews: seq<NotesReview>, revision: string)
    ensures var m := RecordReviews(existing, reviews);
      && (revision in m <==> revision in existing || exists i | 0 <= i < |reviews| :: reviews[i].revision == revision)
      && ((forall i | 0 <= i < |reviews| :: reviews[i].revision != revision) && revision in existing ==> m[revision] == existing[revision])
      && (forall i | 0 <= i < |reviews| && reviews[i].revision == revision
            && (forall j | i < j < |reviews| :: reviews[j].revision != revision) :: m[revision] == reviews[i].comments)
  {
    if reviews != [] {
      var n := |reviews|;
      var front := reviews[..n - 1];
      RecordReviewsSpec(existing, front, revision);
      assert forall i | 0 <= i < n - 1 :: front[i] == reviews[i];
    }
  }

  /** Every effect of one review's harvest is a note on its commit. */
  lemma {:induction false} HarvestCommentsAppendOnly(commit: string, comments: seq<Comment>, threads: seq<Thread>, encode: Comment -> N.Note)
    ensures forall e | e in HarvestComments(commit, comments, threads, encode) :: e.AppendNote? && e.commit == commit
  {
    if comments != [] {
      HarvestCommentsAppendOnly(commit, comments[..|comments| - 1], threads, encode);
    }
  }

  /** Some comment of the list is accepted by `wanted`. */
  ghost predicate SomeComment(comments: seq<Comment>, wanted: Comment -> bool)
  {
    exists j | 0 <= j < |comments| :: wanted(comments[j])
  }

  /** Some comment of the list overlaps nothing in the threads and writes as the note. */
  ghost predicate NewComment(comments: seq<Comment>, threads: seq<Thread>, encode: Comment -> N.Note, note: N.Note)
  {
    SomeComment(comments, c => !HasOverlap(c, threads) && note == N.Write(encode, c))
  }

  /** A note is appended for a review exactly when it is one of its comments that overlaps nothing. */
  lemma {:induction false} HarvestCommentsSpec(commit: string, comments: seq<Comment>, threads: seq<Thread>, encode: Comment -> N.Note, note: N.Note)
    ensures AppendNote(commit, note) in HarvestComments(commit, comments, threads, encode)
      <==> NewComment(comments, threads, encode, note)
  {
    if comments != [] {
      var n := |comments|;
      var front, last := comments[..n - 1], comments[n - 1];
      HarvestCommentsSpec(commit, front, threads, encode, note);
      NewCommentSnoc(comments, threads, encode, note);
      var tail := if !HasOverlap(last, threads) then [AppendNote(commit, N.Write(encode, last))] else [];
      assert HarvestComments(commit, comments, threads, encode) == HarvestComments(commit, front, threads, encode) + tail;
      assert AppendNote(commit, note) in tail <==> !HasOverlap(last, threads) && note == N.Write(encode, last);
    }
  }

  lemma NewCommentSnoc(comments: seq<Comment>, threads: seq<Thread>, encode: Comment -> N.Note, note: N.Note)
    requires comments != []
    ensures var n := |comments|;
      NewComment(comments, threads, encode, note)
      <==> NewComment(comments[..n - 1], threads, encode, note) || (!HasOverlap(comments[n - 1], threads) && note == N.Write(encode, comments[n - 1]))
  {
    SomeCommentSnoc(comments, c => !HasOverlap(c, threads) && note == N.Write(encode, c));
  }

  lemma SomeCommentSnoc(comments: seq<Comment>, wanted: Comment -> bool)
    requires comments != []
    ensures var n := |comments|;
      SomeComment(comments, wanted) <==> SomeComment(comments[..n - 1], wanted) || wanted(comments[n - 1])
  {
    var n := |comments|;
    var front := comments[..n - 1];
    if SomeComment(comments, wanted) {
      var j :| 0 <= j < n && wanted(comments[j]);
      if j < n - 1 {
        assert front[j] == comments[j];
      }
    }
    if SomeComment(front, wanted) {
      var j :| 0 <= j < n - 1 && wanted(front[j]);
      assert front[j] == comments[j];
    }
  }

  /** Some open review with this first commit has a comment, overlapping nothing known, that writes as the note. */
  ghost predicate Harvested(reviews: seq<ReviewHandle>, answer: ReviewHandle -> OpenReview, existing: map<string, seq<Thread>>, encode: Comment -> N.Note, commit: string, note: N.Note)
  {
    exists i | 0 <= i < |reviews| :: HarvestedFrom(answer(reviews[i]), existing, encode, commit, note)
  }

  /** The answered review starts at the commit and has a comment, overlapping nothing known, that writes as the note. */
  ghost predicate HarvestedFrom(review: OpenReview, existing: map<string, seq<Thread>>, encode: Comment -> N.Note, commit: string, note: N.Note)
  {
    review.firstCommit == commit && NewComment(review.comments, Lookup(existing, commit), encode, note)
  }

  /** Every effect of the harvest is a note on a known commit. */
  lemma {:induction false} HarvestReviewsAppendOnly(reviews: seq<ReviewHandle>, answer: ReviewHandle -> OpenReview, existing: map<string, seq<Thread>>, encode: Comment -> N.Note)
    ensures forall e | e in HarvestReviews(reviews, answer, existing, encode) :: e.AppendNote? && e.commit != ""
  {
    if reviews != [] {
      var last := answer(reviews[|reviews| - 1]);
      HarvestReviewsAppendOnly(reviews[..|reviews| - 1], answer, existing, encode);
      if last.firstCommit != "" {
        HarvestCommentsAppendOnly(last.firstCommit, last.comments, Lookup(existing, last.firstCommit), encode);
      }
    }
  }

  /**
   * The harvest appends a note to a commit exactly when an open review
   * starting at that commit holds a comment that overlaps none of the
   * comments the notes already hold for it.
   */
  lemma {:induction false} HarvestReviewsSpec(reviews: seq<ReviewHandle>, answer: ReviewHandle -> OpenReview, existing: map<string, seq<Thread>>, encode: Comment -> N.Note, commit: string, note: N.Note)
    ensures AppendNote(commit, note) in HarvestReviews(reviews, answer, existing, encode)
      <==> commit != "" && Harvested(reviews, answer, existing, encode, commit, note)
  {
    if reviews != [] {
      var n := |reviews|;
      var front := reviews[..n - 1];
      var last := answer(reviews[n - 1]);
      HarvestReviewsSpec(front, answer, existing, encode, commit, note);
      var tail := if last.firstCommit != "" then HarvestComments(last.firstCommit, last.comments, Lookup(existing, last.firstCommit), encode) else [];
      assert HarvestReviews(reviews, answer, existing, encode) == HarvestReviews(front, answer, existing, encode) + tail;
      HarvestOneSpec(last, existing, encode, commit, note);
      HarvestedSnoc(reviews, answer, existing, encode, commit, note);
    }
  }

  /** The notes one answered review contributes. */
  lemma HarvestOneSpec(last: OpenReview, existing: map<string, seq<Thread>>, encode: Comment -> N.Note, commit: string, note: N.Note)
    ensures var tail := if last.firstCommit != "" then HarvestComments(last.firstCommit, last.comments, Lookup(existing, last.firstCommit), encode) else [];
      AppendNote(commit, note) in tail
      <==> commit != "" && HarvestedFrom(last, existing, encode, commit, note)
  {
    if last.firstCommit != "" {
      HarvestCommentsAppendOnly(last.firstCommit, last.comments, Lookup(existing, last.firstCommit), encode);
      HarvestCommentsSpec(last.firstCommit, last.comments, Lookup(existing, last.firstCommit), encode, note);
    }
  }

  lemma HarvestedSnoc(reviews: seq<ReviewHandle>, answer: ReviewHandle -> OpenReview, existing: map<string, seq<Thread>>, encode: Comment -> N.Note, commit: string, note: N.Note)
    requires reviews != []
    ensures var n := |reviews|;
      var last := answer(reviews[n - 1]);
      Harvested(reviews, answer, existing, encode, commit, note)
      <==> Harvested(reviews[..n - 1], answer, existing, encode, commit, note) || HarvestedFrom(last, existing, encode, commit, note)
  {
    var n := |reviews|;
    var front := reviews[..n - 1];
    var found := (h: ReviewHandle) => HarvestedFrom(answer(h), existing, encode, commit, note);
    assert Harvested(reviews, answer, existing, encode, commit, note) == SomeHandle(reviews, found);
    assert Harvested(front, answer, existing, encode, commit, note) == SomeHandle(front, found);
    SomeHandleSnoc(reviews, found);
  }

  /** Some handle of the list is accepted by `wanted`. */
  ghost predicate SomeHandle(handles: seq<ReviewHandle>, wanted: ReviewHandle -> bool)
  {
    exists i | 0 <= i < |handles| :: wanted(handles[i])
  }

  lemma SomeHandleSnoc(handles: seq<ReviewHandle>, wanted: ReviewHandle -> bool)
    requires handles != []
    ensures var n := |handles|;
      SomeHandle(handles, wanted) <==> SomeHandle(handles[..n - 1], wanted) || wanted(handles[n - 1])
  {
    var n := |handles|;
    var front := handles[..n - 1];
    if SomeHandle(handles, wanted) {
      var i :| 0 <= i < n && wanted(handles[i]);
      if i < n - 1 {
        assert front[i] == handles[i];
      }
    }
    if SomeHandle(front, wanted) {
      var i :| 0 <= i < n - 1 && wanted(front[i]);
      assert front[i] == handles[i];
    }
  }

  /**
   * After any pass the repository's state is recorded, so a second pass over
   * the same state neither asks for requests nor lists the open reviews
   * again, and leaves the maps as they are; it still asks every review it
   * holds for the repository for its first commit and comments afresh, and
   * harvests what they answer now.
   */
  lemma SecondPassOnlyHarvests(s: MirrorState, repo: Repo, listed: seq<ReviewHandle>, listed2: seq<ReviewHandle>,
                               answer: ReviewHandle -> OpenReview, answer2: ReviewHandle -> OpenReview, syncToRemote: bool, encode: Comment -> N.Note)
    ensures var after := Next(s, repo, listed);
      && StateOf(after.processedStates, repo.path) == repo.stateHash
      && Next(after, repo, listed2) == after
      && Effects(after, repo, listed2, answer2, syncToRemote, encode)
        == (if syncToRemote then [PullNotes] else [])
          + HarvestReviews(Lookup(after.openReviews, repo.path), answer2, after.existingComments, encode)
          + (if syncToRemote then [PushNotes] else [])
  {
  }

  /** The reviews that requests are asked for, in order. */
  function Requests(effects: seq<Effect>): seq<NotesReview>
  {
    if effects == [] then []
    else
      var last := effects[|effects| - 1];
      Requests(effects[..|effects| - 1]) + (if last.EnsureRequestExists? then [last.review] else [])
  }

  lemma {:induction false} RequestsConcat(a: seq<Effect>, b: seq<Effect>)
    ensures Requests(a + b) == Requests(a) + Requests(b)
    decreases |b|
  {
    if b != [] {
      assert (a + b)[..|a + b| - 1] == a + b[..|b| - 1];
      RequestsConcat(a, b[..|b| - 1]);
    } else {
      assert a + b == a;
    }
  }

  lemma {:induction false} RequestsOfEnsureCalls(reviews: seq<NotesReview>)
    ensures Requests(EnsureCalls(reviews)) == reviews
  {
    if reviews != [] {
      var front := reviews[..|reviews| - 1];
      RequestsOfEnsureCalls(front);
      RequestsConcat(EnsureCalls(front), [EnsureRequestExists(reviews[|reviews| - 1])]);
      assert Requests([EnsureRequestExists(reviews[|reviews| - 1])]) == [reviews[|reviews| - 1]] by {
        assert [EnsureRequestExists(reviews[|reviews| - 1])][..0] == [];
      }
      assert front + [reviews[|reviews| - 1]] == reviews;
    }
  }

  lemma {:induction false} RequestsOfAppends(effects: seq<Effect>)
    requires forall i | 0 <= i < |effects| :: effects[i].AppendNote?
    ensures Requests(effects) == []
  {
    if effects != [] {
      RequestsOfAppends(effects[..|effects| - 1]);
    }
  }

  /** The effects of a pass, in its four phases. */
  lemma EffectsPhases(s: MirrorState, repo: Repo, listed: seq<ReviewHandle>, answer: ReviewHandle -> OpenReview, syncToRemote: bool, encode: Comment -> N.Note)
    returns (pull: seq<Effect>, mid: seq<Effect>, harvest: seq<Effect>, push: seq<Effect>)
    ensures Effects(s, repo, listed, answer, syncToRemote, encode) == pull + mid + harvest + push
    ensures pull == (if syncToRemote then [PullNotes] else []) && push == (if syncToRemote then [PushNotes] else [])
    ensures mid == (if Stale(s, repo) then EnsureCalls(repo.reviews) + [ListOpenReviews, Refresh] else [])
    ensures forall e | e in EnsureCalls(repo.reviews) :: e.EnsureRequestExists?
    ensures forall e | e in harvest :: e.AppendNote?
    ensures var after := Next(s, repo, listed);
      harvest == HarvestReviews(Lookup(after.openReviews, repo.path), answer, after.existingComments, encode)
  {
    var after := Next(s, repo, listed);
    pull := if syncToRemote then [PullNotes] else [];
    push := if syncToRemote then [PushNotes] else [];
    mid := if Stale(s, repo) then EnsureCalls(repo.reviews) + [ListOpenReviews, Refresh] else [];
    harvest := HarvestReviews(Lookup(after.openReviews, repo.path), answer, after.existingComments, encode);
    HarvestReviewsAppendOnly(Lookup(after.openReviews, repo.path), answer, after.existingComments, encode);
    EnsureCallsSpec(repo.reviews);
  }

  /**
   * A pass over a changed repository asks for a request for each review of
   * the notes, in order; a pass over an unchanged one asks for none.
   */
  lemma PassRequests(s: MirrorState, repo: Repo, listed: seq<ReviewHandle>, answer: ReviewHandle -> OpenReview, syncToRemote: bool, encode: Comment -> N.Note)
    ensures Requests(Effects(s, repo, listed, answer, syncToRemote, encode)) == (if Stale(s, repo) then repo.reviews else [])
  {
    var pull, mid, harvest, push := EffectsPhases(s, repo, listed, answer, syncToRemote, encode);
    RequestsOfPhases(pull, mid, harvest, push, Stale(s, repo), repo.reviews);
  }

  lemma RequestsOfPhases(pull: seq<Effect>, mid: seq<Effect>, harvest: seq<Effect>, push: seq<Effect>, stale: bool, reviews: seq<NotesReview>)
    requires pull == [] || pull == [PullNotes]
    requires push == [] || push == [PushNotes]
    requires mid == (if stale then EnsureCalls(reviews) + [ListOpenReviews, Refresh] else [])
    requires forall e | e in harvest :: e.AppendNote?
    ensures Requests(pull + mid + harvest + push) == (if stale then reviews else [])
  {
    RequestsOfAppends(harvest);
    RequestsOfOthers(pull);
    RequestsOfOthers(push);
    if stale {
      RequestsOfRefresh(reviews);
    }
    RequestsOfFour(pull, mid, harvest, push);
  }

  lemma RequestsOfRefresh(reviews: seq<NotesReview>)
    ensures Requests(EnsureCalls(reviews) + [ListOpenReviews, Refresh]) == reviews
  {
    RequestsConcat(EnsureCalls(reviews), [ListOpenReviews, Refresh]);
    RequestsOfEnsureCalls(reviews);
    RequestsOfOthers([ListOpenReviews, Refresh]);
  }

  lemma RequestsOfFour(a: seq<Effect>, b: seq<Effect>, c: seq<Effect>, d: seq<Effect>)
    ensures Requests(a + b + c + d) == Requests(a) + Requests(b) + Requests(c) + Requests(d)
  {
    RequestsConcat(a, b);
    RequestsConcat(a + b, c);
    RequestsConcat(a + b + c, d);
  }

  /** The open reviews are listed again, and the tool refreshed, exactly when the repository changed. */
  lemma PassListsAndRefreshes(s: MirrorState, repo: Repo, listed: seq<ReviewHandle>, answer: ReviewHandle -> OpenReview, syncToRemote: bool, encode: Comment -> N.Note)
    ensures var effects := Effects(s, repo, listed, answer, syncToRemote, encode);
      && (ListOpenReviews in effects <==> Stale(s, repo))
      && (Refresh in effects <==> Stale(s, repo))
  {
    var pull, mid, harvest, push := EffectsPhases(s, repo, listed, answer, syncToRemote, encode);
    EnsureCallsSpec(repo.reviews);
    PhasesMembership(pull, mid, harvest, push, Stale(s, repo), EnsureCalls(repo.reviews));
  }

  lemma PhasesMembership(pull: seq<Effect>, mid: seq<Effect>, harvest: seq<Effect>, push: seq<Effect>, stale: bool, calls: seq<Effect>)
    requires pull == [] || pull == [PullNotes]
    requires push == [] || push == [PushNotes]
    requires mid == (if stale then calls + [ListOpenReviews, Refresh] else [])
    requires forall e | e in calls :: e.EnsureRequestExists?
    requires forall e | e in harvest :: e.AppendNote?
    ensures ListOpenReviews in pull + mid + harvest + push <==> stale
    ensures Refresh in pull + mid + harvest + push <==> stale
    ensures PullNotes in pull + mid + harvest + push <==> pull != []
    ensures PushNotes in pull + mid + harvest + push <==> push != []
    ensures forall commit, note :: AppendNote(commit, note) in pull + mid + harvest + push <==> AppendNote(commit, note) in harvest
  {
  }

  lemma RequestsOfOthers(effects: seq<Effect>)
    requires |effects| <= 2 && forall i | 0 <= i < |effects| :: !effects[i].EnsureRequestExists?
    ensures Requests(effects) == []
  {
    if effects != [] {
      var front := effects[..|effects| - 1];
      assert |front| == 1 ==> front[..0] == [];
    }
  }

  /** Notes are pulled first and pushed last, and only when syncing with the remote. */
  lemma SyncOnlyWithRemote(s: MirrorState, repo: Repo, listed: seq<ReviewHandle>, answer: ReviewHandle -> OpenReview, syncToRemote: bool, encode: Comment -> N.Note)
    ensures var effects := Effects(s, repo, listed, answer, syncToRemote, encode);
      && (syncToRemote ==> effects[0] == PullNotes && effects[|effects| - 1] == PushNotes)
      && (!syncToRemote ==> PullNotes !in effects && PushNotes !in effects)
  {
    var pull, mid, harvest, push := EffectsPhases(s, repo, listed, answer, syncToRemote, encode);
    EnsureCallsSpec(repo.reviews);
    PhasesMembership(pull, mid, harvest, push, Stale(s, repo), EnsureCalls(repo.reviews));
    PhasesEnds(pull, mid + harvest, push);
  }

  lemma PhasesEnds(pull: seq<Effect>, middle: seq<Effect>, push: seq<Effect>)
    ensures pull == [PullNotes] ==> (pull + middle + push)[0] == PullNotes
    ensures push == [PushNotes] ==> (pull + middle + push)[|pull + middle + push| - 1] == PushNotes
  {
  }

  /**
   * A pass appends a note to a commit exactly when, among the open reviews
   * it holds for the repository after its refresh, one answers in this pass
   * that it starts at that commit and carries a comment overlapping none of
   * the comments recorded for the commit, and the note is that comment
   * written out.
   */
  lemma PassAppendsNewComments(s: MirrorState, repo: Repo, listed: seq<ReviewHandle>, answer: ReviewHandle -> OpenReview, syncToRemote: bool, encode: Comment -> N.Note, commit: string, note: N.Note)
    ensures var after := Next(s, repo, listed);
      AppendNote(commit, note) in Effects(s, repo, listed, answer, syncToRemote, encode)
      <==> commit != "" && Harvested(Lookup(after.openReviews, repo.path), answer, after.existingComments, encode, commit, note)
  {
    var pull, mid, harvest, push := EffectsPhases(s, repo, listed, answer, syncToRemote, encode);
    var after := Next(s, repo, listed);
    EnsureCallsSpec(repo.reviews);
    PhasesMembership(pull, mid, harvest, push, Stale(s, repo), EnsureCalls(repo.reviews));
    HarvestReviewsSpec(Lookup(after.openReviews, repo.path), answer, after.existingComments, encode, commit, note);
  }

  /**
   * A review listed while it had no comments: the first pass appends
   * nothing for it; once a comment arrives, the next pass over the unchanged
   * repository asks the review again and appends the comment to its first
   * commit.
   */
  lemma CommentArrivingLaterIsHarvested(c: Comment, encode: Comment -> N.Note)
    ensures var repo := Repo("p", "h", []);
      var empty := MirrorState(map[], map[], map[]);
      var first := Next(empty, repo, ["D1"]);
      && Effects(empty, repo, ["D1"], h => OpenReview("c1", []), false, encode) == [ListOpenReviews, Refresh]
      && !Stale(first, repo)
      && AppendNote("c1", N.Write(encode, c)) in Effects(first, repo, ["D1"], h => OpenReview("c1", [c]), false, encode)
  {
    var repo := Repo("p", "h", []);
    var empty := MirrorState(map[], map[], map[]);
    var first := Next(empty, repo, ["D1"]);
    var later: ReviewHandle -> OpenReview := h => OpenReview("c1", [c]);
    assert Lookup(first.openReviews, "p") == ["D1"];
    assert ["D1"][..0] == [];
    assert [c][..0] == [];
    PassAppendsNewComments(first, repo, ["D1"], later, false, encode, "c1", N.Write(encode, c));
    assert SomeComment([c], d => !HasOverlap(d, []) && N.Write(encode, c) == N.Write(encode, d)) by {
      assert [c][0] == c;
    }
    assert Harvested(["D1"], later, first.existingComments, encode, "c1", N.Write(encode, c)) by {
      assert later(["D1"][0]).firstCommit == "c1";
    }
  }
}
