/**
 * Reading review comments out of Phabricator's database tables
 * (mirror/review/arcanist/database.go): the parsers for the tab-separated
 * rows the `mysql` client prints, and `LoadComments`, which replays a
 * review's transactions into git-notes comments. The query output, the
 * user lookup and the comment reader are inputs.
 */
module Database {
  import opened Wrappers
  import opened GoStrings
  import opened Users
  import N = NotesComment
  import Diff

  type Comment = N.Comment

  /** A user action on a review: a comment, an inline comment, or an accept/reject. */
  datatype Transaction = Transaction(
    phid: string,
    authorPHID: string,
    dateCreated: uint32,
    kind: string,
    newValue: Option<string>,
    commentPHID: Option<string>)

  /** The contents of a comment transaction. */
  datatype TransactionComment = TransactionComment(
    phid: string,
    commit: string,
    fileName: string,
    lineNumber: uint32,
    replyToCommentPHID: Option<string>,
    content: string)

  // ---------------------------------------------------------------------------
  // Row parsing

  /** A column that the client prints as NULL when it is absent. */
  function NullableColumn(column: string): (v: Option<string>)
    ensures v.None? <==> column == "NULL"
    ensures v.Some? ==> v.value == column
  {
    if column == "NULL" then None else Some(column)
  }

  /**
   * One row of the transactions query: seven tab-separated columns (id,
   * phid, author, date, type, new value, comment phid), the id unused and
   * the date an unsigned 32-bit number.
   */
  function ParseTransactionRow(line: string): Result<Transaction>
  {
    var parts := Split(line, '\t');
    if |parts| != 7 then Err("Unexpected number of transaction parts")
    else match ParseUint32(parts[3])
      case None => Err("invalid syntax")
      case Some(date) => Ok(Transaction(parts[1], parts[2], date, parts[4], NullableColumn(parts[5]), NullableColumn(parts[6])))
  }

  /** The rows in order; the first row that does not parse is the error. */
  function ParseTransactionRows(lines: seq<string>): Result<seq<Transaction>>
  {
    if lines == [] then Ok([])
    else
      var front := ParseTransactionRows(lines[..|lines| - 1]);
      if !front.Ok? then front
      else match ParseTransactionRow(lines[|lines| - 1])
        case Ok(t) => Ok(front.value + [t])
        case Err(msg) => Err(msg)
        case Fatal(reason) => Fatal(reason)
  }

  /**
   * `readDatabaseTransactions` on the query's output: nothing when the
   * output is blank, and otherwise one transaction per line.
   */
  method ReadTransactions(result: string) returns (r: Result<seq<Transaction>>)
    ensures r == if TrimSpaces(result) == [] then Ok([]) else ParseTransactionRows(Split(result, '\n'))
  {
    if TrimSpaces(result) == "" {
      return Ok([]);
    }
    var lines := Split(result, '\n');
    var transactions := [];
    for i := 0 to |lines|
      invariant ParseTransactionRows(lines[..i]) == Ok(transactions)
    {
      assert lines[..i + 1][..i] == lines[..i];
      var transaction := ParseTransactionRow(lines[i]);
      if !transaction.Ok? {
        TransactionRowsFailureSticks(lines, i + 1);
        return match transaction case Err(msg) => Err(msg) case Fatal(reason) => Fatal(reason);
      }
      transactions := transactions + [transaction.value];
    }
    assert lines[..|lines|] == lines;
    r := Ok(transactions);
  }

  lemma {:induction false} TransactionRowsFailureSticks(lines: seq<string>, k: nat)
    requires k <= |lines| && !ParseTransactionRows(lines[..k]).Ok?
    ensures ParseTransactionRows(lines) == ParseTransactionRows(lines[..k])
    decreases |lines| - k
  {
    if k < |lines| {
      assert lines[..k + 1][..k] == lines[..k];
      TransactionRowsFailureSticks(lines, k + 1);
    } else {
      assert lines[..k] == lines;
    }
  }

  /**
   * The rows parse exactly when every line does, and then there is one
   * transaction per line, in order.
   */
  lemma {:induction false} TransactionRowsSpec(lines: seq<string>)
    ensures ParseTransactionRows(lines).Ok? <==> forall i | 0 <= i < |lines| :: ParseTransactionRow(lines[i]).Ok?
    ensures ParseTransactionRows(lines).Ok? ==>
      |ParseTransactionRows(lines).value| == |lines|
      && forall i | 0 <= i < |lines| :: ParseTransactionRows(lines).value[i] == ParseTransactionRow(lines[i]).value
    ensures !ParseTransactionRows(lines).Fatal?
  {
    if lines != [] {
      var front := lines[..|lines| - 1];
      TransactionRowsSpec(front);
      assert forall i | 0 <= i < |front| :: front[i] == lines[i];
    }
  }

  /** How the client prints an optional column. */
  function NullText(v: Option<string>): string
  {
    if v.Some? then v.value else "NULL"
  }

  /** A transaction as the transactions query prints it, behind the row id. */
  function FormatTransactionRow(id: string, t: Transaction): string
  {
    Join([id, t.phid, t.authorPHID, FormatNat(t.dateCreated), t.kind, NullText(t.newValue), NullText(t.commentPHID)], '\t')
  }

  /** The columns hold no tab, and no present value is the text NULL. */
  predicate Printable(id: string, t: Transaction)
  {
    && '\t' !in id && '\t' !in t.phid && '\t' !in t.authorPHID && '\t' !in t.kind
    && (t.newValue.Some? ==> '\t' !in t.newValue.value && t.newValue.value != "NULL")
    && (t.commentPHID.Some? ==> '\t' !in t.commentPHID.value && t.commentPHID.value != "NULL")
  }

  /** Parsing a printed row gives the transaction back. */
  lemma TransactionRowRoundTrip(id: string, t: Transaction)
    requires Printable(id, t)
    ensures ParseTransactionRow(FormatTransactionRow(id, t)) == Ok(t)
  {
    var parts := [id, t.phid, t.authorPHID, FormatNat(t.dateCreated), t.kind, NullText(t.newValue), NullText(t.commentPHID)];
    assert '\t' !in FormatNat(t.dateCreated) by {
      assert AllDigits(FormatNat(t.dateCreated));
    }
    JoinSplit(parts, '\t');
    ParseUint32Format(t.dateCreated);
  }

  /** The query for one comment: its phid, changeset, line and the comment it replies to. */
  predicate CommentRowShaped(result: string)
  {
    |Split(result, '\n')| == 1 && |Split(Split(result, '\n')[0], '\t')| == 4
  }

  function CommentColumns(result: string): seq<string>
  {
    Split(Split(result, '\n')[0], '\t')
  }

  /**
   * `readDatabaseTransactionComment`. `result` is the output of the
   * comment query; for a comment on a changeset, `filenameResult` and
   * `diffIDResult` are the outputs of the two changeset queries and `diff`
   * the answer of `readDiff` (None when the diff does not exist); `content`
   * is the output of the contents query. A malformed row is an error; a
   * diff that cannot be read stops the program.
   */
  method ReadTransactionComment(result: string, filenameResult: string, diffIDResult: string, diff: Result<Option<Diff.Json>>, content: string)
    returns (r: Result<TransactionComment>)
    ensures !CommentRowShaped(result) ==> r.Err?
    ensures CommentRowShaped(result) && CommentColumns(result)[1] == "NULL" ==>
      var parts := CommentColumns(result);
      r == match ParseUint32(parts[2])
           case None => Err("invalid syntax")
           case Some(line) => Ok(TransactionComment(parts[0], "", "", line, NullableColumn(parts[3]), content))
    ensures CommentRowShaped(result) && CommentColumns(result)[1] != "NULL" ==>
      var parts := CommentColumns(result);
      && (ParseUint32(parts[1]).None? ==> r.Err?)
      && (ParseUint32(parts[1]).Some? ==>
            (r.Fatal? <==> Atoi(diffIDResult).None? || !diff.Ok? || diff.value.None? || Diff.DiffFatal(diff.value.value)))
      && (r.Ok? ==>
            && diff.Ok? && diff.value.Some? && Diff.IsLastCommit(diff.value.value, r.value.commit)
            && r.value.fileName == filenameResult && r.value.phid == parts[0]
            && ParseUint32(parts[2]) == Some(r.value.lineNumber)
            && r.value.replyToCommentPHID == NullableColumn(parts[3]) && r.value.content == content)
      && (r.Err? ==> ParseUint32(parts[1]).None? || ParseUint32(parts[2]).None?)
  {
    var lines := Split(result, "\n"[0]);
    if |lines| != 1 {
      return Err("Unexpected number of query results");
    }
    var lineParts := Split(lines[0], '\t');
    if |lineParts| != 4 {
      return Err("Unexpected size of query results");
    }
    var fileName := "";
    var commit := "";
    if lineParts[1] != "NULL" {
      var changesetID := ParseUint32(lineParts[1]);
      if changesetID.None? {
        return Err("invalid syntax");
      }
      fileName := filenameResult;
      var diffID := Atoi(diffIDResult);
      if diffID.None? {
        return Fatal("invalid syntax");
      }
      if !diff.Ok? {
        return Fatal("Failed to read the diff");
      }
      if diff.value.None? {
        return Fatal("nil pointer dereference");
      }
      var last := Diff.FindDiffLastCommit(diff.value.value);
      if !last.Ok? {
        return Fatal("invalid syntax");
      }
      commit := last.value;
    }
    var lineNumber := ParseUint32(lineParts[2]);
    if lineNumber.None? {
      return Err("invalid syntax");
    }
    r := Ok(TransactionComment(lineParts[0], commit, fileName, lineNumber.value, NullableColumn(lineParts[3]), content));
  }

  // ---------------------------------------------------------------------------
  // Replaying the transactions

  const ActionType: string := "differential:action"
  const AcceptAction: string := "\"accept\""
  const RejectAction: string := "\"reject\""

  /** The comment author: the user's e-mail address, or the user name when there is none. */
  function AuthorName(u: User): string
  {
    if u.email != "" then u.email else u.userName
  }

  /** Only an action transaction whose new value is accept or reject resolves anything. */
  function ResolvedBy(t: Transaction): Option<bool>
  {
    if t.kind == ActionType && t.newValue.Some? then
      if t.newValue.value == AcceptAction then Some(true)
      else if t.newValue.value == RejectAction then Some(false)
      else None
    else None
  }

  /** The location of a comment on a file, with a range when it is on a line. */
  function LocationOf(tc: TransactionComment): Option<N.Location>
  {
    if tc.fileName != "" then
      Some(N.Location(tc.commit, tc.fileName, if tc.lineNumber != 0 then Some(N.Range(tc.lineNumber)) else None))
    else None
  }

  /** The hash of the comment replied to, when that comment was emitted by an earlier transaction. */
  function ParentOf(tc: TransactionComment, byPHID: map<string, Comment>, digest: Comment -> string): string
  {
    if tc.replyToCommentPHID.Some? && tc.replyToCommentPHID.value in byPHID
    then N.Hash(digest, byPHID[tc.replyToCommentPHID.value])
    else ""
  }

  /** The comment a transaction stands for, with its comment contents when it has some. */
  function OwnComment(t: Transaction, author: User, tc: Option<TransactionComment>, byPHID: map<string, Comment>, digest: Comment -> string): Comment
  {
    N.Comment(
      FormatNat(t.dateCreated),
      AuthorName(author),
      if tc.Some? then ParentOf(tc.value, byPHID, digest) else "",
      if tc.Some? then LocationOf(tc.value) else None,
      if tc.Some? then tc.value.content else "",
      ResolvedBy(t))
  }

  /** Phabricator publishes empty top-level comments; only comments that say something are kept. */
  predicate Worth(c: Comment)
  {
    c.parent != "" || c.location.Some? || c.description != "" || c.resolved.Some?
  }

  /** The accepting replies to earlier rejections: one per rejection hash, in order. */
  function Approvals(accept: Comment, rejections: seq<string>): (children: seq<Comment>)
    ensures |children| == |rejections|
  {
    seq(|rejections|, i requires 0 <= i < |rejections| =>
      N.Comment(accept.timestamp, accept.author, rejections[i], None, "", Some(true)))
  }

  /** What the replay has built so far. */
  datatype LoadState = LoadState(
    comments: seq<Comment>,
    byPHID: map<string, Comment>,          // emitted comments, by transaction PHID
    rejections: map<string, seq<string>>)  // hashes of each user's rejections, by user name

  function RejectionsOf(rejections: map<string, seq<string>>, userName: string): seq<string>
  {
    if userName in rejections then rejections[userName] else []
  }

  /** One transaction of `LoadComments`. */
  function Step(st: LoadState, t: Transaction, author: User, tc: Option<TransactionComment>, digest: Comment -> string): LoadState
  {
    var c := OwnComment(t, author, tc, st.byPHID, digest);
    var history := RejectionsOf(st.rejections, author.userName);
    var children := if c.resolved == Some(true) then Approvals(c, history) else [];
    if Worth(c) then
      LoadState(
        st.comments + children + [c],
        st.byPHID[t.phid := c],
        if c.resolved == Some(false) then st.rejections[author.userName := history + [N.Hash(digest, c)]] else st.rejections)
    else LoadState(st.comments + children, st.byPHID, st.rejections)
  }

  /**
   * The replay of the transactions, in order. A failed or empty user
   * lookup, or a comment that cannot be read, stops the program.
   */
  function Replay(ts: seq<Transaction>, lookup: string -> Result<Option<User>>,
                  readComment: string -> Result<TransactionComment>, digest: Comment -> string): Result<LoadState>
  {
    if ts == [] then Ok(LoadState([], map[], map[]))
    else
      var front := Replay(ts[..|ts| - 1], lookup, readComment, digest);
      var t := ts[|ts| - 1];
      if !front.Ok? then front
      else if !lookup(t.authorPHID).Ok? then Fatal("Failed to look up the author")
      else if lookup(t.authorPHID).value.None? then Fatal("nil pointer dereference")
      else if t.commentPHID.Some? && !readComment(t.phid).Ok? then Fatal("Failed to read the transaction comment")
      else
        var tc := if t.commentPHID.Some? then Some(readComment(t.phid).value) else None;
        Ok(Step(front.value, t, lookup(t.authorPHID).value.value, tc, digest))
  }

  /**
   * `LoadComments`: the comments of a review, replayed from its
   * transactions; failing to read the transactions stops the program.
   */
  method LoadComments(transactions: Result<seq<Transaction>>, lookup: string -> Result<Option<User>>,
                      readComment: string -> Result<TransactionComment>, digest: Comment -> string)
    returns (r: Result<seq<Comment>>)
    ensures !transactions.Ok? ==> r.Fatal?
    ensures transactions.Ok? ==>
      var replayed := Replay(transactions.value, lookup, readComment, digest);
      (replayed.Ok? ==> r == Ok(replayed.value.comments)) && (!replayed.Ok? ==> r.Fatal?)
  {
    if !transactions.Ok? {
      return Fatal("Failed to read the transactions");
    }
    var all := transactions.value;
    var comments: seq<Comment> := [];
    var commentsByPHID: map<string, Comment> := map[];
    var rejectionCommentsByUser: map<string, seq<string>> := map[];
    for i := 0 to |all|
      invariant Replay(all[..i], lookup, readComment, digest) == Ok(LoadState(comments, commentsByPHID, rejectionCommentsByUser))
    {
      assert all[..i + 1][..i] == all[..i];
      var transaction := all[i];
      var author := lookup(transaction.authorPHID);
      if !author.Ok? || author.value.None? {
        ReplayFailureSticks(all, lookup, readComment, digest, i + 1);
        return Fatal("Failed to look up the author");
      }
      var transactionComment: Option<TransactionComment> := None;
      if transaction.commentPHID.Some? {
        var read := readComment(transaction.phid);
        if !read.Ok? {
          ReplayFailureSticks(all, lookup, readComment, digest, i + 1);
          return Fatal("Failed to read the transaction comment");
        }
        transactionComment := Some(read.value);
      }
      comments, commentsByPHID, rejectionCommentsByUser :=
        ApplyTransaction(comments, commentsByPHID, rejectionCommentsByUser, transaction, author.value.value, transactionComment, digest);
    }
    assert all[..|all|] == all;
    ReplayNeverErr(all, lookup, readComment, digest);
    r := Ok(comments);
  }

  /** The body of the loop of `LoadComments`, for one transaction. */
  method ApplyTransaction(comments: seq<Comment>, commentsByPHID: map<string, Comment>, rejectionCommentsByUser: map<string, seq<string>>,
                          transaction: Transaction, author: User, transactionComment: Option<TransactionComment>, digest: Comment -> string)
    returns (comments': seq<Comment>, commentsByPHID': map<string, Comment>, rejectionCommentsByUser': map<string, seq<string>>)
    ensures LoadState(comments', commentsByPHID', rejectionCommentsByUser')
      == Step(LoadState(comments, commentsByPHID, rejectionCommentsByUser), transaction, author, transactionComment, digest)
  {
    comments', commentsByPHID', rejectionCommentsByUser' := comments, commentsByPHID, rejectionCommentsByUser;
    var c := NewComment(transaction, author, transactionComment, commentsByPHID, digest);
    if transaction.kind == ActionType && transaction.newValue.Some? {
      var action := transaction.newValue.value;
      if action == AcceptAction {
        c := c.(resolved := Some(true));
        comments' := AppendApprovals(comments', c, RejectionsOf(rejectionCommentsByUser, author.userName));
      } else if action == RejectAction {
        c := c.(resolved := Some(false));
      }
    }
    assert c == OwnComment(transaction, author, transactionComment, commentsByPHID, digest);
    if c.parent != "" || c.location.Some? || c.description != "" || c.resolved.Some? {
      comments' := comments' + [c];
      commentsByPHID' := commentsByPHID'[transaction.phid := c];
      if c.resolved.Some? && c.resolved.value == false {
        var commentHash := N.Hash(digest, c);
        rejectionCommentsByUser' := rejectionCommentsByUser'[author.userName := RejectionsOf(rejectionCommentsByUser, author.userName) + [commentHash]];
      }
    }
  }

  /** The comment of a transaction before its action is looked at. */
  method NewComment(transaction: Transaction, author: User, transactionComment: Option<TransactionComment>,
                    commentsByPHID: map<string, Comment>, digest: Comment -> string) returns (c: Comment)
    ensures c == OwnComment(transaction, author, transactionComment, commentsByPHID, digest).(resolved := None)
  {
    c := N.Comment(FormatNat(transaction.dateCreated), author.email, "", None, "", None);
    if author.email != "" {
      c := c.(author := author.email);
    } else {
      c := c.(author := author.userName);
    }
    if transactionComment.Some? {
      var tc := transactionComment.value;
      if tc.fileName != "" {
        var location := N.Location(tc.commit, tc.fileName, None);
        if tc.lineNumber != 0 {
          location := location.(range := Some(N.Range(tc.lineNumber)));
        }
        c := c.(location := Some(location));
      }
      c := c.(description := tc.content);
      if tc.replyToCommentPHID.Some? {
        if tc.replyToCommentPHID.value in commentsByPHID {
          c := c.(parent := N.Hash(digest, commentsByPHID[tc.replyToCommentPHID.value]));
        }
      }
    }
  }

  /** The inner loop of an accept: one accepting reply per rejection of the user. */
  method AppendApprovals(comments: seq<Comment>, accept: Comment, history: seq<string>) returns (comments': seq<Comment>)
    ensures comments' == comments + Approvals(accept, history)
  {
    comments' := comments;
    for j := 0 to |history|
      invariant comments' == comments + Approvals(accept, history[..j])
    {
      comments' := comments' + [N.Comment(accept.timestamp, accept.author, history[j], None, "", Some(true))];
    }
    assert history[..|history|] == history;
  }

  lemma {:induction false} ReplayFailureSticks(ts: seq<Transaction>, lookup: string -> Result<Option<User>>,
                                               readComment: string -> Result<TransactionComment>, digest: Comment -> string, k: nat)
    requires k <= |ts| && !Replay(ts[..k], lookup, readComment, digest).Ok?
    ensures Replay(ts, lookup, readComment, digest) == Replay(ts[..k], lookup, readComment, digest)
    decreases |ts| - k
  {
    if k < |ts| {
      assert ts[..k + 1][..k] == ts[..k];
      ReplayFailureSticks(ts, lookup, readComment, digest, k + 1);
    } else {
      assert ts[..k] == ts;
    }
  }

  /** The replay either builds a state or stops the program; it never returns an error. */
  lemma {:induction false} ReplayNeverErr(ts: seq<Transaction>, lookup: string -> Result<Option<User>>,
                                          readComment: string -> Result<TransactionComment>, digest: Comment -> string)
    ensures !Replay(ts, lookup, readComment, digest).Err?
  {
    if ts != [] {
      ReplayNeverErr(ts[..|ts| - 1], lookup, readComment, digest);
    }
  }

  // ---------------------------------------------------------------------------
  // What one transaction emits

  /**
   * The comment a transaction stands for: by the author's e-mail address,
   * or the user name when there is none; stamped with the decimal form of
   * the transaction's date; saying what the transaction's comment says,
   * and nothing without one; on a file only when the comment names one, and
   * on a line only when its line is not 0; replying to the comment replied
   * to exactly when that comment was emitted; resolved only by an accept or
   * a reject action.
   */
  lemma OwnCommentSpec(t: Transaction, author: User, tc: Option<TransactionComment>, byPHID: map<string, Comment>, digest: Comment -> string)
    ensures var c := OwnComment(t, author, tc, byPHID, digest);
      && (c.author == if author.email != "" then author.email else author.userName)
      && c.timestamp == FormatNat(t.dateCreated) && ParseUint32(c.timestamp) == Some(t.dateCreated)
      && c.description == (if tc.Some? then tc.value.content else "")
      && (c.location.Some? <==> tc.Some? && tc.value.fileName != "")
      && (c.location.Some? ==>
            && c.location.value.path == tc.value.fileName && c.location.value.commit == tc.value.commit
            && (c.location.value.range.Some? <==> tc.value.lineNumber != 0))
      && (tc.Some? && tc.value.replyToCommentPHID.Some? && tc.value.replyToCommentPHID.value in byPHID ==>
            c.parent == N.Hash(digest, byPHID[tc.value.replyToCommentPHID.value]))
      && (c.parent != "" ==>
            && tc.Some? && tc.value.replyToCommentPHID.Some? && tc.value.replyToCommentPHID.value in byPHID
            && c.parent == N.Hash(digest, byPHID[tc.value.replyToCommentPHID.value]))
      && (c.resolved == Some(true) <==> t.kind == ActionType && t.newValue == Some(AcceptAction))
      && (c.resolved == Some(false) <==> t.kind == ActionType && t.newValue == Some(RejectAction))
  {
    ParseUint32Format(t.dateCreated);
  }

  /**
   * What one transaction adds: the accepting replies, when it accepts, one
   * per earlier rejection of the same user and in that order, then its own
   * comment when that says something. The rejection histories are never
   * shortened, and only a kept rejection lengthens its user's history.
   */
  lemma StepSpec(st: LoadState, t: Transaction, author: User, tc: Option<TransactionComment>, digest: Comment -> string)
    ensures var c := OwnComment(t, author, tc, st.byPHID, digest);
      var history := RejectionsOf(st.rejections, author.userName);
      var next := Step(st, t, author, tc, digest);
      var added := next.comments[|st.comments|..];
      && st.comments <= next.comments
      && (c.resolved == Some(true) ==>
            |added| == |history| + 1 && added[|history|] == c
            && forall i | 0 <= i < |history| ::
                 added[i].parent == history[i] && added[i].resolved == Some(true)
                 && added[i].author == c.author && added[i].timestamp == c.timestamp)
      && (c.resolved != Some(true) ==> added == if Worth(c) then [c] else [])
      && (forall u | u in st.rejections :: u in next.rejections && st.rejections[u] <= next.rejections[u])
      && (next.rejections != st.rejections <==> Worth(c) && c.resolved == Some(false))
      && (Worth(c) && c.resolved == Some(false) ==>
            next.rejections[author.userName] == history + [N.Hash(digest, c)])
  {
    var c := OwnComment(t, author, tc, st.byPHID, digest);
    var history := RejectionsOf(st.rejections, author.userName);
    if Worth(c) && c.resolved == Some(false) {
      var next := Step(st, t, author, tc, digest);
      assert author.userName in next.rejections && |next.rejections[author.userName]| == |history| + 1;
      if author.userName in st.rejections {
        assert |next.rejections[author.userName]| != |st.rejections[author.userName]|;
      } else {
        assert author.userName !in st.rejections;
      }
    }
  }

  /**
   * What the replay keeps consistent: every comment filed by transaction is
   * one that was emitted, and every hash in a rejection history is the hash
   * of an emitted rejection.
   */
  ghost predicate Consistent(st: LoadState, digest: Comment -> string)
  {
    && (forall p | p in st.byPHID :: st.byPHID[p] in st.comments)
    && (forall u, h | u in st.rejections && h in st.rejections[u] ::
          exists c | c in st.comments :: c.resolved == Some(false) && N.Hash(digest, c) == h)
  }

  lemma StepConsistent(st: LoadState, t: Transaction, author: User, tc: Option<TransactionComment>, digest: Comment -> string)
    requires Consistent(st, digest)
    ensures Consistent(Step(st, t, author, tc, digest), digest)
  {
    var next := Step(st, t, author, tc, digest);
    var c := OwnComment(t, author, tc, st.byPHID, digest);
    StepSpec(st, t, author, tc, digest);
    forall u, h | u in next.rejections && h in next.rejections[u]
      ensures exists c' | c' in next.comments :: c'.resolved == Some(false) && N.Hash(digest, c') == h
    {
      if u in st.rejections && h in st.rejections[u] {
        var c' :| c' in st.comments && c'.resolved == Some(false) && N.Hash(digest, c') == h;
        assert c' in next.comments;
      } else {
        assert c in next.comments;
      }
    }
  }

  /**
   * The accepting replies a transaction adds, every comment it adds but its
   * own, each answer the hash of a rejection that was already emitted.
   */
  lemma StepApprovalsAnswerRejections(st: LoadState, t: Transaction, author: User, tc: Option<TransactionComment>, digest: Comment -> string)
    requires Consistent(st, digest)
    ensures var next := Step(st, t, author, tc, digest);
      forall j | |st.comments| <= j < |next.comments| - 1 ::
        exists r | r in st.comments :: r.resolved == Some(false) && N.Hash(digest, r) == next.comments[j].parent
  {
    var next := Step(st, t, author, tc, digest);
    var c := OwnComment(t, author, tc, st.byPHID, digest);
    var history := RejectionsOf(st.rejections, author.userName);
    StepSpec(st, t, author, tc, digest);
    var added := next.comments[|st.comments|..];
    forall j | |st.comments| <= j < |next.comments| - 1
      ensures exists r | r in st.comments :: r.resolved == Some(false) && N.Hash(digest, r) == next.comments[j].parent
    {
      assert c.resolved == Some(true);
      var i := j - |st.comments|;
      assert added[i] == next.comments[j];
      assert history[i] in st.rejections[author.userName];
    }
  }

  /** The replay keeps its state consistent. */
  lemma {:induction false} ReplayConsistent(ts: seq<Transaction>, lookup: string -> Result<Option<User>>,
                                            readComment: string -> Result<TransactionComment>, digest: Comment -> string)
    requires Replay(ts, lookup, readComment, digest).Ok?
    ensures Consistent(Replay(ts, lookup, readComment, digest).value, digest)
  {
    if ts != [] {
      var front := ts[..|ts| - 1];
      ReplayConsistent(front, lookup, readComment, digest);
      var t := ts[|ts| - 1];
      var tc := if t.commentPHID.Some? then Some(readComment(t.phid).value) else None;
      StepConsistent(Replay(front, lookup, readComment, digest).value, t, lookup(t.authorPHID).value.value, tc, digest);
    }
  }

  /**
   * Over the whole replay, the accepting replies each transaction adds
   * answer the hash of a rejection emitted by an earlier transaction.
   */
  lemma ReplayApprovalsAnswerRejections(ts: seq<Transaction>, k: nat, lookup: string -> Result<Option<User>>,
                                        readComment: string -> Result<TransactionComment>, digest: Comment -> string)
    requires k < |ts| && Replay(ts, lookup, readComment, digest).Ok?
    ensures Replay(ts[..k], lookup, readComment, digest).Ok? && Replay(ts[..k + 1], lookup, readComment, digest).Ok?
    ensures var before := Replay(ts[..k], lookup, readComment, digest).value.comments;
      var after := Replay(ts[..k + 1], lookup, readComment, digest).value.comments;
      && before <= after
      && forall j | |before| <= j < |after| - 1 ::
           exists r | r in before :: r.resolved == Some(false) && N.Hash(digest, r) == after[j].parent
  {
    ReplayAppends(ts, k + 1, lookup, readComment, digest);
    var prefix := ts[..k + 1];
    assert prefix[..k] == ts[..k];
    ReplayAppends(prefix, k, lookup, readComment, digest);
    ReplayConsistent(ts[..k], lookup, readComment, digest);
    var t := prefix[k];
    var tc := if t.commentPHID.Some? then Some(readComment(t.phid).value) else None;
    StepApprovalsAnswerRejections(Replay(ts[..k], lookup, readComment, digest).value, t, lookup(t.authorPHID).value.value, tc, digest);
  }

  /** The comments of a shorter replay start the comments of a longer one: comments are only appended. */
  lemma {:induction false} ReplayAppends(ts: seq<Transaction>, k: nat, lookup: string -> Result<Option<User>>,
                                         readComment: string -> Result<TransactionComment>, digest: Comment -> string)
    requires k <= |ts| && Replay(ts, lookup, readComment, digest).Ok?
    ensures Replay(ts[..k], lookup, readComment, digest).Ok?
    ensures Replay(ts[..k], lookup, readComment, digest).value.comments <= Replay(ts, lookup, readComment, digest).value.comments
    decreases |ts| - k
  {
    if k == |ts| {
      assert ts[..k] == ts;
    } else {
      var front := ts[..|ts| - 1];
      if !Replay(front, lookup, readComment, digest).Ok? {
        assert false;
      }
      assert front[..k] == ts[..k];
      ReplayAppends(front, k, lookup, readComment, digest);
      var t := ts[|ts| - 1];
      var tc := if t.commentPHID.Some? then Some(readComment(t.phid).value) else None;
      StepSpec(Replay(front, lookup, readComment, digest).value, t, lookup(t.authorPHID).value.value, tc, digest);
    }
  }

  // ---------------------------------------------------------------------------
  // The replay scenario

  /** Every author PHID is a user of that name, with address name@gmail.com. */
  function ScenarioLookup(userPHID: string): Result<Option<User>>
  {
    Ok(Some(User("123", userPHID, "", userPHID + "@gmail.com")))
  }

  function ScenarioComment(transactionPHID: string): Result<TransactionComment>
  {
    Ok(TransactionComment("2", "", "", 0, None, ""))
  }

  function ScenarioAction(user: string, action: string, order: uint32): Transaction
  {
    Transaction("123", user, order, ActionType, Some(action), None)
  }

  /** u1 rejects, accepts and rejects, u2 rejects, and u1 accepts. */
  function ScenarioTransactions(): seq<Transaction>
  {
    [ ScenarioAction("u1", RejectAction, 1), ScenarioAction("u1", AcceptAction, 2), ScenarioAction("u1", RejectAction, 3),
      ScenarioAction("u2", RejectAction, 4), ScenarioAction("u1", AcceptAction, 5)]
  }

  /** A verdict comment of the scenario, by the user whose address is user@gmail.com. */
  function Verdict(user: string, timestamp: string, parent: string, resolved: bool): Comment
  {
    N.Comment(timestamp, user + "@gmail.com", parent, None, "", Some(resolved))
  }

  /** The state of the scenario replay after each transaction. */
  function ScenarioState(k: nat, digest: Comment -> string): LoadState
  {
    var c1 := Verdict("u1", "1", "", false);
    var c2 := Verdict("u1", "2", N.Hash(digest, c1), true);
    var c3 := Verdict("u1", "2", "", true);
    var c4 := Verdict("u1", "3", "", false);
    var c5 := Verdict("u2", "4", "", false);
    var c6 := Verdict("u1", "5", N.Hash(digest, c1), true);
    var c7 := Verdict("u1", "5", N.Hash(digest, c4), true);
    var c8 := Verdict("u1", "5", "", true);
    var h1, h4, h5 := N.Hash(digest, c1), N.Hash(digest, c4), N.Hash(digest, c5);
    if k == 0 then LoadState([], map[], map[])
    else if k == 1 then LoadState([c1], map["123" := c1], map["u1" := [h1]])
    else if k == 2 then LoadState([c1, c2, c3], map["123" := c3], map["u1" := [h1]])
    else if k == 3 then LoadState([c1, c2, c3, c4], map["123" := c4], map["u1" := [h1, h4]])
    else if k == 4 then LoadState([c1, c2, c3, c4, c5], map["123" := c5], map["u1" := [h1, h4], "u2" := [h5]])
    else LoadState([c1, c2, c3, c4, c5, c6, c7, c8], map["123" := c8], map["u1" := [h1, h4], "u2" := [h5]])
  }

  /**
   * The replay scenario: eight comments. Each action is a comment of its
   * own; u1's first accept also replies to u1's first rejection, and u1's
   * second accept to both of u1's rejections, in order; u2's rejection is
   * not answered by u1's accept.
   */
  lemma LoadCommentsScenario(digest: Comment -> string)
    ensures var c1 := Verdict("u1", "1", "", false);
      var c4 := Verdict("u1", "3", "", false);
      Replay(ScenarioTransactions(), ScenarioLookup, ScenarioComment, digest).Ok?
      && Replay(ScenarioTransactions(), ScenarioLookup, ScenarioComment, digest).value.comments == [
        c1,
        Verdict("u1", "2", N.Hash(digest, c1), true),
        Verdict("u1", "2", "", true),
        c4,
        Verdict("u2", "4", "", false),
        Verdict("u1", "5", N.Hash(digest, c1), true),
        Verdict("u1", "5", N.Hash(digest, c4), true),
        Verdict("u1", "5", "", true)]
  {
    ScenarioReplay(digest);
  }

  /** The whole scenario replays to its last state. */
  lemma ScenarioReplay(digest: Comment -> string)
    ensures Replay(ScenarioTransactions(), ScenarioLookup, ScenarioComment, digest) == Ok(ScenarioState(5, digest))
  {
    ScenarioPrefix(5, digest);
    assert ScenarioTransactions()[..5] == ScenarioTransactions();
  }

  /** The replay of the first k transactions of the scenario. */
  lemma {:induction false} ScenarioPrefix(k: nat, digest: Comment -> string)
    requires k <= 5
    ensures Replay(ScenarioTransactions()[..k], ScenarioLookup, ScenarioComment, digest) == Ok(ScenarioState(k, digest))
  {
    if k == 0 {
      assert ScenarioTransactions()[..0] == [];
    } else {
      ScenarioPrefix(k - 1, digest);
      if k == 1 {
        ScenarioFirst(digest);
      } else if k == 2 {
        ScenarioSecond(digest);
      } else if k == 3 {
        ScenarioThird(digest);
      } else if k == 4 {
        ScenarioFourth(digest);
      } else {
        ScenarioFifth(digest);
      }
      var t := ScenarioTransactions()[k - 1];
      ReplaySnoc(ScenarioTransactions(), k - 1, ScenarioLookup, ScenarioComment, digest,
        ScenarioUser(t.authorPHID), ScenarioState(k - 1, digest), ScenarioState(k, digest));
    }
  }

  /** u1's first rejection is kept and starts u1's history. */
  lemma ScenarioFirst(digest: Comment -> string)
    ensures Step(ScenarioState(0, digest), ScenarioTransactions()[0], ScenarioUser("u1"), None, digest) == ScenarioState(1, digest)
  {
    assert FormatNat(1) == "1";
    var t := ScenarioTransactions()[0];
    assert t == ScenarioAction("u1", RejectAction, 1);
    assert ResolvedBy(t) == Some(false);
    var c := OwnComment(t, ScenarioUser("u1"), None, map[], digest);
    assert c == Verdict("u1", "1", "", false);
    assert RejectionsOf(map[], "u1") == [];
    var next := Step(ScenarioState(0, digest), t, ScenarioUser("u1"), None, digest);
    assert next.comments == [c];
    assert next.byPHID == map["123" := c];
    assert ScenarioUser("u1").userName == "u1";
    assert Worth(c) && c.resolved == Some(false);
    assert RejectionsOf(ScenarioState(0, digest).rejections, "u1") + [N.Hash(digest, c)] == [N.Hash(digest, c)];
    assert next.rejections == map["u1" := [N.Hash(digest, c)]];
    assert ScenarioState(1, digest) == LoadState([c], map["123" := c], map["u1" := [N.Hash(digest, c)]]);
  }

  /** u1's accept replies to the first rejection, then is kept itself. */
  lemma ScenarioSecond(digest: Comment -> string)
    ensures Step(ScenarioState(1, digest), ScenarioTransactions()[1], ScenarioUser("u1"), None, digest) == ScenarioState(2, digest)
  {
    assert FormatNat(2) == "2";
    var c1 := Verdict("u1", "1", "", false);
    var h1 := N.Hash(digest, c1);
    var st := ScenarioState(1, digest);
    assert st == LoadState([c1], map["123" := c1], map["u1" := [h1]]);
    var t := ScenarioTransactions()[1];
    assert t == ScenarioAction("u1", AcceptAction, 2) && ResolvedBy(t) == Some(true);
    var c := OwnComment(t, ScenarioUser("u1"), None, st.byPHID, digest);
    assert c == Verdict("u1", "2", "", true);
    assert RejectionsOf(st.rejections, "u1") == [h1];
    assert Approvals(c, [h1]) == [Verdict("u1", "2", h1, true)];
    var next := Step(st, t, ScenarioUser("u1"), None, digest);
    assert next.comments == [c1, Verdict("u1", "2", h1, true), c];
    assert next.byPHID == map["123" := c];
    assert next.rejections == st.rejections;
  }

  /** u1's second rejection joins u1's history. */
  lemma ScenarioThird(digest: Comment -> string)
    ensures Step(ScenarioState(2, digest), ScenarioTransactions()[2], ScenarioUser("u1"), None, digest) == ScenarioState(3, digest)
  {
    var c1 := Verdict("u1", "1", "", false);
    var h1 := N.Hash(digest, c1);
    var c3 := Verdict("u1", "2", "", true);
    var st := ScenarioState(2, digest);
    assert st == LoadState([c1, Verdict("u1", "2", h1, true), c3], map["123" := c3], map["u1" := [h1]]);
    var t := ScenarioTransactions()[2];
    assert t == ScenarioAction("u1", RejectAction, 3);
    var c := Verdict("u1", "3", "", false);
    assert FormatNat(3) == "3";
    assert c == OwnComment(t, ScenarioUser("u1"), None, st.byPHID, digest);
    StepRejection(st, t, ScenarioUser("u1"), digest, c);
    assert ScenarioUser("u1").userName == "u1" && t.phid == "123";
    assert RejectionsOf(st.rejections, "u1") + [N.Hash(digest, c)] == [h1, N.Hash(digest, c)];
    assert st.byPHID[t.phid := c] == map["123" := c];
    assert st.rejections["u1" := [h1, N.Hash(digest, c)]] == map["u1" := [h1, N.Hash(digest, c)]];
    assert ScenarioState(3, digest) == LoadState(st.comments + [c], map["123" := c], map["u1" := [h1, N.Hash(digest, c)]]);
  }

  /** u2's rejection starts a history of its own. */
  lemma ScenarioFourth(digest: Comment -> string)
    ensures Step(ScenarioState(3, digest), ScenarioTransactions()[3], ScenarioUser("u2"), None, digest) == ScenarioState(4, digest)
  {
    var c1 := Verdict("u1", "1", "", false);
    var c4 := Verdict("u1", "3", "", false);
    var h1, h4 := N.Hash(digest, c1), N.Hash(digest, c4);
    var st := ScenarioState(3, digest);
    assert st == LoadState([c1, Verdict("u1", "2", h1, true), Verdict("u1", "2", "", true), c4],
      map["123" := c4], map["u1" := [h1, h4]]);
    var t := ScenarioTransactions()[3];
    assert t == ScenarioAction("u2", RejectAction, 4);
    var c := Verdict("u2", "4", "", false);
    assert FormatNat(4) == "4";
    assert c == OwnComment(t, ScenarioUser("u2"), None, st.byPHID, digest);
    StepRejection(st, t, ScenarioUser("u2"), digest, c);
    assert ScenarioUser("u2").userName == "u2" && t.phid == "123";
    assert RejectionsOf(st.rejections, "u2") + [N.Hash(digest, c)] == [N.Hash(digest, c)];
    assert st.byPHID[t.phid := c] == map["123" := c];
    assert st.rejections["u2" := [N.Hash(digest, c)]] == map["u1" := [h1, h4], "u2" := [N.Hash(digest, c)]];
    assert ScenarioState(4, digest) == LoadState(st.comments + [c], map["123" := c], map["u1" := [h1, h4], "u2" := [N.Hash(digest, c)]]);
  }

  /** u1's second accept replies to both of u1's rejections, in order, and not to u2's. */
  lemma ScenarioFifth(digest: Comment -> string)
    ensures Step(ScenarioState(4, digest), ScenarioTransactions()[4], ScenarioUser("u1"), None, digest) == ScenarioState(5, digest)
  {
    var c1 := Verdict("u1", "1", "", false);
    var c4 := Verdict("u1", "3", "", false);
    var c5 := Verdict("u2", "4", "", false);
    var h1, h4, h5 := N.Hash(digest, c1), N.Hash(digest, c4), N.Hash(digest, c5);
    var st := ScenarioState(4, digest);
    assert st == LoadState([c1, Verdict("u1", "2", h1, true), Verdict("u1", "2", "", true), c4, c5],
      map["123" := c5], map["u1" := [h1, h4], "u2" := [h5]]);
    var t := ScenarioTransactions()[4];
    assert t == ScenarioAction("u1", AcceptAction, 5);
    var c := Verdict("u1", "5", "", true);
    assert FormatNat(5) == "5";
    assert c == OwnComment(t, ScenarioUser("u1"), None, st.byPHID, digest);
    StepAcceptance(st, t, ScenarioUser("u1"), digest, c);
    assert ScenarioUser("u1").userName == "u1" && t.phid == "123";
    assert RejectionsOf(st.rejections, "u1") == [h1, h4];
    var replies := [Verdict("u1", "5", h1, true), Verdict("u1", "5", h4, true)];
    assert Approvals(c, [h1, h4]) == replies;
    assert st.byPHID[t.phid := c] == map["123" := c];
    assert ScenarioState(5, digest) == LoadState(st.comments + replies + [c], map["123" := c], st.rejections);
  }

  /** A rejection without comment contents: kept, and added to its author's history. */
  lemma StepRejection(st: LoadState, t: Transaction, author: User, digest: Comment -> string, c: Comment)
    requires c == OwnComment(t, author, None, st.byPHID, digest) && c.resolved == Some(false)
    ensures Step(st, t, author, None, digest) == LoadState(st.comments + [c], st.byPHID[t.phid := c],
      st.rejections[author.userName := RejectionsOf(st.rejections, author.userName) + [N.Hash(digest, c)]])
  {
  }

  /** An accept without comment contents: replies to its author's rejections, then is kept. */
  lemma StepAcceptance(st: LoadState, t: Transaction, author: User, digest: Comment -> string, c: Comment)
    requires c == OwnComment(t, author, None, st.byPHID, digest) && c.resolved == Some(true)
    ensures Step(st, t, author, None, digest) == LoadState(st.comments + Approvals(c, RejectionsOf(st.rejections, author.userName)) + [c],
      st.byPHID[t.phid := c], st.rejections)
  {
  }

  function ScenarioUser(name: string): User
  {
    User("123", name, "", name + "@gmail.com")
  }

  /** One more transaction without comment contents, by a user the lookup finds. */
  lemma ReplaySnoc(ts: seq<Transaction>, k: nat, lookup: string -> Result<Option<User>>,
                   readComment: string -> Result<TransactionComment>, digest: Comment -> string,
                   author: User, before: LoadState, after: LoadState)
    requires k < |ts| && Replay(ts[..k], lookup, readComment, digest) == Ok(before)
    requires lookup(ts[k].authorPHID) == Ok(Some(author)) && ts[k].commentPHID.None?
    requires Step(before, ts[k], author, None, digest) == after
    ensures Replay(ts[..k + 1], lookup, readComment, digest) == Ok(after)
  {
    assert ts[..k + 1][..k] == ts[..k];
  }
}
