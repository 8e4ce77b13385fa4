# git-phabricator-mirror, modelled in Dafny

git-phabricator-mirror copies code reviews between two places:

- the git-notes review format of git-appraise, stored inside a repository;
- a Phabricator Differential server, reached through the `arc` command line tool and the server's MySQL tables.

This project models the comment-reconciliation core of the mirror. All `arc`, `mysql` and `git` calls are replaced by their decoded answers, which are given as inputs.

It covers these parts:

- **`NotesComment`** (`mirror/review/comment/comment.go`).
  - The comment record, with an optional location, an optional range and a tri-state resolved bit.
  - The quote text and the fuzzy "overlap" relation.
  - The canonical, timestamp-padded record that a comment's hash is computed from.
  - `ParseAllValid`, which stores notes by hash.
  - `FilterOverlapping`.
- **`ReviewComment`** (`mirror/review/comment.go`).
  - The second copy of the overlap relation, proved equal to the first.
  - Comment threads.
  - The `CommentMap` class with its `AddThreads` and `FilterOverlapping` methods.
  - The free `FilterOverlapping` function.
- **`Users`** (`mirror/review/arcanist/user.go`).
  - The five-minute user caches, with the clock as a parameter.
  - The rules for choosing one user from a query.
  - The memoised `whoAmI`.
- **`Arcanist`** (`mirror/review/arcanist/arcanist.go`).
  - Ref abbreviation and the branch filter.
  - Closed statuses.
  - The title and summary of a new revision, and its reviewers and CCs.
  - Choosing the first commit of a review.
  - Building inline and comment requests.
  - The decisions of `EnsureRequestExists` and `updateReviewDiffs`.
  - The callsign used by `Refresh`.
- **`Diff`** (`mirror/review/arcanist/diff.go`).
  - Decoded JSON values.
  - The last commit of a diff.
  - The `local:commits` property, and the other fields of a new diff.
- **`Database`** (`mirror/review/arcanist/database.go`).
  - The parsers for the tab-separated rows the `mysql` client prints.
  - `LoadComments`, which replays a review's transactions into git-notes comments. Each rejection is remembered per user, and a later accept by that user answers each remembered rejection.
- **`Mirror`** (`mirror/mirror.go`).
  - `hasOverlap`.
  - One mirroring pass, as a class that holds the three package-level maps: processed states, existing comments and open reviews. What the pass asks of the repository and of the review tool is returned as a sequence of effects.
- **`CI`** (`mirror/review/ci.go`, and its textual copy `mirror/review/ci/ci.go`). The latest continuous-integration report.
- **`GoStrings`**. The parts of Go's `strconv`, `strings`, `fmt` and `sort` packages that the logic above depends on.

Modelling conventions:

- Go's `log.Fatal`, and the nil dereferences that end the process, are the `Fatal` case of `Result`.
- Returned Go errors are the `Err` case.
- Go strings are sequences of characters that stand for bytes.
- Go map iteration has no fixed order. Where the result depends on it, the methods choose the next key with `:|` and the contract leaves the order open.

## Model

| member | source | states |
|---|---|---|
| NotesComment.IsQuote | mirror/review/comment/comment.go:136-147 | definition: the three tests of `isQuote`, in source order |
| NotesComment.IsQuoteExactly | mirror/review/comment/comment.go:136-147 | the third test of `isQuote`, on the escaped description, never holds, so a description quotes exactly when it is the quote or the quote with its newlines written as backslash and n |
| NotesComment.DescriptionOverlaps | mirror/review/comment/comment.go:153-161 | definition: equal descriptions, or one a quote of the other |
| NotesComment.LocationOverlaps | mirror/review/comment/comment.go:164-179 | definition: same commit and path, and both without a range or both starting on the same line |
| NotesComment.Overlaps | mirror/review/comment/comment.go:189-215 | definition: the resolved-bit test, then the description test, then the location test |
| NotesComment.NormaliseTimestamp | mirror/review/comment/comment.go:95-108 | definition: a timestamp shorter than ten characters that parses as an int64 is rewritten with "%010d" |
| NotesComment.Hash | mirror/review/comment/comment.go:117-120 | definition: the digest of the comment with its timestamp normalised |
| NotesComment.Write | mirror/review/comment/comment.go:111-114 | definition: the encoding of the comment with its timestamp normalised |
| NotesComment.StoreAll | mirror/review/comment/comment.go:84-90 | definition: the map after assigning every (hash, comment) pair in order |
| NotesComment.QuoteDescription | mirror/review/comment/comment.go:126-128 | the quote is the author, then a colon and two newlines, then the description |
| NotesComment.OverlapsSymmetric | mirror/review/comment/comment.go:153-161 | overlap does not depend on the order of the two comments |
| NotesComment.OverlapsReflexive | mirror/review/comment/comment.go:189-215 | every comment overlaps itself |
| NotesComment.QuoteOverlaps | mirror/review/comment/comment_test.go:43-54 | a comment whose description quotes another overlaps it in both orders, whatever its author and timestamp, when both share the location and neither is resolved |
| NotesComment.ResolvedRule | mirror/review/comment/comment.go:193-203 | a resolved comment never overlaps an unresolved one; two resolved comments overlap only with equal bits and equal timestamps |
| NotesComment.LocationRule | mirror/review/comment/comment.go:164-179 | a located comment never overlaps an unlocated one; located ones overlap only on the same commit and path and the same first line, so a whole-file location never matches a line |
| NotesComment.OverlapsWhenAllAgree | mirror/review/comment/comment.go:189-215 | overlapping descriptions, equal resolved bits (with equal timestamps when set) and equal locations are enough for an overlap |
| NotesComment.DescriptionRequired | mirror/review/comment/comment.go:205-214 | comments whose descriptions neither match nor quote each other never overlap |
| NotesComment.ResolvedScenario | mirror/review/comment/comment_test.go:56-70 | an accept and a reject at the same timestamp by the same author do not overlap |
| NotesComment.ShortNumberBound | mirror/review/comment/comment.go:95-108 | a numeric timestamp shorter than ten characters lies strictly between -10^9 and 10^9 |
| NotesComment.NormaliseTimestampSpec | mirror/review/comment/comment.go:95-108 | a numeric timestamp shorter than ten characters becomes ten characters with the same value; any other timestamp is unchanged |
| NotesComment.NormaliseTimestampIdempotent | mirror/review/comment/comment.go:95-108 | padding a padded timestamp changes nothing |
| NotesComment.HashOfCanonical | mirror/review/comment/comment.go:117-120 | hashing the canonical record gives the comment's own hash |
| NotesComment.WriteParseHash | mirror/review/comment/comment.go:111-114 | with a decoder that inverts the encoder, a written note reads back as the canonical record, which hashes like the comment |
| NotesComment.SameNumberSameHash | mirror/review/comment/comment.go:95-120 | short numeric timestamps with the same value give the same hash |
| NotesComment.PaddedTimestampsHashAlike | mirror/review/comment/comment.go:95-120 | "1234" and "01234" hash alike |
| NotesComment.StoreAllKeys | mirror/review/comment/comment.go:81-93 | storing pairs adds exactly their hashes to the keys |
| NotesComment.StoreAllLast | mirror/review/comment/comment.go:88-90 | a hash holds the comment of the last pair that carries it |
| NotesComment.StoreAllUntouched | mirror/review/comment/comment.go:88-90 | a key that no pair carries keeps its comment |
| NotesComment.ParsedPairsMembership | mirror/review/comment/comment.go:84-87 | a (hash, comment) pair is listed exactly when some note parses to the comment and the hash is the comment's own |
| NotesComment.ParseAllValid | mirror/review/comment/comment.go:81-93 | the loop stores every parsed note under its hash, in note order, and drops the notes that fail to parse |
| NotesComment.ParseAllValidSpec | mirror/review/comment/comment.go:81-93 | every note that parses has its hash as a key; every stored comment was parsed from some note and sits under its own hash; a hash holds the last parsed comment carrying it |
| NotesComment.LastIndexWithHash | mirror/review/comment/comment.go:88-90 | a hash among the pairs has a last pair that carries it |
| NotesComment.FilterOverlapping | mirror/review/comment/comment.go:220-234 | each result is a value of the map, each key is used at most once, and a key is used exactly when no excluded comment overlaps its value; the order is left open |
| NotesComment.FilterScenarioExclusions | mirror/review/comment/comment_test.go:73-123 | with the original as the only exclusion, the original and its quote are excluded and the reply is kept |
| NotesComment.FilterScenario | mirror/review/comment/comment_test.go:103-122 | filtering the original, its quote and the reply against the original leaves exactly the reply |
| NotesComment.SingleSurvivor | mirror/review/comment/comment.go:220-234 | when exactly one key survives the filter, the visited keys are that key alone |
| ReviewComment.QuoteDescription | mirror/review/comment.go:33-35 | definition: the author, a colon, two newlines, then the description |
| ReviewComment.IsQuote | mirror/review/comment.go:43-54 | definition: the three tests of `isQuote`, in source order |
| ReviewComment.DescriptionOverlaps | mirror/review/comment.go:60-68 | definition: equal descriptions, or one a quote of the other |
| ReviewComment.LocationOverlaps | mirror/review/comment.go:71-86 | definition: same commit and path, and both without a range or both starting on the same line |
| ReviewComment.Overlaps | mirror/review/comment.go:96-122 | definition: the resolved-bit test, then the description test, then the location test |
| ReviewComment.CopiesAgree | mirror/review/comment.go:33-122 | the quote (author, colon, two newlines, description), the quote test, description, location and comment overlap of this copy equal those of mirror/review/comment/comment.go |
| ReviewComment.OverlapsSymmetricQuoteTolerant | mirror/review/comment.go:60-68 | overlap is symmetric, and a quote overlaps its original in both orders when both share the location and neither is resolved |
| ReviewComment.IsQuoteExactly | mirror/review/comment.go:43-54 | the last test of `isQuote`, on the escaped description, never holds, so a description quotes exactly when it is the quote or the quote with its newlines written as backslash and n |
| ReviewComment.ResolvedScenario | mirror/review/comment_test.go:58-111 | different bits at one timestamp, the same bit at different timestamps, and one bit unset do not overlap; two unset ones otherwise alike do |
| ReviewComment.FlattenThread | mirror/review/comment.go:124-129 | a thread's flattening starts with the thread's own hash and comment |
| ReviewComment.FlattenAll | mirror/review/comment.go:124-129 | a forest flattens to at least one pair per tree |
| ReviewComment.FlattenAllSnoc | mirror/review/comment.go:124-129 | flattening a forest with one more tree appends that tree's pairs |
| ReviewComment.InForestCons | mirror/review/comment.go:124-129 | a pair is in a forest exactly when it is the first root, lies under it, or lies in the rest |
| ReviewComment.FlattenAllMembership | mirror/review/comment.go:124-129 | the flattening lists exactly the (hash, comment) pairs found at any depth of the forest |
| ReviewComment.CommentMap.constructor | mirror/review/comment.go:150-154 | a new map is empty |
| ReviewComment.CommentMap.AddThreads | mirror/review/comment.go:124-129 | the map becomes the old map with every pair of the forest stored in depth-first order |
| ReviewComment.CommentMap.FilterOverlapping | mirror/review/comment.go:134-148 | each result is a value of the map, each key at most once, and a key is used exactly when no excluded comment overlaps its value |
| ReviewComment.FilterOverlapping | mirror/review/comment.go:150-154 | the forest is flattened into a map first, so a reply is kept or dropped on its own, independently of its parent: the result holds exactly the collected comments that no excluded comment overlaps, one per hash |
| ReviewComment.AddThreadsSpec | mirror/review/comment.go:124-129 | after adding threads the keys are the old keys plus every hash of the forest; a hash holds its last comment in depth-first order; keys absent from the forest are unchanged |
| ReviewComment.AddThreadsUntouched | mirror/review/comment.go:124-129 | a key that no thread carries keeps its comment |
| ReviewComment.CollectDistinctHashes | mirror/review/comment.go:124-129 | with distinct hashes, every comment at any depth is stored under its thread hash |
| ReviewComment.ScenarioCollect | mirror/review/comment_test.go:113-163 | the test's thread of original, quote and reply collects into the three comments under their hashes |
| ReviewComment.ThreadFilterScenario | mirror/review/comment_test.go:113-163 | with the original as the only exclusion, the quote is dropped and the reply kept; the test filters a flat map, and nesting the reply inside a thread is this model's own addition |
| Users.QueryUserLoader | mirror/review/arcanist/user.go:84-104 | definition: the e-mail query, then, when it succeeded with no result, the user-name query; a user only from a single result |
| Users.LookupUserLoader | mirror/review/arcanist/user.go:107-120 | definition: the PHID query; a user only from a single result |
| Users.CacheLookup | mirror/review/arcanist/user.go:62-76 | definition: a fresh entry is served; otherwise the loader's answer is returned and, when it succeeded, stored with the store time |
| Users.WhoAmIStep | mirror/review/arcanist/user.go:125-136 | definition: the remembered user, else the answer of `user.whoami`, remembered when it succeeded |
| Users.SelectUser | mirror/review/arcanist/user.go:99-102 | a user is chosen exactly when the query returned one, and it is that one |
| Users.QueryUserFallback | mirror/review/arcanist/user.go:92-98 | the user-name query is consulted only when the e-mail query succeeded with no result, and its answer is then the answer |
| Users.LoadersSelectSingleUser | mirror/review/arcanist/user.go:84-120 | both loaders fail exactly when the consulted query reports an error, never stop the program, and return a user exactly when one result came back |
| Users.FreshEntryServed | mirror/review/arcanist/user.go:62-67 | an entry stored less than five minutes ago is returned without calling the loader, and the cache is unchanged |
| Users.MissCallsLoader | mirror/review/arcanist/user.go:68-76 | on a miss or a stale entry the loader is called and its answer returned; a failure leaves the cache alone; a success stores the answer, even no user, with the store time; no other key changes |
| Users.StoredAnswerReused | mirror/review/arcanist/user.go:62-76 | an answer loaded and stored is served again, without a load, for five minutes |
| Users.UserDirectory.constructor | mirror/review/arcanist/user.go:54-55 | both caches start empty and no mirror user is known |
| Users.UserDirectory.QueryUser | mirror/review/arcanist/user.go:84-104 | the query cache steps as the cache lookup does, with the e-mail query and then the user-name query as the loader; the other state is unchanged |
| Users.UserDirectory.LookupUser | mirror/review/arcanist/user.go:107-120 | the lookup cache steps as the cache lookup does, with the PHID query as the loader; the other state is unchanged |
| Users.UserDirectory.WhoAmI | mirror/review/arcanist/user.go:125-136 | the answer and the remembered user follow the memoising step; the caches are unchanged |
| Users.WhoAmIMemoises | mirror/review/arcanist/user.go:125-136 | the first successful answer is remembered and returned by every later call; a failure is not remembered; the call never stops the program |
| Arcanist.ReviewsOnBranch | mirror/review/arcanist/arcanist.go:168-177 | definition: the reviews whose branch is the review ref or its abbreviation, in order |
| Arcanist.IsClosed | mirror/review/arcanist/arcanist.go:272-274 | definition: the status is closed or abandoned |
| Arcanist.FirstLine | mirror/review/arcanist/arcanist.go:224 | definition: the description up to its first newline |
| Arcanist.CommitHashes | mirror/review/arcanist/arcanist.go:119-125 | definition: the second elements of the two-element "gtcm" hash pairs, in order |
| Arcanist.Inlines | mirror/review/arcanist/arcanist.go:350-373 | definition: one inline request per located comment whose commit has a diff, in order |
| Arcanist.EnsureRequestExists | mirror/review/arcanist/arcanist.go:484-541 | definition: the actions asked for, by the order of the source's tests: merge base, merged, review ref, existing reviews, then creation |
| Arcanist.UpdateReviewDiffs | mirror/review/arcanist/arcanist.go:445-481 | definition: the outcome for one review, by the order of the source's tests |
| Arcanist.AbbreviateRefName | mirror/review/arcanist/arcanist.go:96-101 | a ref under refs/heads/ loses exactly that prefix; any other ref is unchanged |
| Arcanist.AbbreviateOnce | mirror/review/arcanist/arcanist.go:96-101 | only one leading refs/heads/ is stripped |
| Arcanist.FilterByBranch | mirror/review/arcanist/arcanist.go:168-177 | the loop keeps the reviews on the branch, in order |
| Arcanist.ReviewsOnBranchSpec | mirror/review/arcanist/arcanist.go:168-177 | a review is kept exactly when its branch is the review ref or its abbreviation |
| Arcanist.AbbreviatedBranchMatches | mirror/review/arcanist/arcanist.go:173 | a review whose branch is the short name matches the full ref |
| Arcanist.FirstLineSpec | mirror/review/arcanist/arcanist.go:224 | the first line is a newline-free prefix of the description that ends at its first newline |
| Arcanist.Title | mirror/review/arcanist/arcanist.go:224-229 | the title is never longer than 256 bytes |
| Arcanist.Summary | mirror/review/arcanist/arcanist.go:230-233 | the summary is the description or empty |
| Arcanist.TitleSummarySpec | mirror/review/arcanist/arcanist.go:224-233 | the title is the first line, or its first 252 bytes and "..." when that line is over 256 bytes; the summary is the full description exactly when the title differs from it |
| Arcanist.ShortDescription | mirror/review/arcanist/arcanist.go:224-233 | a short one-line description is the title, with an empty summary |
| Arcanist.BuildRevisionFields | mirror/review/arcanist/arcanist.go:222-249 | the fields carry the title, the summary, the PHIDs of the reviewers found, and the requester's PHID as the only CC when the requester is found |
| Arcanist.FoundPHIDsSpec | mirror/review/arcanist/arcanist.go:234-241 | a PHID is a reviewer exactly when some lookup succeeded and found a user with it |
| Arcanist.CommitHashesSpec | mirror/review/arcanist/arcanist.go:119-125 | the commits are exactly the second elements of the two-element "gtcm" hash pairs |
| Arcanist.GetFirstCommit | mirror/review/arcanist/arcanist.go:117-145 | none exactly when no commit has details with an integer time; otherwise a commit with the least time, the last listed among equal times |
| Arcanist.ListCommits | mirror/review/arcanist/arcanist.go:119-125 | the loop collects the commits of the "gtcm" pairs, in order |
| Arcanist.IndexByTimestamp | mirror/review/arcanist/arcanist.go:126-138 | every dated commit's time is collected, and each time maps to the last commit with that time |
| Arcanist.Least | mirror/review/arcanist/arcanist.go:142-143 | the head of the ascending sort: a listed time no greater than any other |
| Arcanist.InlineFor | mirror/review/arcanist/arcanist.go:350-372 | a comment gives an inline request exactly when it has a non-empty path whose commit maps to a diff; the request is on that diff and path, at the start line or 1, with the quote as content, on the new file |
| Arcanist.BuildCommentRequests | mirror/review/arcanist/arcanist.go:346-383 | one inline request per qualifying comment, in order, and one attaching "comment" request exactly when there is an inline request |
| Arcanist.InlinesSpec | mirror/review/arcanist/arcanist.go:350-373 | at most one request per comment; each is on the review, on the new file, and comes from some comment; every qualifying comment has its request |
| Arcanist.CommentRequestsScenario | mirror/review/arcanist/arcanist_test.go:27-99 | the test's comments give exactly its two inline requests and one comment request |
| Arcanist.CloseOnMerged | mirror/review/arcanist/arcanist.go:495-503 | when the revision is its own merge base only closes are asked for, and a review id is closed exactly when that review is not closed yet; otherwise nothing is closed |
| Arcanist.OpenIDsSpec | mirror/review/arcanist/arcanist.go:497-501 | the ids to close are exactly those of the reviews not closed |
| Arcanist.PendingRequest | mirror/review/arcanist/arcanist.go:505-540 | when not merged: nothing without a head commit; existing reviews are each updated to the head, in order; with none, a diff of the revision against the merge base is asked for, a refused diff ends there, a created one is followed by a revision and then by updates of the re-listed reviews to the head; a failed creation is fatal; every update is to the head commit |
| Arcanist.UpdateAllSpec | mirror/review/arcanist/arcanist.go:513-518 | one update per review, in order, each to the head commit |
| Arcanist.CreatedReviewIsUpdated | mirror/review/arcanist/arcanist.go:521-540 | after creating the diff and revision, the re-listed reviews get exactly the actions a call finding them existing would ask for |
| Arcanist.UpdateReviewDiffsSpec | mirror/review/arcanist/arcanist.go:445-481 | a closed review, or one without a merge base, is left alone; an open one that lists the head only has comments mirrored; otherwise a diff of the head against the merge base, after the review's earlier diffs, is asked for: a refusal ends there, a created diff is attached to the review by its decimal id, and a failed creation or update is fatal |
| Arcanist.RefreshCallsign | mirror/review/arcanist/arcanist.go:551-563 | a callsign is sent exactly for paths under /var/repo/, and it is the rest of the path |
| Diff.PriorCommits | mirror/review/arcanist/diff.go:218-240 | definition: the local commits of the prior diffs, gathered in order, failing at the first bad id or query |
| Diff.FindLastCommit | mirror/review/arcanist/diff.go:77-99 | fatal exactly when some timed entry's time is not an integer; "" when no entry is an object with a string time; otherwise a dated commit whose time is at least every dated commit's |
| Diff.FindDiffLastCommit | mirror/review/arcanist/diff.go:102-111 | fatal exactly when the commits have a bad time; otherwise an acceptable last commit, "" for malformed properties |
| Diff.ScenarioTimes | mirror/arcanist/diff_test.go:35-38 | the test's two times read as 12345 and 456789 |
| Diff.LastCommitScenario | mirror/arcanist/diff_test.go:30-47 | the test's diff has last commit "EFGHI" |
| Diff.MalformedScenario | mirror/arcanist/diff_test.go:48-71 | each of the four malformed diffs has last commit "" |
| Diff.BuildLocalCommits | mirror/review/arcanist/diff.go:218-241 | the new property is the gathered prior commits with the new revision's entry written last, or the first failure |
| Diff.GatherOne | mirror/review/arcanist/diff.go:219-237 | one pass of the prior-diff loop: an id that is not an integer or a failed query is an error, else the diff's commits are added |
| Diff.CopyEntries | mirror/review/arcanist/diff.go:234-236 | the inner loop copies every entry, a copied entry overwriting an existing one |
| Diff.PriorCommitsFailureSticks | mirror/review/arcanist/diff.go:218-240 | the first failing prior diff decides the outcome |
| Diff.PriorCommitsSucceeds | mirror/review/arcanist/diff.go:218-240 | gathering succeeds exactly when every prior diff id is an integer and its query succeeds, and it never stops the program |
| Diff.PriorCommitsUnfold | mirror/review/arcanist/diff.go:218-240 | one more prior diff adds its commits, fails, or keeps an earlier failure |
| Diff.PriorCommitsKeys | mirror/review/arcanist/diff.go:218-240 | the gathered commits are exactly those some prior diff contributes |
| Diff.PriorCommitsValues | mirror/review/arcanist/diff.go:234-236 | a commit holds the entry of the last prior diff that contributes it |
| Diff.LocalCommitsSpec | mirror/review/arcanist/diff.go:218-241 | the new property holds the revision's details under the revision, every other key exactly when a prior diff contributes it, with the last contributor's entry |
| Diff.NewDiffRequest | mirror/review/arcanist/diff.go:203-211 | the branch is the abbreviated review ref; the source is git at the merge base and repository path; lint and unit statuses are "5" |
| Database.ParseTransactionRow | mirror/review/arcanist/database.go:150-170 | definition: seven tab-separated columns, the date read as a uint32 and NULL as an absent value |
| Database.OwnComment | mirror/review/arcanist/database.go:250-318 | definition: the comment a transaction stands for, before approvals |
| Database.Step | mirror/review/arcanist/database.go:249-338 | definition: one transaction: approvals of the user's rejections on an accept, then the own comment when it says something |
| Database.Replay | mirror/review/arcanist/database.go:238-342 | definition: the steps over the transactions in order, stopping the program on a failed user lookup or comment read |
| Database.ReadTransactions | mirror/review/arcanist/database.go:141-172 | blank output gives no transactions; otherwise one transaction per line, the first line that does not parse being the error |
| Database.TransactionRowsFailureSticks | mirror/review/arcanist/database.go:149-156 | the first line that does not parse decides the outcome |
| Database.TransactionRowsSpec | mirror/review/arcanist/database.go:149-171 | the rows parse exactly when every line does, giving one transaction per line in order; parsing never stops the program |
| Database.TransactionRowRoundTrip | mirror/review/arcanist/database.go:150-170 | a printed row with seven tab-free columns parses back to its transaction, the id column being ignored |
| Database.ReadTransactionComment | mirror/review/arcanist/database.go:186-231 | anything but one line of four columns is an error; a NULL changeset gives no file or commit; a bad line number or changeset id is an error; an unreadable diff stops the program; otherwise the fields are the columns, the file name and the diff's last commit |
| Database.Approvals | mirror/review/arcanist/database.go:303-312 | one accepting reply per remembered rejection |
| Database.LoadComments | mirror/review/arcanist/database.go:238-342 | the comments are those of the replay of the transactions; a failed read or author lookup stops the program |
| Database.ApplyTransaction | mirror/review/arcanist/database.go:244-339 | one pass of the loop changes the comments, the comments by PHID and the rejections as the replay step does |
| Database.NewComment | mirror/review/arcanist/database.go:250-292 | the comment of a transaction before its action is looked at |
| Database.AppendApprovals | mirror/review/arcanist/database.go:303-312 | the inner loop appends the accepting replies in the order of the rejections |
| Database.ReplayFailureSticks | mirror/review/arcanist/database.go:244-262 | the first transaction whose author or comment cannot be read decides the outcome |
| Database.ReplayNeverErr | mirror/review/arcanist/database.go:238-342 | the replay either succeeds or stops the program |
| Database.OwnCommentSpec | mirror/review/arcanist/database.go:250-318 | the author is the e-mail address, else the user name; the timestamp is the decimal date and reads back as it; the description is the comment's content, empty without a comment; a location exactly when a file is named, with a range exactly when the line is not 0; the parent is the hash of the comment replied to exactly when that comment was emitted, and empty otherwise; resolved true or false exactly for an accept or reject action |
| Database.StepSpec | mirror/review/arcanist/database.go:303-337 | an accept emits one reply per earlier rejection of the user, in order, before its own comment; otherwise the comment is emitted only when it says something; rejection lists only grow, and only by an emitted rejection |
| Database.StepConsistent | mirror/review/arcanist/database.go:323-337 | one step keeps every filed comment emitted and every remembered hash the hash of an emitted rejection |
| Database.ReplayConsistent | mirror/review/arcanist/database.go:238-342 | the replay keeps every comment filed by transaction among the emitted ones, and every remembered rejection hash the hash of an emitted rejection |
| Database.StepApprovalsAnswerRejections | mirror/review/arcanist/database.go:298-337 | every accepting reply a transaction adds has as parent the hash of a rejection already emitted |
| Database.ReplayApprovalsAnswerRejections | mirror/review/arcanist/database.go:238-342 | in the replay, the accepting replies each transaction adds answer rejections emitted by earlier transactions |
| Database.ReplayAppends | mirror/review/arcanist/database.go:238-342 | the replay of a prefix succeeds, and its comments are a prefix of the whole replay's |
| Database.LoadCommentsScenario | mirror/review/arcanist/database_test.go:109-174 | the test's five transactions give exactly its eight comments, in order |
| Database.ScenarioReplay | mirror/review/arcanist/database_test.go:81-96 | the test's transactions replay to the expected final state |
| Database.ScenarioPrefix | mirror/review/arcanist/database_test.go:24-48 | each prefix of the test's transactions replays to the expected intermediate state |
| Database.ScenarioFirst | mirror/review/arcanist/database_test.go:109-174 | u1's reject at 1 is emitted and remembered |
| Database.ScenarioSecond | mirror/review/arcanist/database_test.go:109-174 | u1's accept at 2 answers that rejection, then is emitted |
| Database.ScenarioThird | mirror/review/arcanist/database_test.go:109-174 | u1's reject at 3 is emitted and remembered after the first |
| Database.ScenarioFourth | mirror/review/arcanist/database_test.go:109-174 | u2's reject at 4 is emitted and remembered for u2 alone |
| Database.ScenarioFifth | mirror/review/arcanist/database_test.go:109-174 | u1's accept at 5 answers both of u1's rejections, in order, then is emitted |
| Mirror.HasOverlap | mirror/mirror.go:37-46 | definition: the depth-first search of `hasOverlap` |
| Mirror.Next | mirror/mirror.go:53-63 | definition: the three maps after a pass |
| Mirror.Effects | mirror/mirror.go:48-89 | definition: the effects of a pass, in order |
| Mirror.HasOverlapSpec | mirror/mirror.go:37-46 | a comment has an overlap exactly when some comment at any depth of the forest overlaps it |
| Mirror.Mirrorer.constructor | mirror/mirror.go:33-35 | the three maps start empty |
| Mirror.Mirrorer.MirrorRepoToReview | mirror/mirror.go:48-89 | the maps after a pass and its effects are those of the pass's specification, the harvest using what each open review answers in this pass |
| Mirror.RecordAll | mirror/mirror.go:56-59 | the loop records each review's threads under its revision and requests each review, in order |
| Mirror.Harvest | mirror/mirror.go:64-83 | the loop asks each listed review for its first commit and comments and appends the new comments of every one with a known first commit |
| Mirror.HarvestReview | mirror/mirror.go:67-81 | the inner loop appends each comment that overlaps nothing recorded for the commit |
| Mirror.EnsureCallsSpec | mirror/mirror.go:56-59 | there is one request per review, in order |
| Mirror.RecordReviewsSpec | mirror/mirror.go:56-57 | a revision is recorded exactly when it was before or some review has it; the last review of a revision wins; other revisions keep their threads |
| Mirror.HarvestCommentsAppendOnly | mirror/mirror.go:69-81 | harvesting only appends notes, on the review's first commit |
| Mirror.HarvestCommentsSpec | mirror/mirror.go:69-81 | a note is appended exactly when it is the written form of a loaded comment that overlaps nothing recorded |
| Mirror.NewCommentSnoc | mirror/mirror.go:69-81 | one more comment adds its note exactly when it overlaps nothing recorded |
| Mirror.HarvestReviewsAppendOnly | mirror/mirror.go:64-83 | harvesting only appends notes, never on an unknown commit |
| Mirror.HarvestReviewsSpec | mirror/mirror.go:64-83 | a note is appended on a commit exactly when the commit is known and some listed review answers it as first commit and has a new comment with that note |
| Mirror.SecondPassOnlyHarvests | mirror/mirror.go:53-83 | after a pass the recorded state is the current one, so an immediate second pass changes no map and only pulls, harvests what the held reviews answer afresh, and pushes |
| Mirror.RequestsConcat | mirror/mirror_test.go:41-49 | the requests of two effect lists are those of the first, then the second |
| Mirror.RequestsOfEnsureCalls | mirror/mirror_test.go:41-49 | the requests made for the reviews are the reviews themselves |
| Mirror.RequestsOfAppends | mirror/mirror.go:64-83 | appending notes requests no review |
| Mirror.EffectsPhases | mirror/mirror.go:48-89 | a pass pulls, then (when stale) requests, lists and refreshes, then harvests from the updated maps, then pushes |
| Mirror.PassRequests | mirror/mirror_test.go:41-49 | a pass requests every review of the notes, in order, when the repository changed, and none otherwise |
| Mirror.PassListsAndRefreshes | mirror/mirror.go:53-63 | open reviews are listed and the tool refreshed exactly when the repository changed |
| Mirror.SyncOnlyWithRemote | mirror/mirror.go:49-51 | with a remote, the pass starts with a pull and ends with a push; without one, it does neither |
| Mirror.PassAppendsNewComments | mirror/mirror.go:64-83 | every pass, changed or not, appends exactly the new comments that the held open reviews answer in that pass, for those with a known first commit |
| Mirror.CommentArrivingLaterIsHarvested | mirror/mirror.go:53-83 | a comment that arrives on a listed review after the first pass is appended by the next pass over the unchanged repository |
| CI.LatestReport | mirror/review/ci/ci.go:11-29 | definition: Fatal on a bad time, the empty report for no reports, otherwise the report at the latest index |
| CI.LatestIndex | mirror/review/ci/ci.go:21-28 | the single pass picks a position inside the list |
| CI.LatestIndexSpec | mirror/review/ci/ci.go:21-28 | the pass finds the greatest time, later than every other time listed after it |
| CI.LatestInExtend | mirror/review/ci/ci.go:22 | a further report at least as late as the latest becomes the latest |
| CI.LatestReportSpec | mirror/review/ci/ci.go:11-29 | fatal exactly when some timestamp is not an integer; the empty report for no reports; otherwise the one latest report, the later one among equal times |
| CI.LatestIsUnique | mirror/review/ci/ci.go:22 | at most one report is the latest |
| CI.GetLatestCIReport | mirror/review/ci.go:11-29 | the loop and the descending sort give the reference choice |
| CI.IndexReports | mirror/review/ci.go:16-23 | every time is collected and maps to the last report with it; it fails exactly on a timestamp that is not an integer |
| GoStrings.ParseUint32 | mirror/review/arcanist/database.go:157-161 | definition: `strconv.ParseUint(s, 10, 32)`: digits only, within range |
| GoStrings.ParseInt64 | mirror/review/comment/comment.go:95-108 | definition: `strconv.ParseInt(s, 10, 64)`: an optional sign and digits, within range |
| GoStrings.FormatNat | mirror/review/arcanist/database.go:256 | every formatted number is a non-empty digit string |
| GoStrings.ZeroPad10 | mirror/review/comment/comment.go:95-108 | definition: `fmt.Sprintf("%010d", n)`, zero-filled after the sign |
| GoStrings.TrimSpaces | mirror/review/arcanist/database.go:143-146 | definition: `strings.Trim(s, " ")` |
| GoStrings.EscapeNewlines | mirror/review/comment.go:43-54 | definition: `strings.Replace(s, "\n", "\\n", -1)` |
| GoStrings.FormatNatRoundTrip | mirror/review/comment/comment.go:95-108 | reading back the decimal form of a number gives the number |
| GoStrings.LeadingZerosValue | mirror/review/comment/comment.go:95-108 | leading zeros do not change a digit string's value |
| GoStrings.DecimalValueBound | mirror/review/comment/comment.go:95-108 | a digit string of length k denotes a number below 10^k |
| GoStrings.FormatNatLength | mirror/review/comment/comment.go:95-108 | a number below 10^k has at most k digits |
| GoStrings.ParseUint32Format | mirror/review/arcanist/database.go:157-161 | reading back the decimal form of a uint32 gives it back |
| GoStrings.PaddedValue | mirror/review/comment/comment.go:95-108 | zero-padding a decimal form keeps its value |
| GoStrings.ParseInt64ZeroPad10 | mirror/review/comment/comment.go:95-108 | Atoi reads back what "%010d" wrote, sign included |
| GoStrings.Split | mirror/review/arcanist/database.go:149-150 | a split has at least one piece |
| GoStrings.SplitJoin | mirror/review/arcanist/database.go:149-150 | joining a split with its separator gives the string back |
| GoStrings.JoinSplit | mirror/review/arcanist/database.go:150-151 | splitting what was joined gives back the separator-free pieces |
| GoStrings.SplitPiecesLackSeparator | mirror/review/arcanist/database.go:149-151 | no piece of a split holds the separator |
| GoStrings.EscapeNewlinesProperties | mirror/review/comment.go:43-54 | the escaped form holds no newline, and a string without newlines is its own escape |
| GoStrings.TrimSpacesEmpty | mirror/review/arcanist/database.go:143-146 | trimming leaves nothing exactly when the output is all spaces |
| GoStrings.GreatestOf | mirror/review/arcanist/diff.go:97-98 | the head of a descending sort: a listed value no smaller than any other |

## Left out

- Running `arc` and `mysql`, with their goroutine-based timeouts, is not modelled: `runArcCommandOrDie`, `runSqlCommandOrDie` and `runRawSqlCommandOrDie`. Their decoded answers are inputs.
- `mirror/repository/git.go` and the repository interface are not modelled. The merge base, commit details, state hash and notes are inputs.
- SHA-1 and JSON encoding and decoding are left abstract, as function parameters: `digest`, `encode` and `parse`. So the hash is any function of the canonical record.
- Go strings are modelled as character sequences rather than bytes, so the 256-byte title limit counts characters.
- `sort.Ints` and `sort.Sort(sort.Reverse(...))` followed by taking the first element are modelled as a scan for the least or greatest element. The result is the same; the sorted slice itself is not kept.
- `readDiff`, `getDiffChanges`, `setDiffProperty`, `close` and the network calls that send the requests are not modelled. `close` appears only as the list of review ids to close.
- `mirrorCommentsIntoReview` and `findCommitForDiff` are not modelled as a whole, because they only chain those network calls. The request building they call (`buildCommentRequests`) is modelled, and so is the last-commit search.
- The CI report step of `mirrorCommentsIntoReview` is not modelled (the `differential.updateunitresults` call).
- `createDifferentialDiff` and `createDifferentialRevision` are modelled by the requests and properties they build, and in `Arcanist.EnsureRequestExists` and `Arcanist.UpdateReviewDiffs` by their outcomes (created, refused or failed); the calls themselves are not.
- The git-appraise code used by the mirror is not part of this model: `ci.ParseAllValid`, `review.ListAll`, `CommentThread`, `PullNotes`, `PushNotes` and the comment parser. Its results are inputs.
  - The reports given to `CI.GetLatestCIReport` are the ones already parsed as valid.
  - A review's threads are given as a forest of (hash, comment) trees.
- `time.Now()` is a parameter: `now` for the freshness test and `storeTime` for the time stored.
- A failed push is only logged, so the push appears as an effect whose outcome is not looked at.
- `Mirror.Mirrorer.MirrorRepoToReview` does not call the tool. The listing gives the ids of the open reviews, and each pass is given, as the function `answer`, what every open review answers when that pass asks for its first commit and its comments.
- The `Repo` wrapper in `mirror/mirror.go`, which only picks the `arc` tool, is not modelled.
- The command-line program in `git-phabricator-mirror/git-phabricator-mirror.go` is not modelled: flags, the directory walk and the ticker loop.
- Error messages are simplified. A Go error keeps only the fact that it happened, plus a short text; for example `strconv` errors become "invalid syntax".
- `lookupUser` returning no user where `LoadComments` dereferences it, and a missing diff in `readDatabaseTransactionComment`, both end the program in Go with a nil-pointer panic. Both are modelled as `Fatal`.
- The `generateUnitDiffProperty` and `generateLintDiffProperty` functions, which the arcanist tests call, are defined in a file of the arcanist package outside this model and are not modelled.
