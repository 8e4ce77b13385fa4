/**
 * The mirror's own copy of the overlap rules, over git-appraise's comment
 * record, and the comment map filled from comment threads
 * (mirror/review/comment.go). The record has the same shape as the one of
 * the comment package, so both copies are stated over NotesComment.Comment
 * and shown to agree.
 */
module ReviewComment {
  import opened Wrappers
  import opened GoStrings
  import N = NotesComment

  /** git-appraise's comment record, field for field the comment package's. */
  type Comment = N.Comment
  type Location = N.Location

  // ---------------------------------------------------------------------------
  // The overlap rules, as this file writes them

  /** The quote of this file; `CopiesAgree` shows it is the other file's. */
  function QuoteDescription(c: Comment): string
  {
    c.author + ":\n\n" + c.description
  }

  predicate IsQuote(c: Comment, other: Comment)
  {
    if c.description == QuoteDescription(other) then true
    else if c.description == EscapeNewlines(QuoteDescription(other)) then true
    else EscapeNewlines(c.description) == QuoteDescription(other)
  }

  predicate DescriptionOverlaps(c: Comment, other: Comment)
  {
    if c.description == other.description then true
    else if IsQuote(c, other) then true
    else IsQuote(other, c)
  }

  predicate LocationOverlaps(l: Location, other: Location)
  {
    if l.commit != other.commit then false
    else if l.path != other.path then false
    else if l.range.None? && other.range.None? then true
    else if l.range.None? || other.range.None? then false
    else l.range.value.startLine == other.range.value.startLine
  }

  predicate Overlaps(c: Comment, other: Comment)
  {
    if !DescriptionOverlaps(c, other) then false
    else if (c.resolved.Some? && other.resolved.None?) || (c.resolved.None? && other.resolved.Some?) then false
    else if c.resolved.Some? && other.resolved.Some?
      && (c.resolved.value != other.resolved.value || c.timestamp != other.timestamp) then false
    else if c.location.None? && other.location.None? then true
    else if c.location.None? || other.location.None? then false
    else if LocationOverlaps(c.location.value, other.location.value) then true
    else false
  }

  /** The two copies of the overlap rules decide every question alike. */
  lemma CopiesAgree(a: Comment, b: Comment)
    ensures QuoteDescription(a) == N.QuoteDescription(a)
    ensures IsQuote(a, b) == N.IsQuote(a, b)
    ensures DescriptionOverlaps(a, b) == N.DescriptionOverlaps(a, b)
    ensures a.location.Some? && b.location.Some? ==>
      LocationOverlaps(a.location.value, b.location.value) == N.LocationOverlaps(a.location.value, b.location.value)
    ensures Overlaps(a, b) == N.Overlaps(a, b)
  {
  }

  /** This copy is symmetric and tolerates a quote in both argument orders. */
  lemma OverlapsSymmetricQuoteTolerant(c: Comment, q: Comment)
    ensures Overlaps(c, q) == Overlaps(q, c)
    ensures (q.description == QuoteDescription(c) && q.location == c.location
             && c.resolved.None? && q.resolved.None?) ==> Overlaps(c, q) && Overlaps(q, c)
  {
    CopiesAgree(c, q);
    CopiesAgree(q, c);
    N.OverlapsSymmetric(c, q);
    if q.description == QuoteDescription(c) && q.location == c.location && c.resolved.None? && q.resolved.None? {
      N.QuoteOverlaps(c, q);
    }
  }

  /**
   * In this copy too the last test of `isQuote` never holds, so a
   * description quotes exactly when it is the quote, plain or with its
   * newlines written as the two characters `\n`.
   */
  lemma IsQuoteExactly(c: Comment, other: Comment)
    ensures EscapeNewlines(c.description) != QuoteDescription(other)
    ensures IsQuote(c, other) <==>
      c.description == QuoteDescription(other) || c.description == EscapeNewlines(QuoteDescription(other))
  {
    CopiesAgree(c, other);
    N.IsQuoteExactly(c, other);
  }

  /** Kept by the filter: no excluded comment overlaps `c` (this copy's rules). */
  predicate Excluded(c: Comment, exclude: seq<Comment>)
  {
    exists e | e in exclude :: Overlaps(e, c)
  }

  // ---------------------------------------------------------------------------
  // Threads

  /** A comment, the hash it is stored under, and the replies to it. */
  datatype Thread = Thread(hash: string, comment: Comment, children: seq<Thread>)

  /** The (hash, comment) pairs of a thread, in pre-order: the comment, then its replies. */
  function FlattenThread(t: Thread): (pairs: seq<(string, Comment)>)
    ensures pairs != [] && pairs[0] == (t.hash, t.comment)
    decreases t
  {
    [(t.hash, t.comment)] + FlattenAll(t.children)
  }

  /** The pairs of a forest of threads, thread after thread. */
  function FlattenAll(ts: seq<Thread>): (pairs: seq<(string, Comment)>)
    ensures |pairs| >= |ts|
    decreases ts
  {
    if ts == [] then [] else FlattenThread(ts[0]) + FlattenAll(ts[1..])
  }

  /** The map `FilterOverlapping` builds from a forest. */
  function Collect(threads: seq<Thread>): map<string, Comment>
  {
    N.StoreAll(map[], FlattenAll(threads))
  }

  lemma {:induction false} FlattenAllSnoc(ts: seq<Thread>, t: Thread)
    ensures FlattenAll(ts + [t]) == FlattenAll(ts) + FlattenThread(t)
  {
    if ts == [] {
      assert [] + [t] == [t];
      assert [t][1..] == [];
    } else {
      assert (ts + [t])[0] == ts[0];
      assert (ts + [t])[1..] == ts[1..] + [t];
      FlattenAllSnoc(ts[1..], t);
    }
  }

  /** Hash h and comment c label some thread of the forest, at any depth. */
  predicate InForest(ts: seq<Thread>, h: string, c: Comment)
    decreases ts
  {
    exists i | 0 <= i < |ts| :: (ts[i].hash == h && ts[i].comment == c) || InForest(ts[i].children, h, c)
  }

  /** Some thread of the forest, at any depth, carries hash h. */
  ghost predicate HashInForest(ts: seq<Thread>, h: string)
  {
    exists c :: InForest(ts, h, c)
  }

  lemma InForestCons(ts: seq<Thread>, h: string, c: Comment)
    requires ts != []
    ensures InForest(ts, h, c) <==>
      (ts[0].hash == h && ts[0].comment == c) || InForest(ts[0].children, h, c) || InForest(ts[1..], h, c)
  {
    if InForest(ts, h, c) {
      var i :| 0 <= i < |ts| && ((ts[i].hash == h && ts[i].comment == c) || InForest(ts[i].children, h, c));
      if i > 0 {
        assert ts[1..][i - 1] == ts[i];
      }
    }
    if InForest(ts[1..], h, c) {
      var i :| 0 <= i < |ts[1..]| && ((ts[1..][i].hash == h && ts[1..][i].comment == c) || InForest(ts[1..][i].children, h, c));
      assert ts[i + 1] == ts[1..][i];
    }
  }

  /** Flattening lists exactly the labels found at any depth of the forest. */
  lemma {:induction false} FlattenAllMembership(ts: seq<Thread>, h: string, c: Comment)
    ensures (h, c) in FlattenAll(ts) <==> InForest(ts, h, c)
    decreases ts
  {
    if ts != [] {
      InForestCons(ts, h, c);
      FlattenAllMembership(ts[0].children, h, c);
      FlattenAllMembership(ts[1..], h, c);
      assert FlattenAll(ts) == [(ts[0].hash, ts[0].comment)] + FlattenAll(ts[0].children) + FlattenAll(ts[1..]);
    }
  }

  /**
   * `CommentMap`: the comments of a review indexed by hash, filled in place
   * by `AddThreads`.
   */
  class CommentMap {
    var entries: map<string, Comment>

    constructor()
      ensures entries == map[]
    {
      entries := map[];
    }

    /**
     * Stores every comment of the forest under its thread's hash, walking
     * each thread before its replies and the threads in order.
     */
    method AddThreads(threads: seq<Thread>)
      modifies this
      ensures entries == N.StoreAll(old(entries), FlattenAll(threads))
      decreases threads
    {
      for i := 0 to |threads|
        invariant entries == N.StoreAll(old(entries), FlattenAll(threads[..i]))
      {
        FlattenAllSnoc(threads[..i], threads[i]);
        assert threads[..i + 1] == threads[..i] + [threads[i]];
        N.StoreAllAppend(old(entries), FlattenAll(threads[..i]), FlattenThread(threads[i]));
        N.StoreAllAppend(old(entries), FlattenAll(threads[..i]) + [(threads[i].hash, threads[i].comment)],
                       FlattenAll(threads[i].children));
        N.StoreAllAppend(old(entries), FlattenAll(threads[..i]), [(threads[i].hash, threads[i].comment)]);
        assert FlattenThread(threads[i]) == [(threads[i].hash, threads[i].comment)] + FlattenAll(threads[i].children);
        assert FlattenAll(threads[..i]) + FlattenThread(threads[i])
            == (FlattenAll(threads[..i]) + [(threads[i].hash, threads[i].comment)]) + FlattenAll(threads[i].children);
        entries := entries[threads[i].hash := threads[i].comment];
        AddThreads(threads[i].children);
      }
      assert threads[..|threads|] == threads;
    }

    /** The stored comments that no excluded comment overlaps (in map order). */
    method FilterOverlapping(exclude: seq<Comment>) returns (filtered: seq<Comment>, ghost keys: seq<string>)
      ensures |keys| == |filtered|
      ensures forall i | 0 <= i < |keys| :: keys[i] in entries && filtered[i] == entries[keys[i]]
      ensures forall i, j | 0 <= i < j < |keys| :: keys[i] != keys[j]
      ensures forall k | k in entries :: k in keys <==> !Excluded(entries[k], exclude)
      ensures forall c | c in filtered :: c in entries.Values && !Excluded(c, exclude)
      ensures forall k | k in entries && !Excluded(entries[k], exclude) :: entries[k] in filtered
    {
      filtered, keys := [], [];
      var remaining := entries.Keys;
      while remaining != {}
        invariant remaining <= entries.Keys
        invariant |keys| == |filtered|
        invariant forall i | 0 <= i < |keys| :: keys[i] in entries && keys[i] !in remaining && filtered[i] == entries[keys[i]]
        invariant forall i, j | 0 <= i < j < |keys| :: keys[i] != keys[j]
        invariant forall k | k in entries && k !in remaining :: k in keys <==> !Excluded(entries[k], exclude)
        decreases remaining
      {
        var k :| k in remaining;
        var c := entries[k];
        var passed := true;
        for j := 0 to |exclude|
          invariant passed <==> forall e | e in exclude[..j] :: !Overlaps(e, c)
        {
          assert exclude[..j + 1] == exclude[..j] + [exclude[j]];
          if Overlaps(exclude[j], c) {
            passed := false;
          }
        }
        assert exclude[..|exclude|] == exclude;
        if passed {
          filtered := filtered + [c];
          keys := keys + [k];
        }
        remaining := remaining - {k};
      }
    }
  }

  /**
   * The top-level `FilterOverlapping`: the comments of a forest of threads,
   * one per hash, that no excluded comment overlaps.
   */
  method FilterOverlapping(threads: seq<Thread>, exclude: seq<Comment>)
    returns (filtered: seq<Comment>, ghost keys: seq<string>)
    ensures |keys| == |filtered|
    ensures forall i | 0 <= i < |keys| :: keys[i] in Collect(threads) && filtered[i] == Collect(threads)[keys[i]]
    ensures forall i, j | 0 <= i < j < |keys| :: keys[i] != keys[j]
    ensures forall k | k in Collect(threads) :: k in keys <==> !Excluded(Collect(threads)[k], exclude)
    ensures forall c | c in filtered :: c in Collect(threads).Values && !Excluded(c, exclude)
    ensures forall h | h in Collect(threads) && !Excluded(Collect(threads)[h], exclude) :: Collect(threads)[h] in filtered
  {
    var comments := new CommentMap();
    comments.AddThreads(threads);
    filtered, keys := comments.FilterOverlapping(exclude);
  }

  /**
   * What `AddThreads` does to a map: it gains exactly the hashes of the
   * forest; each hash holds the comment of the last thread (in pre-order)
   * carrying it; keys the forest does not carry are unchanged.
   */
  lemma AddThreadsSpec(m: map<string, Comment>, threads: seq<Thread>)
    ensures N.StoreAll(m, FlattenAll(threads)).Keys == m.Keys + set p | p in FlattenAll(threads) :: p.0
    ensures forall i | 0 <= i < |FlattenAll(threads)| && N.LastWithHash(FlattenAll(threads), i) ::
      N.StoreAll(m, FlattenAll(threads))[FlattenAll(threads)[i].0] == FlattenAll(threads)[i].1
    ensures forall k | k in m && !HashInForest(threads, k) ::
      k in N.StoreAll(m, FlattenAll(threads)) && N.StoreAll(m, FlattenAll(threads))[k] == m[k]
  {
    var pairs := FlattenAll(threads);
    N.StoreAllKeys(m, pairs);
    forall i | 0 <= i < |pairs| && N.LastWithHash(pairs, i)
      ensures N.StoreAll(m, pairs)[pairs[i].0] == pairs[i].1
    {
      N.StoreAllLast(m, pairs, i);
    }
    forall k | k in m && !HashInForest(threads, k)
      ensures k in N.StoreAll(m, pairs) && N.StoreAll(m, pairs)[k] == m[k]
    {
      AddThreadsUntouched(m, threads, k);
    }
  }

  lemma AddThreadsUntouched(m: map<string, Comment>, threads: seq<Thread>, k: string)
    requires k in m && !HashInForest(threads, k)
    ensures k in N.StoreAll(m, FlattenAll(threads)) && N.StoreAll(m, FlattenAll(threads))[k] == m[k]
  {
    var pairs := FlattenAll(threads);
    forall j | 0 <= j < |pairs| ensures pairs[j].0 != k {
      FlattenAllMembership(threads, pairs[j].0, pairs[j].1);
    }
    N.StoreAllUntouched(m, pairs, k);
  }

  /**
   * When no two threads of the forest share a hash, every comment at every
   * depth is in the collected map under its thread's hash.
   */
  lemma CollectDistinctHashes(threads: seq<Thread>)
    requires forall i, j | 0 <= i < j < |FlattenAll(threads)| :: FlattenAll(threads)[i].0 != FlattenAll(threads)[j].0
    ensures forall h, c | InForest(threads, h, c) :: h in Collect(threads) && Collect(threads)[h] == c
  {
    var pairs := FlattenAll(threads);
    forall h, c | InForest(threads, h, c) ensures h in Collect(threads) && Collect(threads)[h] == c {
      FlattenAllMembership(threads, h, c);
      var i :| 0 <= i < |pairs| && pairs[i] == (h, c);
      assert N.LastWithHash(pairs, i);
      N.StoreAllLast(map[], pairs, i);
    }
  }

  /**
   * The overlap scenario: with the same author and blank descriptions, a
   * rejection and an acceptance at the same time do not overlap; two
   * rejections at the same time do; two rejections, or a rejection and an
   * acceptance, at different times do not; a rejection and a comment
   * without a resolved bit do not; two comments without resolved bits do.
   */
  lemma ResolvedScenario()
    ensures var reject := N.Comment("012345", "bar@foo.com", "", None, "", Some(false));
      && !Overlaps(reject, reject.(resolved := Some(true)))
      && Overlaps(reject, reject)
      && !Overlaps(reject, reject.(timestamp := "56789"))
      && !Overlaps(reject, reject.(timestamp := "56789", resolved := Some(true)))
      && !Overlaps(reject, reject.(resolved := None))
      && Overlaps(reject.(resolved := None), reject.(resolved := None))
  {
    assert "012345" != "56789" by { assert |"012345"| != |"56789"|; }
  }

  /** The three comments of the threaded scenario, collected by hash. */
  lemma ScenarioCollect(h1: string, h2: string, h3: string)
    ensures Collect([Thread(h1, N.OriginalComment, [Thread(h2, N.QuotedComment, [Thread(h3, N.ReplyComment, [])])])])
         == map[h1 := N.OriginalComment, h2 := N.QuotedComment, h3 := N.ReplyComment]
  {
    var threads := [Thread(h1, N.OriginalComment, [Thread(h2, N.QuotedComment, [Thread(h3, N.ReplyComment, [])])])];
    var t3 := Thread(h3, N.ReplyComment, []);
    var t2 := Thread(h2, N.QuotedComment, [t3]);
    assert FlattenAll([t3]) == [(h3, N.ReplyComment)] by {
      assert FlattenThread(t3) == [(h3, N.ReplyComment)];
    }
    assert FlattenAll([t2]) == [(h2, N.QuotedComment), (h3, N.ReplyComment)] by {
      assert FlattenThread(t2) == [(h2, N.QuotedComment), (h3, N.ReplyComment)];
    }
    var pairs := [(h1, N.OriginalComment), (h2, N.QuotedComment), (h3, N.ReplyComment)];
    assert FlattenAll(threads) == pairs by {
      assert FlattenThread(threads[0]) == pairs;
    }
    assert N.StoreAll(map[], pairs) == map[h1 := N.OriginalComment, h2 := N.QuotedComment, h3 := N.ReplyComment] by {
      assert pairs[1..] == [(h2, N.QuotedComment), (h3, N.ReplyComment)];
      assert pairs[1..][1..] == [(h3, N.ReplyComment)];
      assert N.StoreAll(map[], pairs) == N.StoreAll(map[h1 := N.OriginalComment], pairs[1..]);
      assert N.StoreAll(map[h1 := N.OriginalComment], pairs[1..])
          == N.StoreAll(map[h1 := N.OriginalComment, h2 := N.QuotedComment], pairs[1..][1..]);
      assert N.StoreAll(map[h1 := N.OriginalComment, h2 := N.QuotedComment], pairs[1..][1..])
          == N.StoreAll(map[h1 := N.OriginalComment, h2 := N.QuotedComment, h3 := N.ReplyComment], []);
    }
  }

  /**
   * The filtering scenario with the comments arriving as threads: the
   * original, its quote as a reply, and a reply to the quote. Filtering
   * against the original leaves only the last reply.
   */
  method ThreadFilterScenario(h1: string, h2: string, h3: string) returns (filtered: seq<Comment>)
    requires h1 != h2 && h1 != h3 && h2 != h3
    ensures filtered == [N.ReplyComment]
  {
    var threads := [Thread(h1, N.OriginalComment, [Thread(h2, N.QuotedComment, [Thread(h3, N.ReplyComment, [])])])];
    ScenarioCollect(h1, h2, h3);
    N.FilterScenarioExclusions();
    CopiesAgree(N.OriginalComment, N.OriginalComment);
    CopiesAgree(N.OriginalComment, N.QuotedComment);
    CopiesAgree(N.OriginalComment, N.ReplyComment);
    ghost var keys;
    filtered, keys := FilterOverlapping(threads, [N.OriginalComment]);
    N.SingleSurvivor(Collect(threads), keys, h3);
  }
}
