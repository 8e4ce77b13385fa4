/**
 * The review comment stored in git notes (mirror/review/comment/comment.go):
 * the record, its canonical form and hash, the fuzzy "overlap" relation used
 * to recognise the same comment on both sides of the mirror, and the two
 * loops that build and filter comment maps.
 */
module NotesComment {
  import opened Wrappers
  import opened GoStrings

  /** A line range; only its first line is recorded. */
  datatype Range = Range(startLine: uint32)

  /**
   * Where a comment is anchored: a whole commit (empty path), a whole file
   * (no range) or a single line.
   */
  datatype Location = Location(commit: string, path: string, range: Option<Range>)

  /**
   * A review comment. `resolved` is the tri-state bit: None is an FYI,
   * Some(true) an acceptance, Some(false) a rejection. `parent` is the hash
   * of the comment replied to, or "" for a top-level comment.
   */
  datatype Comment = Comment(
    timestamp: string,
    author: string,
    parent: string,
    location: Option<Location>,
    description: string,
    resolved: Option<bool>)

  /** The bytes of a git note. */
  type Note = string

  // ---------------------------------------------------------------------------
  // Quoting and overlap

  /** The description a bot posts when it re-posts `c` on behalf of its author. */
  function QuoteDescription(c: Comment): (q: string)
    ensures |q| == |c.author| + 3 + |c.description|
    ensures q[..|c.author|] == c.author
    ensures q[|c.author|..|c.author| + 3] == ":\n\n"
    ensures q[|c.author| + 3..] == c.description
  {
    c.author + ":\n\n" + c.description
  }

  /**
   * `c` quotes `other`, by the three tests of `isQuote`: its description is
   * the quote of `other`, or that quote with its newlines written as the two
   * characters `\n`, or its own description so escaped is the quote.
   */
  predicate IsQuote(c: Comment, other: Comment)
  {
    || c.description == QuoteDescription(other)
    || c.description == EscapeNewlines(QuoteDescription(other))
    || EscapeNewlines(c.description) == QuoteDescription(other)
  }

  /**
   * The third test of `isQuote` never holds: a quote always holds a
   * newline, and an escaped description never does. So a description quotes
   * exactly when it is the quote, plain or with its newlines escaped.
   */
  lemma IsQuoteExactly(c: Comment, other: Comment)
    ensures EscapeNewlines(c.description) != QuoteDescription(other)
    ensures IsQuote(c, other) <==>
      c.description == QuoteDescription(other) || c.description == EscapeNewlines(QuoteDescription(other))
  {
    EscapeNewlinesProperties(c.description);
    assert QuoteDescription(other)[|other.author| + 1] == '\n';
  }

  predicate DescriptionOverlaps(c: Comment, other: Comment)
  {
    || c.description == other.description
    || IsQuote(c, other)
    || IsQuote(other, c)
  }

  /** `CommentLocation.Overlaps`: same commit, same path, same first line or both whole-file. */
  predicate LocationOverlaps(l: Location, other: Location)
  {
    if l.commit != other.commit then false
    else if l.path != other.path then false
    else if l.range.None? && other.range.None? then true
    else if l.range.None? || other.range.None? then false
    else l.range.value.startLine == other.range.value.startLine
  }

  /** `Comment.Overlaps`, branch for branch. */
  predicate Overlaps(c: Comment, other: Comment)
  {
    if !DescriptionOverlaps(c, other) then false
    else if (c.resolved.Some? && other.resolved.None?) || (c.resolved.None? && other.resolved.Some?) then false
    else if c.resolved.Some? && other.resolved.Some?
      && (c.resolved.value != other.resolved.value || c.timestamp != other.timestamp) then false
    else if c.location.None? && other.location.None? then true
    else if c.location.None? || other.location.None? then false
    else LocationOverlaps(c.location.value, other.location.value)
  }

  /** Overlap does not depend on the order of its arguments. */
  lemma OverlapsSymmetric(a: Comment, b: Comment)
    ensures Overlaps(a, b) == Overlaps(b, a)
  {
  }

  /** Every comment overlaps itself. */
  lemma OverlapsReflexive(c: Comment)
    ensures Overlaps(c, c)
  {
  }

  /**
   * A re-post whose description quotes the original overlaps it in both
   * orders, whatever its author and timestamp, when both share the location
   * and neither carries a resolved bit.
   */
  lemma QuoteOverlaps(c: Comment, q: Comment)
    requires q.description == QuoteDescription(c)
    requires q.location == c.location
    requires c.resolved.None? && q.resolved.None?
    ensures Overlaps(c, q) && Overlaps(q, c)
  {
    assert IsQuote(q, c);
  }

  /**
   * The resolved rule: a comment with a resolved bit never overlaps one
   * without; two with resolved bits overlap only with equal bits and equal
   * timestamps.
   */
  lemma ResolvedRule(a: Comment, b: Comment)
    ensures a.resolved.Some? != b.resolved.Some? ==> !Overlaps(a, b)
    ensures a.resolved.Some? && b.resolved.Some? && Overlaps(a, b) ==>
      a.resolved == b.resolved && a.timestamp == b.timestamp
  {
  }

  /**
   * The location rule: a located comment never overlaps an unlocated one;
   * located comments overlap only on the same commit and path, and a
   * whole-file location never matches a line location.
   */
  lemma LocationRule(a: Comment, b: Comment)
    ensures a.location.Some? != b.location.Some? ==> !Overlaps(a, b)
    ensures a.location.Some? && b.location.Some? && Overlaps(a, b) ==>
      && a.location.value.commit == b.location.value.commit
      && a.location.value.path == b.location.value.path
      && a.location.value.range.Some? == b.location.value.range.Some?
      && (a.location.value.range.Some? ==>
            a.location.value.range.value.startLine == b.location.value.range.value.startLine)
  {
  }

  /**
   * The converse: overlapping descriptions, compatible resolved bits and
   * matching locations are enough for an overlap.
   */
  lemma OverlapsWhenAllAgree(a: Comment, b: Comment)
    requires DescriptionOverlaps(a, b)
    requires a.resolved == b.resolved
    requires a.resolved.Some? ==> a.timestamp == b.timestamp
    requires a.location == b.location
    ensures Overlaps(a, b)
  {
    if a.location.Some? {
      assert LocationOverlaps(a.location.value, a.location.value);
    }
  }

  /** Comments without overlapping descriptions never overlap. */
  lemma DescriptionRequired(a: Comment, b: Comment)
    ensures !DescriptionOverlaps(a, b) ==> !Overlaps(a, b)
  {
  }

  // ---------------------------------------------------------------------------
  // Canonical form and hash

  /**
   * The timestamp as `serialize` writes it: a string shorter than ten
   * characters that parses as an int64 is rewritten with "%010d"; any
   * other string is kept as it is.
   */
  function NormaliseTimestamp(ts: string): string
  {
    if |ts| < 10 then
      match ParseInt64(ts)
      case Some(n) => ZeroPad10(n)
      case None => ts
    else ts
  }

  /** The record `serialize` marshals: the comment with its timestamp normalised. */
  function Canonical(c: Comment): Comment
  {
    c.(timestamp := NormaliseTimestamp(c.timestamp))
  }

  /**
   * `Comment.Hash`. `digest` stands for SHA-1 over the JSON encoding of a
   * record; both are left abstract, so the hash is any function of the
   * canonical record.
   */
  function Hash(digest: Comment -> string, c: Comment): string
  {
    digest(Canonical(c))
  }

  /** The digits of a short numeric timestamp: at most nine of them. */
  lemma ShortNumberBound(ts: string, n: int)
    requires |ts| < 10 && ParseInt64(ts) == Some(n)
    ensures -(Pow10(9) as int) < n < Pow10(9)
  {
    var digits := if ts[0] == '-' || ts[0] == '+' then ts[1..] else ts;
    DecimalValueBound(digits);
    PowMonotone(|digits|, 9);
  }

  lemma {:induction false} PowMonotone(i: nat, j: nat)
    requires i <= j
    ensures Pow10(i) <= Pow10(j)
  {
    if i < j {
      PowMonotone(i, j - 1);
    }
  }

  /**
   * A short numeric timestamp becomes exactly ten characters denoting the
   * same number; any other timestamp is left untouched.
   */
  lemma NormaliseTimestampSpec(ts: string)
    ensures |ts| < 10 && ParseInt64(ts).Some? ==>
      |NormaliseTimestamp(ts)| == 10 && ParseInt64(NormaliseTimestamp(ts)) == ParseInt64(ts)
    ensures |ts| >= 10 || ParseInt64(ts).None? ==> NormaliseTimestamp(ts) == ts
  {
    if |ts| < 10 && ParseInt64(ts).Some? {
      var n := ParseInt64(ts).value;
      ShortNumberBound(ts, n);
      ParseInt64ZeroPad10(n);
      if n < 0 {
        FormatNatLength(-n, 9);
      } else {
        FormatNatLength(n, 9);
        assert Pow10(9) <= Pow10(10) by { PowMonotone(9, 10); }
      }
    }
  }

  /** Normalising twice is normalising once. */
  lemma NormaliseTimestampIdempotent(ts: string)
    ensures NormaliseTimestamp(NormaliseTimestamp(ts)) == NormaliseTimestamp(ts)
  {
    NormaliseTimestampSpec(ts);
  }

  /** Hashing the canonical record gives the same hash as hashing the comment. */
  lemma HashOfCanonical(digest: Comment -> string, c: Comment)
    ensures Hash(digest, Canonical(c)) == Hash(digest, c)
  {
    NormaliseTimestampIdempotent(c.timestamp);
  }

  /** `Comment.Write`: the note holding the encoding of the canonical record; `encode` stands for JSON encoding. */
  function Write(encode: Comment -> Note, c: Comment): Note
  {
    encode(Canonical(c))
  }

  /**
   * With a decoder that reads back what the encoder wrote, a written note
   * parses as the canonical record, and that record hashes like the comment
   * itself: a note the mirror writes is found again under the comment's hash.
   */
  lemma WriteParseHash(encode: Comment -> Note, parse: Note -> Option<Comment>, digest: Comment -> string, c: Comment)
    requires forall x :: parse(encode(x)) == Some(x)
    ensures parse(Write(encode, c)) == Some(Canonical(c))
    ensures Hash(digest, parse(Write(encode, c)).value) == Hash(digest, c)
  {
    HashOfCanonical(digest, c);
  }

  /** Short numeric timestamps denoting the same number give the same hash. */
  lemma SameNumberSameHash(digest: Comment -> string, c: Comment, t1: string, t2: string)
    requires |t1| < 10 && |t2| < 10
    requires ParseInt64(t1).Some? && ParseInt64(t1) == ParseInt64(t2)
    ensures Hash(digest, c.(timestamp := t1)) == Hash(digest, c.(timestamp := t2))
  {
  }

  /** "1234" and "01234" serialise, and therefore hash, the same way. */
  lemma PaddedTimestampsHashAlike(digest: Comment -> string, c: Comment)
    ensures Hash(digest, c.(timestamp := "1234")) == Hash(digest, c.(timestamp := "01234"))
  {
    assert AllDigits("1234") by {
      assert forall i | 0 <= i < 4 :: "1234"[i] in "1234";
    }
    LeadingZerosValue(1, "1234");
    assert Zeros(1) + "1234" == "01234" by {
      assert Zeros(1) == Zeros(0) + "0";
    }
    DecimalValueBound("1234");
    assert Pow10(4) == 10000;
    ParseInt64Digits("1234");
    ParseInt64Digits("01234");
    SameNumberSameHash(digest, c, "1234", "01234");
  }

  // ---------------------------------------------------------------------------
  // Comment maps

  /** Store each pair in turn, a later pair replacing an earlier one with the same hash. */
  function StoreAll(m: map<string, Comment>, pairs: seq<(string, Comment)>): map<string, Comment>
    decreases |pairs|
  {
    if pairs == [] then m else StoreAll(m[pairs[0].0 := pairs[0].1], pairs[1..])
  }

  lemma {:induction false} StoreAllAppend(m: map<string, Comment>, a: seq<(string, Comment)>, b: seq<(string, Comment)>)
    ensures StoreAll(m, a + b) == StoreAll(StoreAll(m, a), b)
    decreases |a|
  {
    if a != [] {
      assert (a + b)[0] == a[0];
      assert (a + b)[1..] == a[1..] + b;
      StoreAllAppend(m[a[0].0 := a[0].1], a[1..], b);
    } else {
      assert a + b == b;
    }
  }

  /** Pair i is the last pair with its hash. */
  predicate LastWithHash(pairs: seq<(string, Comment)>, i: int)
    requires 0 <= i < |pairs|
  {
    forall j | i < j < |pairs| :: pairs[j].0 != pairs[i].0
  }

  /** Storing pairs adds exactly their hashes to the keys. */
  lemma {:induction false} StoreAllKeys(m: map<string, Comment>, pairs: seq<(string, Comment)>)
    ensures StoreAll(m, pairs).Keys == m.Keys + set p | p in pairs :: p.0
    decreases |pairs|
  {
    if pairs != [] {
      StoreAllKeys(m[pairs[0].0 := pairs[0].1], pairs[1..]);
      assert pairs == [pairs[0]] + pairs[1..];
      assert (set p | p in pairs :: p.0) == {pairs[0].0} + set p | p in pairs[1..] :: p.0;
    }
  }

  /** A hash holds the comment of its last pair. */
  lemma {:induction false} StoreAllLast(m: map<string, Comment>, pairs: seq<(string, Comment)>, i: int)
    requires 0 <= i < |pairs| && LastWithHash(pairs, i)
    ensures pairs[i].0 in StoreAll(m, pairs) && StoreAll(m, pairs)[pairs[i].0] == pairs[i].1
    decreases |pairs|
  {
    var rest := pairs[1..];
    if i > 0 {
      assert rest[i - 1] == pairs[i];
      assert LastWithHash(rest, i - 1) by {
        forall j | i - 1 < j < |rest| ensures rest[j].0 != rest[i - 1].0 {
          assert rest[j] == pairs[j + 1];
        }
      }
      StoreAllLast(m[pairs[0].0 := pairs[0].1], rest, i - 1);
    } else {
      StoreAllUntouched(m[pairs[0].0 := pairs[0].1], rest, pairs[0].0);
    }
  }

  /** A key that no pair carries keeps its old comment. */
  lemma {:induction false} StoreAllUntouched(m: map<string, Comment>, pairs: seq<(string, Comment)>, k: string)
    requires k in m
    requires forall j | 0 <= j < |pairs| :: pairs[j].0 != k
    ensures k in StoreAll(m, pairs) && StoreAll(m, pairs)[k] == m[k]
    decreases |pairs|
  {
    if pairs != [] {
      StoreAllUntouched(m[pairs[0].0 := pairs[0].1], pairs[1..], k);
    }
  }

  /**
   * The (hash, comment) pairs of the notes that parse, in note order. `parse`
   * stands for JSON decoding.
   */
  function ParsedPairs(notes: seq<Note>, parse: Note -> Option<Comment>, digest: Comment -> string): seq<(string, Comment)>
  {
    if notes == [] then []
    else
      var rest := ParsedPairs(notes[..|notes| - 1], parse, digest);
      match parse(notes[|notes| - 1])
      case Some(c) => rest + [(Hash(digest, c), c)]
      case None => rest
  }

  /** A pair is listed exactly when some note parses to its comment, and its hash is that comment's. */
  lemma {:induction false} ParsedPairsMembership(
    notes: seq<Note>, parse: Note -> Option<Comment>, digest: Comment -> string, p: (string, Comment))
    ensures p in ParsedPairs(notes, parse, digest) <==>
      p.0 == Hash(digest, p.1) && exists i | 0 <= i < |notes| :: parse(notes[i]) == Some(p.1)
  {
    if notes != [] {
      var front := notes[..|notes| - 1];
      ParsedPairsMembership(front, parse, digest, p);
      if exists i | 0 <= i < |notes| :: parse(notes[i]) == Some(p.1) {
        var i :| 0 <= i < |notes| && parse(notes[i]) == Some(p.1);
        if i < |notes| - 1 {
          assert front[i] == notes[i];
        }
      }
      if exists i | 0 <= i < |front| :: parse(front[i]) == Some(p.1) {
        var i :| 0 <= i < |front| && parse(front[i]) == Some(p.1);
        assert notes[i] == front[i];
      }
    }
  }

  /**
   * `ParseAllValid`: each note that parses is stored under its comment's
   * hash, in note order, so a later note with the same hash replaces an
   * earlier one; notes that do not parse are dropped.
   */
  method ParseAllValid(notes: seq<Note>, parse: Note -> Option<Comment>, digest: Comment -> string)
    returns (comments: map<string, Comment>)
    ensures comments == StoreAll(map[], ParsedPairs(notes, parse, digest))
  {
    comments := map[];
    for k := 0 to |notes|
      invariant comments == StoreAll(map[], ParsedPairs(notes[..k], parse, digest))
    {
      assert notes[..k + 1][..k] == notes[..k];
      match parse(notes[k]) {
        case Some(c) =>
          StoreAllAppend(map[], ParsedPairs(notes[..k], parse, digest), [(Hash(digest, c), c)]);
          comments := comments[Hash(digest, c) := c];
        case None =>
      }
    }
    assert notes[..|notes|] == notes;
  }

  /**
   * What `ParseAllValid` returns: its keys are the hashes of the notes that
   * parse; each stored comment was parsed from some note and sits under its
   * own hash; and a hash holds the last parsed comment that carries it.
   */
  lemma ParseAllValidSpec(notes: seq<Note>, parse: Note -> Option<Comment>, digest: Comment -> string)
    ensures var m := StoreAll(map[], ParsedPairs(notes, parse, digest));
      && (forall i | 0 <= i < |notes| && parse(notes[i]).Some? :: Hash(digest, parse(notes[i]).value) in m)
      && (forall h | h in m :: Hash(digest, m[h]) == h && exists i | 0 <= i < |notes| :: parse(notes[i]) == Some(m[h]))
      && (forall i | 0 <= i < |ParsedPairs(notes, parse, digest)| && LastWithHash(ParsedPairs(notes, parse, digest), i) ::
            ParsedPairs(notes, parse, digest)[i].0 in m
            && m[ParsedPairs(notes, parse, digest)[i].0] == ParsedPairs(notes, parse, digest)[i].1)
  {
    var pairs := ParsedPairs(notes, parse, digest);
    var m := StoreAll(map[], pairs);
    StoreAllKeys(map[], pairs);
    forall i | 0 <= i < |notes| && parse(notes[i]).Some?
      ensures Hash(digest, parse(notes[i]).value) in m
    {
      var c := parse(notes[i]).value;
      ParsedPairsMembership(notes, parse, digest, (Hash(digest, c), c));
    }
    forall h | h in m
      ensures Hash(digest, m[h]) == h && exists i | 0 <= i < |notes| :: parse(notes[i]) == Some(m[h])
    {
      var j := LastIndexWithHash(pairs, h);
      StoreAllLast(map[], pairs, j);
      ParsedPairsMembership(notes, parse, digest, pairs[j]);
    }
    forall i | 0 <= i < |pairs| && LastWithHash(pairs, i)
      ensures pairs[i].0 in m && m[pairs[i].0] == pairs[i].1
    {
      StoreAllLast(map[], pairs, i);
    }
  }

  /** The last index of a hash that occurs among the pairs. */
  lemma LastIndexWithHash(pairs: seq<(string, Comment)>, h: string) returns (j: int)
    requires h in set p | p in pairs :: p.0
    ensures 0 <= j < |pairs| && pairs[j].0 == h && LastWithHash(pairs, j)
    decreases |pairs|
  {
    var last := pairs[|pairs| - 1];
    if last.0 == h {
      j := |pairs| - 1;
    } else {
      var front := pairs[..|pairs| - 1];
      var p :| p in pairs && p.0 == h;
      assert p in front;
      j := LastIndexWithHash(front, h);
      assert pairs[j] == front[j];
    }
  }

  /** Some comment to exclude overlaps `c`. */
  predicate Excluded(c: Comment, exclude: seq<Comment>)
  {
    exists e | e in exclude :: Overlaps(e, c)
  }

  /**
   * `CommentMap.FilterOverlapping`: the values of the map that no excluded
   * comment overlaps, one per key. Go visits a map in no fixed order, so the
   * order of the result is left open; `keys` records the order taken.
   */
  method FilterOverlapping(comments: map<string, Comment>, exclude: seq<Comment>)
    returns (filtered: seq<Comment>, ghost keys: seq<string>)
    ensures |keys| == |filtered|
    ensures forall i | 0 <= i < |keys| :: keys[i] in comments && filtered[i] == comments[keys[i]]
    ensures forall i, j | 0 <= i < j < |keys| :: keys[i] != keys[j]
    ensures forall k | k in comments :: k in keys <==> !Excluded(comments[k], exclude)
    ensures forall c | c in filtered :: c in comments.Values && !Excluded(c, exclude)
    ensures forall k | k in comments && !Excluded(comments[k], exclude) :: comments[k] in filtered
  {
    filtered, keys := [], [];
    var remaining := comments.Keys;
    while remaining != {}
      invariant remaining <= comments.Keys
      invariant |keys| == |filtered|
      invariant forall i | 0 <= i < |keys| :: keys[i] in comments && keys[i] !in remaining && filtered[i] == comments[keys[i]]
      invariant forall i, j | 0 <= i < j < |keys| :: keys[i] != keys[j]
      invariant forall k | k in comments && k !in remaining :: k in keys <==> !Excluded(comments[k], exclude)
      decreases remaining
    {
      var k :| k in remaining;
      var c := comments[k];
      var passed := true;
      for j := 0 to |exclude|
        invariant passed <==> forall e | e in exclude[..j] :: !Overlaps(e, c)
      {
        assert exclude[..j + 1] == exclude[..j] + [exclude[j]];
        if Overlaps(exclude[j], c) {
          passed := false;
        }
      }
      assert exclude[..|exclude|] == exclude;
      if passed {
        filtered := filtered + [c];
        keys := keys + [k];
      }
      remaining := remaining - {k};
    }
  }

  // ---------------------------------------------------------------------------
  // The comments of the package's tests

  const TestDescription: string := "Some comment description" + "\n\n" + "With some text in it."
  const TestLocation: Location := Location("ABCDEFG", "hello.txt", Some(Range(42)))
  const OriginalComment: Comment :=
    Comment("012345", "foo@bar.com", "", Some(TestLocation), TestDescription, None)
  const QuotedComment: Comment :=
    Comment("456789", "bot@robots-r-us.com", "", Some(TestLocation), QuoteDescription(OriginalComment), None)
  const ReplyComment: Comment :=
    Comment("456789", "bot@robots-r-us.com", "", Some(TestLocation),
            "'" + TestDescription + "': Actually, I disagree", None)

  /** Escaping keeps the first character of a string that does not start with a newline. */
  lemma EscapeNewlinesHead(s: string)
    requires s != [] && s[0] != '\n'
    ensures EscapeNewlines(s) != [] && EscapeNewlines(s)[0] == s[0]
  {
  }

  /**
   * The filtering scenario: with the original as the only exclusion, the
   * original and its quote are excluded and the reply is kept.
   */
  lemma FilterScenarioExclusions()
    ensures Excluded(OriginalComment, [OriginalComment])
    ensures Excluded(QuotedComment, [OriginalComment])
    ensures !Excluded(ReplyComment, [OriginalComment])
  {
    OverlapsReflexive(OriginalComment);
    QuoteOverlaps(OriginalComment, QuotedComment);
    var o, r := OriginalComment, ReplyComment;
    assert o.description == TestDescription && TestDescription[0] == 'S';
    assert r.description[0] == '\'';
    assert QuoteDescription(o)[0] == 'f' && QuoteDescription(r)[0] == 'b';
    EscapeNewlinesHead(o.description);
    EscapeNewlinesHead(r.description);
    EscapeNewlinesHead(QuoteDescription(o));
    EscapeNewlinesHead(QuoteDescription(r));
    assert r.description[0] == '\'' && o.description[0] == 'S';
    assert QuoteDescription(o)[0] == 'f' && QuoteDescription(r)[0] == 'b';
    assert !DescriptionOverlaps(o, r);
  }

  /**
   * The filtering scenario end to end: from the map of the original, its
   * quote and the reply, filtering against the original leaves exactly the
   * reply (the hashes of the three comments are distinct).
   */
  method FilterScenario(digest: Comment -> string) returns (filtered: seq<Comment>)
    requires Hash(digest, OriginalComment) != Hash(digest, QuotedComment)
    requires Hash(digest, OriginalComment) != Hash(digest, ReplyComment)
    requires Hash(digest, QuotedComment) != Hash(digest, ReplyComment)
    ensures filtered == [ReplyComment]
  {
    var h1, h2, h3 := Hash(digest, OriginalComment), Hash(digest, QuotedComment), Hash(digest, ReplyComment);
    var m := map[h1 := OriginalComment, h2 := QuotedComment, h3 := ReplyComment];
    FilterScenarioExclusions();
    ghost var keys;
    filtered, keys := FilterOverlapping(m, [OriginalComment]);
    assert m.Keys == {h1, h2, h3};
    SingleSurvivor(m, keys, h3);
  }

  lemma DistinctFirstTwo(keys: seq<string>)
    requires forall i, j | 0 <= i < j < |keys| :: keys[i] != keys[j]
    ensures |keys| >= 2 ==> keys[0] != keys[1]
  {
  }

  /** A filter that keeps exactly one key of the map returns that key alone. */
  lemma SingleSurvivor<V>(m: map<string, V>, keys: seq<string>, k: string)
    requires k in m
    requires forall i | 0 <= i < |keys| :: keys[i] in m
    requires forall i, j | 0 <= i < j < |keys| :: keys[i] != keys[j]
    requires forall g | g in m :: g in keys <==> g == k
    ensures keys == [k]
  {
    assert k in keys;
    assert forall i | 0 <= i < |keys| :: keys[i] == k by {
      forall i | 0 <= i < |keys| ensures keys[i] == k {
        assert keys[i] in m && keys[i] in keys;
      }
    }
    DistinctFirstTwo(keys);
  }

  /** The resolved-bit scenario: same timestamp, rejection against acceptance, no overlap. */
  lemma ResolvedScenario()
    ensures !Overlaps(Comment("012345", "bar@foo.com", "", None, "", Some(false)),
                      Comment("012345", "bar@foo.com", "", None, "", Some(true)))
  {
  }
}
