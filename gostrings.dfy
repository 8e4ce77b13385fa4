/**
 * The parts of Go's strconv, fmt and strings packages that the mirror's
 * logic depends on, written out over `string` (a sequence of characters,
 * standing for Go's byte strings).
 */
module GoStrings {
  import opened Wrappers

  /** Go's uint32. */
  type uint32 = x: int | 0 <= x < 0x1_0000_0000

  const MinInt64: int := -0x8000_0000_0000_0000
  const MaxInt64: int := 0x7fff_ffff_ffff_ffff

  // ---------------------------------------------------------------------------
  // Decimal digits

  predicate IsDigit(c: char) { '0' <= c <= '9' }

  predicate AllDigits(s: string) { forall i | 0 <= i < |s| :: IsDigit(s[i]) }

  function DigitValue(c: char): nat
    requires IsDigit(c)
  {
    (c as int) - ('0' as int)
  }

  function DigitChar(d: nat): (c: char)
    requires d < 10
    ensures IsDigit(c) && DigitValue(c) == d
  {
    ('0' as int + d) as char
  }

  /** The number a string of decimal digits denotes (leading zeros allowed). */
  function DecimalValue(s: string): nat
    requires AllDigits(s)
  {
    if s == [] then 0 else 10 * DecimalValue(s[..|s| - 1]) + DigitValue(s[|s| - 1])
  }

  function Pow10(k: nat): (p: nat)
    ensures p >= 1
  {
    if k == 0 then 1 else 10 * Pow10(k - 1)
  }

  /** `strconv.ParseUint(s, 10, 32)`: digits only, no sign, below 2^32. */
  function ParseUint32(s: string): (r: Option<uint32>)
  {
    if s != [] && AllDigits(s) && DecimalValue(s) < 0x1_0000_0000 then Some(DecimalValue(s)) else None
  }

  /**
   * `strconv.ParseInt(s, 10, 64)`, which is also `strconv.Atoi` on a 64-bit
   * platform: an optional `+` or `-` followed by at least one digit, with a
   * value inside the int64 range.
   */
  function ParseInt64(s: string): (r: Option<int>)
  {
    if s == [] then None
    else
      var digits := if s[0] == '-' || s[0] == '+' then s[1..] else s;
      if digits == [] || !AllDigits(digits) then None
      else
        var v: int := if s[0] == '-' then -(DecimalValue(digits) as int) else DecimalValue(digits);
        if MinInt64 <= v <= MaxInt64 then Some(v) else None
  }

  function Atoi(s: string): Option<int> { ParseInt64(s) }

  /** Decimal form of a natural number, without leading zeros (`fmt` "%d"). */
  function FormatNat(n: nat): (s: string)
    ensures s != [] && AllDigits(s)
  {
    if n < 10 then [DigitChar(n)] else FormatNat(n / 10) + [DigitChar(n % 10)]
  }

  /** `fmt.Sprintf("%d", n)` and `strconv.Itoa(n)`. */
  function FormatInt(n: int): string
  {
    if n < 0 then "-" + FormatNat(-n) else FormatNat(n)
  }

  function Zeros(k: nat): (z: string)
    ensures |z| == k && AllDigits(z)
  {
    if k == 0 then [] else Zeros(k - 1) + "0"
  }

  function PadLeftZeros(d: string, width: nat): (s: string)
  {
    if |d| < width then Zeros(width - |d|) + d else d
  }

  /** `fmt.Sprintf("%010d", n)`: width ten, zero-filled after the sign. */
  function ZeroPad10(n: int): string
  {
    if n < 0 then "-" + PadLeftZeros(FormatNat(-n), 9) else PadLeftZeros(FormatNat(n), 10)
  }

  lemma {:induction false} DecimalValueSnoc(s: string, c: char)
    requires AllDigits(s) && IsDigit(c)
    ensures AllDigits(s + [c]) && DecimalValue(s + [c]) == 10 * DecimalValue(s) + DigitValue(c)
  {
    assert (s + [c])[..|s + [c]| - 1] == s;
  }

  /** Formatting then reading back a natural number gives it back. */
  lemma {:induction false} FormatNatRoundTrip(n: nat)
    ensures DecimalValue(FormatNat(n)) == n
  {
    if n >= 10 {
      FormatNatRoundTrip(n / 10);
      DecimalValueSnoc(FormatNat(n / 10), DigitChar(n % 10));
    } else {
      assert FormatNat(n) == [DigitChar(n)];
      assert FormatNat(n)[..0] == [];
    }
  }

  lemma {:induction false} ZerosValue(k: nat)
    ensures DecimalValue(Zeros(k)) == 0
  {
    if k > 0 {
      ZerosValue(k - 1);
      DecimalValueSnoc(Zeros(k - 1), '0');
    }
  }

  /** Leading zeros do not change the number a digit string denotes. */
  lemma {:induction false} LeadingZerosValue(k: nat, d: string)
    requires AllDigits(d)
    ensures AllDigits(Zeros(k) + d) && DecimalValue(Zeros(k) + d) == DecimalValue(d)
    decreases |d|
  {
    if d == [] {
      assert Zeros(k) + d == Zeros(k);
      ZerosValue(k);
    } else {
      var front := d[..|d| - 1];
      var last := d[|d| - 1];
      LeadingZerosValue(k, front);
      assert Zeros(k) + d == (Zeros(k) + front) + [last];
      assert d == front + [last];
      DecimalValueSnoc(Zeros(k) + front, last);
      DecimalValueSnoc(front, last);
    }
  }

  /** A digit string of length k denotes a number below 10^k. */
  lemma {:induction false} DecimalValueBound(s: string)
    requires AllDigits(s)
    ensures DecimalValue(s) < Pow10(|s|)
  {
    if s != [] {
      DecimalValueBound(s[..|s| - 1]);
    }
  }

  /** A number below 10^k has at most k digits. */
  lemma {:induction false} FormatNatLength(n: nat, k: nat)
    requires 1 <= k && n < Pow10(k)
    ensures |FormatNat(n)| <= k
  {
    if n >= 10 {
      assert Pow10(1) == 10;
      assert n / 10 < Pow10(k - 1);
      FormatNatLength(n / 10, k - 1);
    }
  }

  /** `strconv.ParseUint` reads back what "%d" wrote. */
  lemma ParseUint32Format(n: uint32)
    ensures ParseUint32(FormatNat(n)) == Some(n)
  {
    FormatNatRoundTrip(n);
  }

  /** Zero-padding the decimal form of m keeps a nonempty digit string denoting m. */
  lemma PaddedValue(m: nat, width: nat)
    ensures var p := PadLeftZeros(FormatNat(m), width);
      p != [] && AllDigits(p) && DecimalValue(p) == m
  {
    var d := FormatNat(m);
    FormatNatRoundTrip(m);
    if |d| < width {
      LeadingZerosValue(width - |d|, d);
    }
  }

  /** An unsigned digit string inside the int64 range parses to its value. */
  lemma ParseInt64Digits(s: string)
    requires s != [] && AllDigits(s) && DecimalValue(s) <= MaxInt64
    ensures ParseInt64(s) == Some(DecimalValue(s) as int)
  {
    assert IsDigit(s[0]);
  }

  /** A minus sign followed by digits parses to the negated value. */
  lemma ParseInt64Negative(s: string)
    requires s != [] && AllDigits(s) && DecimalValue(s) <= -MinInt64
    ensures ParseInt64("-" + s) == Some(-(DecimalValue(s) as int))
  {
    assert ("-" + s)[0] == '-';
    assert ("-" + s)[1..] == s;
  }

  /** `strconv.Atoi` reads back what "%010d" wrote, sign included. */
  lemma ParseInt64ZeroPad10(n: int)
    requires MinInt64 <= n <= MaxInt64
    ensures ParseInt64(ZeroPad10(n)) == Some(n)
  {
    if n < 0 {
      var padded := PadLeftZeros(FormatNat(-n), 9);
      PaddedValue(-n, 9);
      ParseInt64Negative(padded);
    } else {
      var padded := PadLeftZeros(FormatNat(n), 10);
      PaddedValue(n, 10);
      ParseInt64Digits(padded);
    }
  }

  // ---------------------------------------------------------------------------
  // strings

  /**
   * `strings.Split(s, sep)` for a one-character separator: the pieces
   * between separators, so the empty string gives one empty piece.
   */
  function Split(s: string, sep: char): (parts: seq<string>)
    ensures |parts| >= 1
  {
    if s == [] then [[]]
    else
      var rest := Split(s[1..], sep);
      if s[0] == sep then [[]] + rest else [[s[0]] + rest[0]] + rest[1..]
  }

  /** `strings.Join(parts, sep)`, the partner of Split. */
  function Join(parts: seq<string>, sep: char): string
  {
    if parts == [] then []
    else if |parts| == 1 then parts[0]
    else parts[0] + [sep] + Join(parts[1..], sep)
  }

  /** Joining the pieces of a split with the same separator gives the string back. */
  lemma {:induction false} SplitJoin(s: string, sep: char)
    ensures Join(Split(s, sep), sep) == s
  {
    if s != [] {
      var rest := Split(s[1..], sep);
      SplitJoin(s[1..], sep);
      if s[0] == sep {
        assert Split(s, sep) == [[]] + rest;
        assert Join(Split(s, sep), sep) == [sep] + Join(rest, sep);
        assert s == [s[0]] + s[1..];
      } else {
        var parts := [[s[0]] + rest[0]] + rest[1..];
        assert Split(s, sep) == parts;
        if |rest| == 1 {
          assert Join(parts, sep) == [s[0]] + rest[0];
        } else {
          assert parts[1..] == rest[1..];
          assert Join(rest, sep) == rest[0] + [sep] + Join(rest[1..], sep);
          assert Join(parts, sep) == [s[0]] + rest[0] + [sep] + Join(rest[1..], sep);
        }
        assert s == [s[0]] + s[1..];
      }
    }
  }

  /** A string without the separator splits into itself alone. */
  lemma {:induction false} SplitNoSeparator(p: string, sep: char)
    requires sep !in p
    ensures Split(p, sep) == [p]
  {
    if p != [] {
      SplitNoSeparator(p[1..], sep);
      assert p == [p[0]] + p[1..];
    }
  }

  /** The first piece ends at the first separator. */
  lemma {:induction false} SplitAtSeparator(p: string, rest: string, sep: char)
    requires sep !in p
    ensures Split(p + [sep] + rest, sep) == [p] + Split(rest, sep)
  {
    if p == [] {
      assert p + [sep] + rest == [sep] + rest;
      assert ([sep] + rest)[1..] == rest;
    } else {
      SplitAtSeparator(p[1..], rest, sep);
      assert (p + [sep] + rest)[1..] == p[1..] + [sep] + rest;
      assert p == [p[0]] + p[1..];
    }
  }

  /** Splitting what was joined gives back the pieces, when none holds the separator. */
  lemma {:induction false} JoinSplit(parts: seq<string>, sep: char)
    requires |parts| >= 1 && forall p | p in parts :: sep !in p
    ensures Split(Join(parts, sep), sep) == parts
  {
    if |parts| == 1 {
      SplitNoSeparator(parts[0], sep);
    } else {
      JoinSplit(parts[1..], sep);
      SplitAtSeparator(parts[0], Join(parts[1..], sep), sep);
      assert parts == [parts[0]] + parts[1..];
    }
  }

  /** No piece of a split holds the separator. */
  lemma {:induction false} SplitPiecesLackSeparator(s: string, sep: char)
    ensures forall p | p in Split(s, sep) :: sep !in p
  {
    if s != [] {
      SplitPiecesLackSeparator(s[1..], sep);
    }
  }

  /** `strings.Replace(s, "\n", "\\n", -1)`: every newline becomes a backslash and an `n`. */
  function EscapeNewlines(s: string): (e: string)
  {
    if s == [] then []
    else (if s[0] == '\n' then ['\\', 'n'] else [s[0]]) + EscapeNewlines(s[1..])
  }

  /** The escaped form holds no newline, and a string without newlines is its own escape. */
  lemma {:induction false} EscapeNewlinesProperties(s: string)
    ensures '\n' !in EscapeNewlines(s)
    ensures '\n' !in s ==> EscapeNewlines(s) == s
  {
    if s != [] {
      EscapeNewlinesProperties(s[1..]);
      assert s == [s[0]] + s[1..];
    }
  }

  /** `strings.Trim(s, " ")`: drop leading and trailing spaces. */
  function TrimSpaces(s: string): string
  {
    TrimTrailingSpaces(TrimLeadingSpaces(s))
  }

  function TrimLeadingSpaces(s: string): (t: string)
    ensures |t| <= |s| && t == s[|s| - |t|..]
    ensures t != [] ==> t[0] != ' '
    ensures forall i | 0 <= i < |s| - |t| :: s[i] == ' '
  {
    if s != [] && s[0] == ' ' then TrimLeadingSpaces(s[1..]) else s
  }

  function TrimTrailingSpaces(s: string): (t: string)
    ensures |t| <= |s| && t == s[..|t|]
    ensures t != [] ==> t[|t| - 1] != ' '
    ensures forall i | |t| <= i < |s| :: s[i] == ' '
  {
    if s != [] && s[|s| - 1] == ' ' then TrimTrailingSpaces(s[..|s| - 1]) else s
  }

  /** Trimming spaces leaves nothing exactly when the string is all spaces. */
  lemma TrimSpacesEmpty(s: string)
    ensures TrimSpaces(s) == [] <==> forall i | 0 <= i < |s| :: s[i] == ' '
  {
    var l := TrimLeadingSpaces(s);
    if forall i | 0 <= i < |s| :: s[i] == ' ' {
      AllSpacesTrimLeading(s);
    }
  }

  lemma {:induction false} AllSpacesTrimLeading(s: string)
    requires forall i | 0 <= i < |s| :: s[i] == ' '
    ensures TrimLeadingSpaces(s) == []
  {
    if s != [] {
      AllSpacesTrimLeading(s[1..]);
    }
  }

  /** `strings.TrimPrefix(s, prefix)`. */
  function TrimPrefix(s: string, prefix: string): (t: string)
  {
    if prefix <= s then s[|prefix|..] else s
  }

  // ---------------------------------------------------------------------------
  // package sort

  /** The head of a list of integers sorted in decreasing order: its greatest element. */
  method GreatestOf(xs: seq<int>) returns (greatest: int)
    requires |xs| > 0
    ensures greatest in xs
    ensures forall x | x in xs :: x <= greatest
  {
    greatest := xs[0];
    for i := 1 to |xs|
      invariant greatest in xs
      invariant forall j | 0 <= j < i :: xs[j] <= greatest
    {
      if xs[i] > greatest {
        greatest := xs[i];
      }
    }
  }
}
