/** The .NET string operations the application relies on: white-space tests,
    `Trim`, `Split(char)`, `Replace(char, char)`, ordinal case-insensitive
    comparison, integer formatting and `int.Parse` / `int.TryParse`.
    A C# `string` is a `seq<char>`; a nullable one is an `Option<string>`. */
module Text {
  import opened Wrappers

  // ---------------------------------------------------------------------
  // White space
  // ---------------------------------------------------------------------

  /** `Char.IsWhiteSpace`: the Unicode space, line and paragraph separators
      plus the control characters U+0009..U+000D and U+0085. */
  predicate IsWhiteSpace(c: char) {
    || c == ' '
    || ('\t' <= c <= '\r')
    || c == '\U{0085}'
    || c == '\U{00A0}'
    || c == '\U{1680}'
    || ('\U{2000}' <= c <= '\U{200A}')
    || c == '\U{2028}'
    || c == '\U{2029}'
    || c == '\U{202F}'
    || c == '\U{205F}'
    || c == '\U{3000}'
  }

  /** Every character is white space (the empty string included). */
  predicate IsBlank(s: string) {
    forall i :: 0 <= i < |s| ==> IsWhiteSpace(s[i])
  }

  /** `string.IsNullOrWhiteSpace`. */
  predicate IsNullOrWhiteSpace(s: Option<string>) {
    s.None? || IsBlank(s.value)
  }

  // ---------------------------------------------------------------------
  // Trimming
  // ---------------------------------------------------------------------

  /** Drops the leading characters that satisfy `white`. */
  function TrimStartBy(s: string, white: char -> bool): (r: string)
    ensures |r| <= |s| && r == s[|s| - |r|..]
    ensures forall i :: 0 <= i < |s| - |r| ==> white(s[i])
    ensures r == [] || !white(r[0])
  {
    if |s| > 0 && white(s[0]) then TrimStartBy(s[1..], white) else s
  }

  /** Drops the trailing characters that satisfy `white`. */
  function TrimEndBy(s: string, white: char -> bool): (r: string)
    ensures |r| <= |s| && r == s[..|r|]
    ensures forall i :: |r| <= i < |s| ==> white(s[i])
    ensures r == [] || !white(r[|r| - 1])
  {
    if |s| > 0 && white(s[|s| - 1]) then TrimEndBy(s[..|s| - 1], white) else s
  }

  /** `string.Trim()`: the longest infix of `s` that neither starts nor ends
      with white space, found where the leading white space ends; empty
      exactly when `s` is blank. */
  function Trim(s: string): (r: string)
    ensures |r| <= |s|
    ensures r == [] || (!IsWhiteSpace(r[0]) && !IsWhiteSpace(r[|r| - 1]))
    ensures r == [] <==> IsBlank(s)
    ensures InfixBetweenBlanks(s, r, |s| - |TrimStartBy(s, IsWhiteSpace)|)
  {
    var t := TrimStartBy(s, IsWhiteSpace);
    var r := TrimEndBy(t, IsWhiteSpace);
    TrimBlank(s, t, r);
    TrimParts(s, t, r);
    r
  }

  lemma TrimBlank(s: string, t: string, r: string)
    requires t == TrimStartBy(s, IsWhiteSpace) && r == TrimEndBy(t, IsWhiteSpace)
    ensures r == [] <==> IsBlank(s)
  {
    var a := |s| - |t|;
    if r == [] {
      assert t == [];
    }
  }

  /** `r` sits in `s` at offset `a`, with only white space before and
      after it. */
  predicate InfixBetweenBlanks(s: string, r: string, a: int) {
    && 0 <= a && a + |r| <= |s| && r == s[a..a + |r|]
    && IsBlank(s[..a]) && IsBlank(s[a + |r|..])
  }

  /** The two trims leave an infix of `s` with blank text on either side. */
  lemma TrimParts(s: string, t: string, r: string)
    requires t == TrimStartBy(s, IsWhiteSpace) && r == TrimEndBy(t, IsWhiteSpace)
    ensures InfixBetweenBlanks(s, r, |s| - |t|)
  {
    InfixParts(s, t, r);
    LeadingBlank(s, t);
    TrailingBlank(t, r);
  }

  /** What `Trim` removed is white space on both sides of the result:
      `t` is `s` without its leading white space and `r`, the trim, is `t`
      without its trailing white space. */
  lemma TrimInfix(s: string, t: string, r: string)
    requires t == TrimStartBy(s, IsWhiteSpace) && r == TrimEndBy(t, IsWhiteSpace)
    ensures Trim(s) == r
    ensures |s| - |t| + |r| <= |s| && r == s[|s| - |t|..|s| - |t| + |r|]
    ensures IsBlank(s[..|s| - |t|]) && IsBlank(s[|s| - |t| + |r|..])
  {
    InfixParts(s, t, r);
    LeadingBlank(s, t);
    TrailingBlank(t, r);
  }

  /** A prefix `r` of a suffix `t` of `s` is an infix of `s`, followed by
      the rest of `t`. */
  lemma InfixParts(s: string, t: string, r: string)
    requires |t| <= |s| && t == s[|s| - |t|..] && |r| <= |t| && r == t[..|r|]
    ensures r == s[|s| - |t|..|s| - |t| + |r|]
    ensures s[|s| - |t| + |r|..] == t[|r|..]
  {
  }

  lemma LeadingBlank(s: string, t: string)
    requires t == TrimStartBy(s, IsWhiteSpace)
    ensures IsBlank(s[..|s| - |t|])
  {
    var a := |s| - |t|;
    forall i | 0 <= i < a ensures IsWhiteSpace(s[..a][i]) {
      assert s[..a][i] == s[i];
    }
  }

  lemma TrailingBlank(t: string, r: string)
    requires r == TrimEndBy(t, IsWhiteSpace)
    ensures IsBlank(t[|r|..])
  {
    forall j | 0 <= j < |t| - |r| ensures IsWhiteSpace(t[|r|..][j]) {
      assert t[|r|..][j] == t[|r| + j];
    }
  }

  /** A string that neither starts nor ends with white space is its own
      trim. */
  lemma TrimUnchanged(s: string)
    requires s == [] || (!IsWhiteSpace(s[0]) && !IsWhiteSpace(s[|s| - 1]))
    ensures Trim(s) == s
  {
    assert TrimStartBy(s, IsWhiteSpace) == s;
    assert TrimEndBy(s, IsWhiteSpace) == s;
  }

  /** Trimming a trimmed string changes nothing. */
  lemma TrimIdempotent(s: string)
    ensures Trim(Trim(s)) == Trim(s)
  {
    var r := Trim(s);
    if r != [] {
      assert TrimStartBy(r, IsWhiteSpace) == r;
      assert TrimEndBy(r, IsWhiteSpace) == r;
    }
  }

  // ---------------------------------------------------------------------
  // Splitting on a separator
  // ---------------------------------------------------------------------

  /** Position of the first occurrence of `c`. */
  function IndexOf(s: string, c: char): (i: nat)
    requires c in s
    ensures i < |s| && s[i] == c && c !in s[..i]
  {
    if s[0] == c then 0
    else
      var j := IndexOf(s[1..], c);
      assert s[..j + 1] == [s[0]] + s[1..][..j];
      j + 1
  }

  /** The inverse of `Split`: the fields glued back with the separator. */
  function Join(parts: seq<string>, sep: char): string
    requires |parts| >= 1
  {
    if |parts| == 1 then parts[0] else parts[0] + [sep] + Join(parts[1..], sep)
  }

  /** `string.Split(char)`: the maximal separator-free fields, in order; there
      is always at least one field, and gluing them back gives `s`. */
  function Split(s: string, sep: char): (parts: seq<string>)
    ensures |parts| >= 1
    ensures forall i :: 0 <= i < |parts| ==> sep !in parts[i]
    ensures Join(parts, sep) == s
    decreases |s|
  {
    if sep !in s then [s]
    else
      var i := IndexOf(s, sep);
      var rest := Split(s[i + 1..], sep);
      assert s == s[..i] + [sep] + s[i + 1..];
      [s[..i]] + rest
  }

  /** A separator-free head is exactly the first field. */
  lemma {:induction false} SplitConcat(a: string, sep: char, b: string)
    requires sep !in a
    ensures Split(a + [sep] + b, sep) == [a] + Split(b, sep)
  {
    var s := a + [sep] + b;
    assert s[|a|] == sep;
    var i := IndexOf(s, sep);
    assert i == |a|;
    assert s[..i] == a;
    assert s[i + 1..] == b;
  }

  /** Splitting what `Join` produced recovers the fields, when no field
      contains the separator. */
  lemma {:induction false} SplitJoin(parts: seq<string>, sep: char)
    requires |parts| >= 1
    requires forall i :: 0 <= i < |parts| ==> sep !in parts[i]
    ensures Split(Join(parts, sep), sep) == parts
    decreases |parts|
  {
    if |parts| == 1 {
    } else {
      SplitJoin(parts[1..], sep);
      SplitConcat(parts[0], sep, Join(parts[1..], sep));
      assert parts == [parts[0]] + parts[1..];
    }
  }

  /** A string has at least two fields exactly when it contains the separator,
      and then its first field is followed by the separator. */
  lemma {:induction false} SplitFirstField(s: string, sep: char)
    ensures |Split(s, sep)| >= 2 <==> sep in s
    ensures |Split(s, sep)| >= 2 ==> s == Split(s, sep)[0] + [sep] + Join(Split(s, sep)[1..], sep)
  {
    var parts := Split(s, sep);
    if |parts| >= 2 {
      assert s[|parts[0]|] == sep;
    } else {
      assert s == parts[0];
    }
  }

  // ---------------------------------------------------------------------
  // Character replacement
  // ---------------------------------------------------------------------

  /** `string.Replace(char, char)`: every `from` becomes `to`, nothing else
      moves. */
  function ReplaceChar(s: string, from: char, to: char): (r: string)
    ensures |r| == |s|
    ensures forall i :: 0 <= i < |s| ==> r[i] == (if s[i] == from then to else s[i])
    ensures from != to ==> from !in r
  {
    if s == [] then []
    else [if s[0] == from then to else s[0]] + ReplaceChar(s[1..], from, to)
  }

  // ---------------------------------------------------------------------
  // Ordinal case-insensitive comparison
  // ---------------------------------------------------------------------

  /** The invariant upper-case mapping on ASCII and Latin-1 letters; every
      other character maps to itself. */
  function UpperInvariant(c: char): (u: char)
    ensures c !in "abcdefghijklmnopqrstuvwxyz" ==> (u == c || '\U{00E0}' <= c <= '\U{00FE}')
  {
    if 'a' <= c <= 'z' then (c as int - 32) as char
    else if '\U{00E0}' <= c <= '\U{00FE}' && c != '\U{00F7}' then (c as int - 32) as char
    else c
  }

  /** `string.Equals(a, b, StringComparison.OrdinalIgnoreCase)`. */
  predicate EqualsIgnoreCase(a: string, b: string) {
    |a| == |b| && forall i :: 0 <= i < |a| ==> UpperInvariant(a[i]) == UpperInvariant(b[i])
  }

  /** `s.StartsWith(p, StringComparison.OrdinalIgnoreCase)`. */
  predicate StartsWithIgnoreCase(s: string, p: string) {
    |p| <= |s| && EqualsIgnoreCase(s[..|p|], p)
  }

  /** The culture lower-case mapping on ASCII letters. */
  function LowerAscii(c: char): char {
    if 'A' <= c <= 'Z' then (c as int + 32) as char else c
  }

  /** `string.ToLower()`, on ASCII letters. */
  function ToLower(s: string): (r: string)
    ensures |r| == |s|
    ensures forall i :: 0 <= i < |s| ==> r[i] == LowerAscii(s[i])
  {
    if s == [] then [] else [LowerAscii(s[0])] + ToLower(s[1..])
  }

  // ---------------------------------------------------------------------
  // Integers as text
  // ---------------------------------------------------------------------

  predicate IsDigit(c: char) {
    '0' <= c <= '9'
  }

  predicate AllDigits(s: string) {
    forall i :: 0 <= i < |s| ==> IsDigit(s[i])
  }

  /** The decimal value of a run of digits. */
  function DigitsValue(s: string): nat
    requires AllDigits(s)
  {
    if s == [] then 0 else DigitsValue(s[..|s| - 1]) * 10 + (s[|s| - 1] as int - '0' as int)
  }

  function DigitChar(d: nat): char
    requires d < 10
  {
    ('0' as int + d) as char
  }

  /** The shortest decimal numeral of `n`: its digits read back as `n` and it
      has no leading zero. */
  function NatToString(n: nat): (r: string)
    ensures |r| >= 1 && AllDigits(r)
    ensures DigitsValue(r) == n
    ensures r[0] == '0' ==> n == 0
    decreases n
  {
    if n < 10 then [DigitChar(n)]
    else
      var r := NatToString(n / 10) + [DigitChar(n % 10)];
      assert r[..|r| - 1] == NatToString(n / 10);
      r
  }

  /** `int.ToString()` in the invariant culture. */
  function IntToString(n: int): (r: string)
    ensures |r| >= 1
    ensures r[0] == '-' <==> n < 0
    ensures n >= 0 ==> AllDigits(r)
    ensures forall i :: 0 < i < |r| ==> IsDigit(r[i])
    ensures IsDigit(r[|r| - 1])
  {
    if n < 0 then "-" + NatToString(-n) else NatToString(n)
  }

  /** Equal numerals of naturals denote the same number. */
  lemma NatToStringInjective(a: nat, b: nat)
    requires NatToString(a) == NatToString(b)
    ensures a == b
  {
  }

  /** Distinct integers are written differently. */
  lemma IntToStringInjective(a: int, b: int)
    requires IntToString(a) == IntToString(b)
    ensures a == b
  {
    if a < 0 && b < 0 {
      assert NatToString(-a) == IntToString(a)[1..];
      NatToStringInjective(-a, -b);
    } else if a >= 0 && b >= 0 {
      NatToStringInjective(a, b);
    }
  }

  /** The outcome of `int.Parse` (`FormatException`, `OverflowException`) and,
      collapsed to success or failure, of `int.TryParse`. */
  datatype NumberParse = Parsed(value: int) | BadFormat | Overflow

  const Int32Min: int := -0x8000_0000
  const Int32Max: int := 0x7FFF_FFFF

  /** The white space `NumberStyles.Integer` admits around a number. */
  predicate IsNumberWhite(c: char) {
    c == ' ' || ('\t' <= c <= '\r')
  }

  /** An optional sign followed by at least one digit. */
  predicate IsIntegerSyntax(t: string) {
    || (|t| > 0 && AllDigits(t))
    || (|t| > 1 && t[0] in "+-" && AllDigits(t[1..]))
  }

  /** A signed run of digits without surrounding white space: malformed text
      is a format error, a well-formed value outside the 32-bit range an
      overflow. */
  function ParseSignedDigits(t: string): (r: NumberParse)
    ensures r == BadFormat <==> !IsIntegerSyntax(t)
    ensures r.Parsed? ==> Int32Min <= r.value <= Int32Max
  {
    if |t| > 0 && AllDigits(t) then
      InRange(DigitsValue(t))
    else if |t| > 1 && t[0] in "+-" && AllDigits(t[1..]) then
      InRange(if t[0] == '-' then -(DigitsValue(t[1..]) as int) else DigitsValue(t[1..]))
    else
      BadFormat
  }

  function InRange(v: int): (r: NumberParse)
    ensures r != BadFormat
  {
    if Int32Min <= v <= Int32Max then Parsed(v) else Overflow
  }

  /** `int.Parse(s)` with `NumberStyles.Integer`: optional white space, an
      optional leading sign, at least one digit, optional white space; a
      well-formed number outside the 32-bit range overflows. */
  function ParseInt32(s: string): (r: NumberParse)
    ensures r.Parsed? ==> Int32Min <= r.value <= Int32Max
  {
    ParseSignedDigits(TrimEndBy(TrimStartBy(s, IsNumberWhite), IsNumberWhite))
  }

  /** `int.TryParse(s, out v)`. */
  function TryParseInt32(s: string): (r: Option<int>)
    ensures r.Some? <==> ParseInt32(s).Parsed?
    ensures r.Some? ==> r.value == ParseInt32(s).value
  {
    match ParseInt32(s)
    case Parsed(v) => Some(v)
    case _ => None
  }

  /** Formatting a 32-bit integer and parsing it back gives the integer. */
  lemma ParseIntToString(n: int)
    requires Int32Min <= n <= Int32Max
    ensures ParseInt32(IntToString(n)) == Parsed(n)
  {
    var s := IntToString(n);
    assert TrimStartBy(s, IsNumberWhite) == s;
    assert TrimEndBy(s, IsNumberWhite) == s;
    if n < 0 {
      assert s[1..] == NatToString(-n);
    }
  }
}
