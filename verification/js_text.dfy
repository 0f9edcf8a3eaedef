/**
 * The handful of JavaScript string and number primitives the extension relies
 * on, written out with their JavaScript meaning: `trim`, `toUpperCase` and
 * `toLowerCase` on ASCII letters, `Number.prototype.toString` on integers,
 * `padStart(2, '0')`, `parseInt` without a radix, and the `%` operator, whose
 * remainder takes the sign of the dividend.
 */
module JsText {
  import opened Wrappers

  predicate IsDigit(c: char) { '0' <= c <= '9' }
  predicate IsAsciiUpper(c: char) { 'A' <= c <= 'Z' }
  predicate IsAsciiLower(c: char) { 'a' <= c <= 'z' }
  predicate IsAsciiAlnum(c: char) { IsDigit(c) || IsAsciiUpper(c) || IsAsciiLower(c) }

  function ToUpperChar(c: char): char
  {
    if IsAsciiLower(c) then (c as int - 32) as char else c
  }

  function ToLowerChar(c: char): char
  {
    if IsAsciiUpper(c) then (c as int + 32) as char else c
  }

  /** `s.toUpperCase()` on ASCII letters. */
  function ToUpper(s: string): (r: string)
    ensures |r| == |s| && forall i :: 0 <= i < |s| ==> r[i] == ToUpperChar(s[i])
  {
    if s == [] then [] else [ToUpperChar(s[0])] + ToUpper(s[1..])
  }

  /** `s.toLowerCase()` on ASCII letters. */
  function ToLower(s: string): (r: string)
    ensures |r| == |s| && forall i :: 0 <= i < |s| ==> r[i] == ToLowerChar(s[i])
  {
    if s == [] then [] else [ToLowerChar(s[0])] + ToLower(s[1..])
  }

  /** JavaScript's WhiteSpace and LineTerminator code points: what `trim` strips and `\s` matches. */
  predicate IsWhitespace(c: char)
  {
    || c == '\t' || c == '\n' || c == '\U{B}' || c == '\U{C}' || c == '\r' || c == ' '
    || c == '\U{A0}' || c == '\U{1680}' || ('\U{2000}' <= c <= '\U{200A}')
    || c == '\U{2028}' || c == '\U{2029}' || c == '\U{202F}' || c == '\U{205F}'
    || c == '\U{3000}' || c == '\U{FEFF}'
  }

  /** The characters a regular-expression `.` does not match. */
  predicate IsLineTerminator(c: char)
  {
    c == '\n' || c == '\r' || c == '\U{2028}' || c == '\U{2029}'
  }

  // ---------------------------------------------------------------- trim

  /** `s.trimStart()`: the suffix of `s` after its leading whitespace. */
  function TrimStart(s: string): (r: string)
    ensures |r| <= |s|
    ensures |r| < |s| ==> r == s[|s| - |r|..]
    ensures |r| == |s| ==> r == s
    ensures r == [] || !IsWhitespace(r[0])
    ensures forall i {:trigger IsWhitespace(s[i])} :: 0 <= i < |s| - |r| ==> IsWhitespace(s[i])
  {
    if s != [] && IsWhitespace(s[0]) then TrimStart(s[1..]) else s
  }

  /** `s.trimEnd()`: the prefix of `s` before its trailing whitespace. */
  function TrimEnd(s: string): (r: string)
    ensures |r| <= |s|
    ensures |r| < |s| ==> r == s[..|r|]
    ensures |r| == |s| ==> r == s
    ensures r == [] || !IsWhitespace(r[|r| - 1])
    ensures forall i {:trigger IsWhitespace(s[i])} :: |r| <= i < |s| ==> IsWhitespace(s[i])
  {
    if s != [] && IsWhitespace(s[|s| - 1]) then TrimEnd(s[..|s| - 1]) else s
  }

  /** `s.trim()`. */
  function Trim(s: string): (r: string)
  {
    TrimEnd(TrimStart(s))
  }

  /** Trimming keeps a contiguous middle part of the input, with only whitespace cut off either side. */
  lemma {:induction false} TrimIsMiddle(s: string)
    ensures var k := |s| - |TrimStart(s)|;
      && k + |Trim(s)| <= |s| && Trim(s) == s[k..k + |Trim(s)|]
      && (forall i :: 0 <= i < k ==> IsWhitespace(s[i]))
      && (forall i :: k + |Trim(s)| <= i < |s| ==> IsWhitespace(s[i]))
    ensures Trim(s) == [] || (!IsWhitespace(Trim(s)[0]) && !IsWhitespace(Trim(s)[|Trim(s)| - 1]))
  {
    TrimIsSlice(s);
    TrimCutsWhitespace(s);
    TrimEnds(s);
  }

  /** The trim is the slice of the input that starts where the leading whitespace ends. */
  lemma {:induction false} TrimIsSlice(s: string)
    ensures var k := |s| - |TrimStart(s)|; k + |Trim(s)| <= |s| && Trim(s) == s[k..k + |Trim(s)|]
  {
    var t := TrimStart(s);
    TrimStartIsSuffix(s);
    TrimEndIsPrefix(t);
    SliceOfSuffix(s, |s| - |t|, t, TrimEnd(t));
  }

  /** Only whitespace lies before and after the trim. */
  lemma {:induction false} TrimCutsWhitespace(s: string)
    ensures var k := |s| - |TrimStart(s)|;
      && (forall i :: 0 <= i < k ==> IsWhitespace(s[i]))
      && (forall i :: k + |Trim(s)| <= i < |s| ==> IsWhitespace(s[i]))
  {
    var t := TrimStart(s);
    TrimStartIsSuffix(s);
    WhitespaceTail(s, |s| - |t|, t, |TrimEnd(t)|);
  }

  /** Whitespace at the tail of the suffix from `k` is whitespace at the tail of the whole. */
  lemma {:induction false} WhitespaceTail(s: string, k: nat, t: string, m: nat)
    requires k <= |s| && t == s[k..] && m <= |t|
    requires forall j :: m <= j < |t| ==> IsWhitespace(t[j])
    ensures forall i :: k + m <= i < |s| ==> IsWhitespace(s[i])
  {
    forall i | k + m <= i < |s| ensures IsWhitespace(s[i]) {
      assert s[i] == t[i - k];
    }
  }

  /** The trim neither starts nor ends with whitespace. */
  lemma {:induction false} TrimEnds(s: string)
    ensures Trim(s) == [] || (!IsWhitespace(Trim(s)[0]) && !IsWhitespace(Trim(s)[|Trim(s)| - 1]))
  {
    var t := TrimStart(s);
    TrimEndIsPrefix(t);
  }

  /** `trimStart` keeps a suffix. */
  lemma {:induction false} TrimStartIsSuffix(s: string)
    ensures TrimStart(s) == s[|s| - |TrimStart(s)|..]
  {
    if |TrimStart(s)| == |s| {
      assert s[0..] == s;
    }
  }

  /** `trimEnd` keeps a prefix. */
  lemma {:induction false} TrimEndIsPrefix(s: string)
    ensures TrimEnd(s) == s[..|TrimEnd(s)|]
  {
    if |TrimEnd(s)| == |s| {
      assert s[..|s|] == s;
    }
  }

  /** A prefix of the suffix from `k` is the slice from `k`. */
  lemma {:induction false} SliceOfSuffix(s: string, k: nat, t: string, r: string)
    requires k <= |s| && t == s[k..] && |r| <= |t| && r == t[..|r|]
    ensures r == s[k..k + |r|]
  {
  }

  /** `s` has no whitespace at either end. */
  predicate IsTrimmed(s: string)
  {
    s == [] || (!IsWhitespace(s[0]) && !IsWhitespace(s[|s| - 1]))
  }

  /** Being trimmed is being one's own trim. */
  lemma {:induction false} TrimmedIff(s: string)
    ensures IsTrimmed(s) <==> Trim(s) == s
  {
    TrimIsMiddle(s);
    if IsTrimmed(s) {
      TrimOfTrimmed(s);
    }
  }

  /** A string without whitespace at either end is its own trim. */
  lemma {:induction false} TrimOfTrimmed(s: string)
    requires s == [] || (!IsWhitespace(s[0]) && !IsWhitespace(s[|s| - 1]))
    ensures Trim(s) == s
  {
  }

  /** Trimming twice is trimming once. */
  lemma {:induction false} TrimIdempotent(s: string)
    ensures Trim(Trim(s)) == Trim(s)
  {
    TrimIsMiddle(s);
    TrimOfTrimmed(Trim(s));
  }

  /** Trimming after `trimStart` is trimming. */
  lemma {:induction false} TrimOfTrimStart(s: string)
    ensures Trim(TrimStart(s)) == Trim(s)
  {
    var t := TrimStart(s);
    assert TrimStart(t) == t;
  }

  /** A string trims to nothing exactly when it is all whitespace. */
  lemma {:induction false} TrimEmptyIff(s: string)
    ensures Trim(s) == [] <==> forall i :: 0 <= i < |s| ==> IsWhitespace(s[i])
  {
    TrimIsMiddle(s);
  }

  // ---------------------------------------------------------------- concatenation

  /** The middle part of a three-part concatenation is found at the length of the first. */
  lemma {:induction false} MiddleOfThree(a: string, b: string, c: string)
    ensures |a| + |b| <= |a + b + c| && (a + b + c)[|a|..|a| + |b|] == b
  {
    assert (a + b + c)[|a|..|a| + |b|] == b by {
      forall k | 0 <= k < |b| ensures (a + b + c)[|a| + k] == b[k] { }
    }
  }

  /** The three parts of `a + b + c` can be cut back out of it. */
  lemma {:induction false} PartsOfThree(t: string, a: string, b: string, c: string)
    requires t == a + b + c
    ensures |a| + |b| <= |t| && t[..|a|] == a && t[|a|..|a| + |b|] == b && t[|a| + |b|..] == c
    ensures t[|a|..] == b + c
  {
    MiddleOfThree(a, b, c);
    assert t[..|a|] == a;
    assert t[|a| + |b|..] == c;
    assert t[|a|..] == b + c;
  }

  // ---------------------------------------------------------------- search

  /** `s.indexOf(c)`: the index of the first `c` in `s`. */
  function IndexOf(s: string, c: char): (r: Option<nat>)
    ensures r.Some? ==> r.value < |s| && s[r.value] == c && c !in s[..r.value]
    ensures r.None? ==> c !in s
  {
    if s == [] then None
    else if s[0] == c then Some(0)
    else match IndexOf(s[1..], c)
      case None => None
      case Some(i) =>
        assert s[..i + 1] == [s[0]] + s[1..][..i];
        Some(i + 1)
  }

  /** `IndexOf` finds a position exactly when nothing before it matches. */
  lemma {:induction false} IndexOfFirst(s: string, c: char, k: nat)
    requires k < |s| && s[k] == c && c !in s[..k]
    ensures IndexOf(s, c) == Some(k)
  {
  }

  /** `s.split(sep)` for a one-character separator: the pieces between separators, at least one. */
  function Split(s: string, sep: char): (r: seq<string>)
    ensures |r| >= 1
    ensures forall i :: 0 <= i < |r| ==> sep !in r[i]
    decreases |s|
  {
    match IndexOf(s, sep)
    case None => [s]
    case Some(k) => [s[..k]] + Split(s[k + 1..], sep)
  }

  /** `parts.join(sep)`. */
  function Join(parts: seq<string>, sep: char): string
    requires |parts| >= 1
  {
    if |parts| == 1 then parts[0] else parts[0] + [sep] + Join(parts[1..], sep)
  }

  /** Joining the pieces of a split gives the text back. */
  lemma {:induction false} JoinSplit(s: string, sep: char)
    ensures Join(Split(s, sep), sep) == s
    decreases |s|
  {
    match IndexOf(s, sep)
    case None =>
    case Some(k) =>
      var rest := s[k + 1..];
      var tail := Split(rest, sep);
      JoinSplit(rest, sep);
      var r := [s[..k]] + tail;
      assert Split(s, sep) == r;
      assert r[0] == s[..k] && r[1..] == tail && |r| > 1;
      assert Join(r, sep) == s[..k] + [sep] + Join(tail, sep);
      assert s == s[..k] + [sep] + rest;
  }

  /** Splitting a join of separator-free pieces gives the pieces back. */
  lemma {:induction false} SplitJoin(parts: seq<string>, sep: char)
    requires |parts| >= 1
    requires forall i :: 0 <= i < |parts| ==> sep !in parts[i]
    ensures Split(Join(parts, sep), sep) == parts
    decreases |parts|
  {
    var p := parts[0];
    if |parts| == 1 {
      assert IndexOf(p, sep).None?;
    } else {
      var rest := Join(parts[1..], sep);
      var s := p + [sep] + rest;
      assert s[..|p|] == p;
      IndexOfFirst(s, sep, |p|);
      assert s[|p| + 1..] == rest;
      SplitJoin(parts[1..], sep);
      assert parts == [p] + parts[1..];
    }
  }

  // ---------------------------------------------------------------- numbers

  function DigitChar(d: int): (c: char)
    requires 0 <= d < 10
    ensures IsDigit(c)
  {
    ('0' as int + d) as char
  }

  /** Decimal digits of `n`, most significant first, without leading zeros. */
  function NatToString(n: nat): (s: string)
    ensures |s| >= 1
    ensures forall i :: 0 <= i < |s| ==> IsDigit(s[i])
    ensures s[0] == '0' ==> n == 0 && |s| == 1
  {
    if n < 10 then [DigitChar(n)] else NatToString(n / 10) + [DigitChar(n % 10)]
  }

  /** `n.toString()` for an integral JavaScript number. */
  function NumberToString(n: int): string
  {
    if n < 0 then "-" + NatToString(-n) else NatToString(n)
  }

  /** `s.padStart(2, '0')`. */
  function PadStart2(s: string): (r: string)
    ensures |r| == if |s| >= 2 then |s| else 2
    ensures r[|r| - |s|..] == s
    ensures forall i :: 0 <= i < |r| - |s| ==> r[i] == '0'
  {
    if |s| >= 2 then s else if |s| == 1 then "0" + s else "00"
  }

  /** `Math.floor(a / b)` for a positive divisor. */
  function FloorDiv(a: int, b: int): (q: int)
    requires b > 0
    ensures q * b <= a < q * b + b
  {
    a / b
  }

  function Abs(a: int): nat { if a < 0 then -a else a }

  /** JavaScript's `a % b`: the magnitude is `|a| mod |b|` and the sign is the dividend's. */
  function TruncRem(a: int, b: int): (r: int)
    requires b != 0
    ensures Abs(r) == Abs(a) % Abs(b)
    ensures a >= 0 ==> r >= 0
    ensures a <= 0 ==> r <= 0
  {
    if a >= 0 then a % Abs(b) else -((-a) % Abs(b))
  }

  // ---------------------------------------------------------------- parseInt

  /** The value of `c` as a digit of `radix` (10 or 16), when it is one. */
  function DigitIn(c: char, radix: nat): Option<nat>
  {
    if IsDigit(c) then Some(c as int - '0' as int)
    else if radix == 16 && 'a' <= c <= 'f' then Some(c as int - 'a' as int + 10)
    else if radix == 16 && 'A' <= c <= 'F' then Some(c as int - 'A' as int + 10)
    else None
  }

  /** Every character of `s[i..j]` is a digit of `radix`. */
  predicate DigitsBetween(s: string, i: nat, j: nat, radix: nat)
    requires i <= j <= |s|
  {
    forall k :: i <= k < j ==> DigitIn(s[k], radix).Some?
  }

  /** The first index at or after `i` (and below `hi`) that is not whitespace. */
  function SkipSpace(s: string, i: nat, hi: nat): (j: nat)
    requires i <= hi <= |s|
    ensures i <= j <= hi
    ensures j < hi ==> !IsWhitespace(s[j])
    decreases hi - i
  {
    if i < hi && IsWhitespace(s[i]) then SkipSpace(s, i + 1, hi) else i
  }

  /** Everything `SkipSpace` skips is white space. */
  lemma {:induction false} SkipSpaceSkipsWhitespace(s: string, i: nat, hi: nat)
    requires i <= hi <= |s|
    ensures forall k :: i <= k < SkipSpace(s, i, hi) ==> IsWhitespace(s[k])
    decreases hi - i
  {
    if i < hi && IsWhitespace(s[i]) {
      SkipSpaceSkipsWhitespace(s, i + 1, hi);
    }
  }

  /** The end of the run of `radix` digits that starts at `i` (bounded by `hi`). */
  function DigitEnd(s: string, i: nat, hi: nat, radix: nat): (j: nat)
    requires i <= hi <= |s|
    ensures i <= j <= hi
    ensures DigitsBetween(s, i, j, radix)
    ensures j < hi ==> DigitIn(s[j], radix).None?
    decreases hi - i
  {
    if i < hi && DigitIn(s[i], radix).Some? then DigitEnd(s, i + 1, hi, radix) else i
  }

  /** The number the digits `s[i..j]` denote in `radix`. */
  function ValueBetween(s: string, i: nat, j: nat, radix: nat): nat
    requires i <= j <= |s|
    requires DigitsBetween(s, i, j, radix)
    decreases j - i
  {
    if j == i then 0
    else ValueBetween(s, i, j - 1, radix) * radix + DigitIn(s[j - 1], radix).value
  }

  /**
   * `parseInt` applied to the text `s[lo..hi]`, with no radix argument:
   * leading whitespace, an optional sign, an optional `0x`/`0X` prefix that
   * selects base 16, then the longest run of digits of the base. `None`
   * stands for `NaN`; `-0` is represented by 0.
   */
  function ParseIntIn(s: string, lo: nat, hi: nat): Option<int>
    requires lo <= hi <= |s|
  {
    ParseSigned(s, SkipSpace(s, lo, hi), hi)
  }

  /** `parseInt` from its first non-space character: an optional sign, then the magnitude. */
  function ParseSigned(s: string, i: nat, hi: nat): Option<int>
    requires i <= hi <= |s|
  {
    if i < hi && s[i] == '-' then
      var m := ParseMagnitude(s, i + 1, hi);
      if m.Some? then Some(-m.value) else None
    else if i < hi && s[i] == '+' then ParseMagnitude(s, i + 1, hi)
    else ParseMagnitude(s, i, hi)
  }

  /** `parseInt` after the sign: `0x`/`0X` selects base 16, and a missing digit is `NaN`. */
  function ParseMagnitude(s: string, j: nat, hi: nat): Option<int>
    requires j <= hi <= |s|
  {
    var hex := j + 2 <= hi && s[j] == '0' && (s[j + 1] == 'x' || s[j + 1] == 'X');
    var radix := if hex then 16 else 10;
    var start := if hex then j + 2 else j;
    var end := DigitEnd(s, start, hi, radix);
    if end == start then None else Some(ValueBetween(s, start, end, radix) as int)
  }

  /** `parseInt(s)`. */
  function ParseInt(s: string): Option<int>
  {
    ParseIntIn(s, 0, |s|)
  }

  /** The value of a digit run depends only on the characters in it. */
  lemma {:induction false} ValueBetweenAgree(s: string, t: string, i: nat, j: nat, radix: nat)
    requires i <= j <= |s| && j <= |t|
    requires forall k :: i <= k < j ==> s[k] == t[k]
    requires DigitsBetween(s, i, j, radix)
    ensures DigitsBetween(t, i, j, radix)
    ensures ValueBetween(s, i, j, radix) == ValueBetween(t, i, j, radix)
    decreases j - i
  {
    if j > i {
      ValueBetweenAgree(s, t, i, j - 1, radix);
    }
  }

  /** The decimal value of the digits of `NatToString(n)` is `n`. */
  lemma {:induction false} ValueOfNatToString(n: nat)
    ensures DigitsBetween(NatToString(n), 0, |NatToString(n)|, 10)
    ensures ValueBetween(NatToString(n), 0, |NatToString(n)|, 10) == n
  {
    var s := NatToString(n);
    if n >= 10 {
      var p := NatToString(n / 10);
      ValueOfNatToString(n / 10);
      assert s == p + [DigitChar(n % 10)];
      ValueBetweenAgree(p, s, 0, |p|, 10);
    }
  }

  /** A leading zero does not change the value of a digit string. */
  lemma {:induction false} ValueWithLeadingZero(s: string, j: nat)
    requires j <= |s|
    requires DigitsBetween(s, 0, j, 10)
    ensures DigitsBetween("0" + s, 0, j + 1, 10)
    ensures ValueBetween("0" + s, 0, j + 1, 10) == ValueBetween(s, 0, j, 10)
    decreases j
  {
    var z := "0" + s;
    assert forall k :: 1 <= k < j + 1 ==> z[k] == s[k - 1];
    if j > 0 {
      ValueWithLeadingZero(s, j - 1);
      assert z[j] == s[j - 1];
    }
  }

  /**
   * `parseInt` of a window that starts with decimal digits reads them up to the
   * first non-digit, provided they are not a lone `0` followed by an `x`.
   */
  lemma {:induction false} ParseIntOfDigitsIn(s: string, lo: nat, k: nat, hi: nat)
    requires lo < k <= hi <= |s|
    requires DigitsBetween(s, lo, k, 10)
    requires k == hi || !IsDigit(s[k])
    requires k - lo >= 2 || s[lo] != '0' || k == hi || (s[k] != 'x' && s[k] != 'X')
    ensures ParseIntIn(s, lo, hi) == Some(ValueBetween(s, lo, k, 10) as int)
  {
    assert IsDigit(s[lo]);
    assert SkipSpace(s, lo, hi) == lo;
    ParseMagnitudeOfDecimal(s, lo, k, hi);
  }

  /** As above, after a minus sign: the value comes out negated. */
  lemma {:induction false} ParseIntOfNegativeIn(s: string, lo: nat, k: nat, hi: nat)
    requires lo + 1 < k <= hi <= |s|
    requires s[lo] == '-'
    requires DigitsBetween(s, lo + 1, k, 10)
    requires k == hi || !IsDigit(s[k])
    requires k - lo >= 3 || s[lo + 1] != '0' || k == hi || (s[k] != 'x' && s[k] != 'X')
    ensures ParseIntIn(s, lo, hi) == Some(-(ValueBetween(s, lo + 1, k, 10) as int))
  {
    assert SkipSpace(s, lo, hi) == lo;
    ParseMagnitudeOfDecimal(s, lo + 1, k, hi);
  }

  /** A decimal run that ends at `k` and does not read as a `0x` prefix is the magnitude. */
  lemma {:induction false} ParseMagnitudeOfDecimal(s: string, j: nat, k: nat, hi: nat)
    requires j < k <= hi <= |s|
    requires DigitsBetween(s, j, k, 10)
    requires k == hi || !IsDigit(s[k])
    requires k - j >= 2 || s[j] != '0' || k == hi || (s[k] != 'x' && s[k] != 'X')
    ensures ParseMagnitude(s, j, hi) == Some(ValueBetween(s, j, k, 10) as int)
  {
    assert !(j + 2 <= hi && s[j] == '0' && (s[j + 1] == 'x' || s[j + 1] == 'X')) by {
      if j + 1 < k { assert IsDigit(s[j + 1]); }
    }
    DigitEndOfRun(s, j, k, hi);
  }

  lemma {:induction false} DigitEndOfRun(s: string, i: nat, k: nat, hi: nat)
    requires i <= k <= hi <= |s|
    requires DigitsBetween(s, i, k, 10)
    requires k == hi || !IsDigit(s[k])
    ensures DigitEnd(s, i, hi, 10) == k
    decreases k - i
  {
    if i < k {
      DigitEndOfRun(s, i + 1, k, hi);
    }
  }

  /** Digits found at an offset of `s` keep their value there. */
  lemma {:induction false} DigitsAt(s: string, off: nat, d: string)
    requires off + |d| <= |s| && s[off..off + |d|] == d
    requires DigitsBetween(d, 0, |d|, 10)
    ensures DigitsBetween(s, off, off + |d|, 10)
    ensures ValueBetween(s, off, off + |d|, 10) == ValueBetween(d, 0, |d|, 10)
  {
    ValueBetweenShift(s, off, off + |d|);
  }

  lemma {:induction false} ParseIntOfNatIn(s: string, lo: nat, hi: nat, n: nat)
    requires lo + |NatToString(n)| <= hi <= |s|
    requires s[lo..lo + |NatToString(n)|] == NatToString(n)
    requires var e := lo + |NatToString(n)|;
      e == hi || (!IsDigit(s[e]) && s[e] != 'x' && s[e] != 'X')
    ensures ParseIntIn(s, lo, hi) == Some(n as int)
  {
    var d := NatToString(n);
    ValueOfNatToString(n);
    DigitsAt(s, lo, d);
    assert s[lo] == d[0];
    ParseIntOfDigitsIn(s, lo, lo + |d|, hi);
  }

  lemma {:induction false} ParseIntOfNegIn(s: string, lo: nat, hi: nat, m: nat)
    requires m > 0
    requires lo + 1 + |NatToString(m)| <= hi <= |s|
    requires s[lo] == '-' && s[lo + 1..lo + 1 + |NatToString(m)|] == NatToString(m)
    requires var e := lo + 1 + |NatToString(m)|;
      e == hi || (!IsDigit(s[e]) && s[e] != 'x' && s[e] != 'X')
    ensures ParseIntIn(s, lo, hi) == Some(-(m as int))
  {
    var d := NatToString(m);
    ValueOfNatToString(m);
    DigitsAt(s, lo + 1, d);
    assert s[lo + 1] == d[0];
    ParseIntOfNegativeIn(s, lo, lo + 1 + |d|, hi);
  }

  /**
   * `parseInt` inverts `toString` on integers: a window that starts with the
   * text of `n`, followed by nothing or by a character that cannot continue
   * the number, parses to `n`.
   */
  lemma {:induction false} ParseIntOfNumberIn(s: string, lo: nat, hi: nat, n: int)
    requires lo + |NumberToString(n)| <= hi <= |s|
    requires s[lo..lo + |NumberToString(n)|] == NumberToString(n)
    requires var e := lo + |NumberToString(n)|;
      e == hi || (!IsDigit(s[e]) && s[e] != 'x' && s[e] != 'X')
    ensures ParseIntIn(s, lo, hi) == Some(n)
  {
    var t := NumberToString(n);
    if n < 0 {
      var d := NatToString(-n);
      assert t == "-" + d;
      assert s[lo] == t[0];
      assert s[lo + 1..lo + 1 + |d|] == t[1..];
      ParseIntOfNegIn(s, lo, hi, -n);
    } else {
      ParseIntOfNatIn(s, lo, hi, n);
    }
  }

  /** The value of a window equals the value of the same digits cut out as a string of their own. */
  lemma {:induction false} ValueBetweenShift(s: string, i: nat, j: nat)
    requires i <= j <= |s|
    ensures DigitsBetween(s, i, j, 10) <==> DigitsBetween(s[i..j], 0, j - i, 10)
    ensures DigitsBetween(s, i, j, 10) ==> ValueBetween(s, i, j, 10) == ValueBetween(s[i..j], 0, j - i, 10)
    decreases j - i
  {
    var t := s[i..j];
    assert forall k :: i <= k < j ==> s[k] == t[k - i];
    if j > i && DigitsBetween(s, i, j, 10) {
      ValueBetweenShift(s, i, j - 1);
      ValueBetweenAgree(s[i..j - 1], t, 0, j - 1 - i, 10);
    }
  }

  /** The whole-string form: `parseInt(n.toString() + rest)` is `n`. */
  lemma {:induction false} ParseIntOfNumberToString(n: int, rest: string)
    requires rest == [] || (!IsDigit(rest[0]) && rest[0] != 'x' && rest[0] != 'X')
    ensures ParseInt(NumberToString(n) + rest) == Some(n)
  {
    var s := NumberToString(n) + rest;
    assert s[0..|NumberToString(n)|] == NumberToString(n);
    ParseIntOfNumberIn(s, 0, |s|, n);
  }
}
