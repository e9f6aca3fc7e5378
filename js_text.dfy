/** The few JavaScript string operations the components rely on, written out
    with their ECMAScript meaning: `String.prototype.startsWith`,
    `String.prototype.split` on a one-character separator, the decimal text of
    an integer (as produced by a template literal) and the global `parseInt`
    called without a radix.  A `string` is a sequence of Unicode scalar values;
    `Utf16Length` gives the code-unit count that `.length` reports. */
module JsText {
  import opened Wrappers

  // ---------------------------------------------------------------------
  // length, prefixes, splitting

  /** `s.length` in JavaScript: characters outside the Basic Multilingual Plane
      take two UTF-16 code units. */
  function Utf16Length(s: string): (n: nat)
    ensures n >= |s|
    ensures (forall i :: 0 <= i < |s| ==> s[i] as int <= 0xFFFF) ==> n == |s|
  {
    if s == [] then 0
    else (if s[0] as int > 0xFFFF then 2 else 1) + Utf16Length(s[1..])
  }

  /** `s.startsWith(p)`. */
  predicate StartsWith(s: string, p: string) {
    |p| <= |s| && s[..|p|] == p
  }

  /** `s.split(sep)` for a one-character separator: the maximal pieces between
      separators, in order; the empty string splits into one empty piece. */
  function Split(s: string, sep: char): (parts: seq<string>)
    ensures |parts| >= 1
  {
    if s == [] then [""]
    else if s[0] == sep then [""] + Split(s[1..], sep)
    else
      var rest := Split(s[1..], sep);
      [[s[0]] + rest[0]] + rest[1..]
  }

  /** `parts.join(sep)`, the inverse of `Split`. */
  function Join(parts: seq<string>, sep: char): string
    requires |parts| >= 1
  {
    if |parts| == 1 then parts[0] else parts[0] + [sep] + Join(parts[1..], sep)
  }

  /** Splitting loses nothing and no piece holds the separator. */
  lemma {:induction false} SplitJoin(s: string, sep: char)
    ensures Join(Split(s, sep), sep) == s
    ensures forall i :: 0 <= i < |Split(s, sep)| ==> sep !in Split(s, sep)[i]
  {
    if s != [] {
      SplitJoin(s[1..], sep);
      var rest := Split(s[1..], sep);
      if s[0] == sep {
        assert Split(s, sep) == [""] + rest;
        assert Split(s, sep)[1..] == rest;
        assert s == [sep] + s[1..];
      } else {
        var parts := Split(s, sep);
        assert parts == [[s[0]] + rest[0]] + rest[1..];
        assert parts[1..] == rest[1..];
        if |rest| > 1 {
          assert Join(rest, sep) == rest[0] + [sep] + Join(rest[1..], sep);
        }
        assert s == [s[0]] + s[1..];
        forall i | 0 <= i < |parts| ensures sep !in parts[i] {
          if i > 0 { assert parts[i] == rest[i]; }
        }
      }
    }
  }

  /** A separator-free prefix becomes part of the first piece. */
  lemma {:induction false} SplitPlainPrefix(a: string, b: string, sep: char)
    requires sep !in a
    ensures Split(a + b, sep) == [a + Split(b, sep)[0]] + Split(b, sep)[1..]
  {
    if a != [] {
      SplitPlainPrefix(a[1..], b, sep);
      assert (a + b)[0] == a[0];
      assert (a + b)[1..] == a[1..] + b;
      assert [a[0]] + (a[1..] + Split(b, sep)[0]) == a + Split(b, sep)[0];
    } else {
      assert a + b == b;
      var parts := Split(b, sep);
      assert a + parts[0] == parts[0];
      assert parts == [parts[0]] + parts[1..];
    }
  }

  /** `a + sep + b` with separator-free `a` and `b` splits into exactly `[a, b]`. */
  lemma SplitAround(a: string, b: string, sep: char)
    requires sep !in a && sep !in b
    ensures Split(a + [sep] + b, sep) == [a, b]
  {
    SplitPlainPrefix(b, [], sep);
    assert b + [] == b;
    assert Split(b, sep) == [b];
    assert ([sep] + b)[1..] == b;
    assert Split([sep] + b, sep) == ["", b];
    assert a + [sep] + b == a + ([sep] + b);
    SplitPlainPrefix(a, [sep] + b, sep);
    assert a + "" == a;
  }

  // ---------------------------------------------------------------------
  // decimal text of integers

  function DigitChar(d: nat): (c: char)
    requires d < 10
    ensures '0' <= c <= '9' && c as int - '0' as int == d
  {
    (d + '0' as int) as char
  }

  /** The decimal digits of `n`, most significant first, no leading zeros. */
  function NatToString(n: nat): (s: string)
    ensures |s| >= 1
    ensures forall i :: 0 <= i < |s| ==> '0' <= s[i] <= '9'
  {
    if n < 10 then [DigitChar(n)] else NatToString(n / 10) + [DigitChar(n % 10)]
  }

  /** The text `${n}` for an integer `n` below 10^21 in magnitude. */
  function IntToString(n: int): (s: string)
    ensures s != [] && (s[0] == '-' <==> n < 0)
    ensures forall i :: 0 < i < |s| ==> '0' <= s[i] <= '9'
  {
    if n < 0 then "-" + NatToString(-n) else NatToString(n)
  }

  // ---------------------------------------------------------------------
  // parseInt

  /** StrWhiteSpaceChar of ECMAScript: WhiteSpace and LineTerminator. */
  predicate IsJsSpace(c: char) {
    c == ' ' || c == '\t' || c == '\n' || c == '\r' || c == '\U{B}' || c == '\U{C}'
    || c == '\U{A0}' || c == '\U{1680}' || ('\U{2000}' <= c <= '\U{200A}')
    || c == '\U{2028}' || c == '\U{2029}' || c == '\U{202F}' || c == '\U{205F}'
    || c == '\U{3000}' || c == '\U{FEFF}'
  }

  function TrimStart(s: string): (t: string)
    ensures |t| <= |s| && t == s[|s| - |t|..]
    ensures t != [] ==> !IsJsSpace(t[0])
    ensures forall i :: 0 <= i < |s| - |t| ==> IsJsSpace(s[i])
  {
    if s != [] && IsJsSpace(s[0]) then
      var t := TrimStart(s[1..]);
      assert forall i :: 1 <= i < |s| ==> s[1..][i - 1] == s[i];
      t
    else s
  }

  /** The value of `c` as a digit in any radix up to 36, or 36 when it is none. */
  function DigitOf(c: char): nat {
    if '0' <= c <= '9' then c as int - '0' as int
    else if 'a' <= c <= 'z' then c as int - 'a' as int + 10
    else if 'A' <= c <= 'Z' then c as int - 'A' as int + 10
    else 36
  }

  predicate IsDigitIn(c: char, radix: nat) {
    DigitOf(c) < radix
  }

  /** The length of the longest prefix of `s` made of radix digits. */
  function LeadingDigits(s: string, radix: nat): (k: nat)
    ensures k <= |s|
    ensures forall i :: 0 <= i < k ==> IsDigitIn(s[i], radix)
    ensures k < |s| ==> !IsDigitIn(s[k], radix)
  {
    if s != [] && IsDigitIn(s[0], radix) then 1 + LeadingDigits(s[1..], radix) else 0
  }

  /** The number written by the digit string `s` in the given radix. */
  function DigitsValue(s: string, radix: nat): nat
    requires forall i :: 0 <= i < |s| ==> IsDigitIn(s[i], radix)
  {
    if s == [] then 0 else DigitsValue(s[..|s| - 1], radix) * radix + DigitOf(s[|s| - 1])
  }

  /** The longest run of radix digits at the start of `w`, read as a number;
      `None` when `w` does not start with a digit. */
  function ParseDigits(w: string, radix: nat): Option<nat> {
    var k := LeadingDigits(w, radix);
    if k == 0 then None else Some(DigitsValue(w[..k], radix))
  }

  /** The digits after the sign: a `0x`/`0X` prefix selects radix 16, anything
      else is read in radix 10. */
  function ParseUnsigned(u: string): Option<nat> {
    if |u| >= 2 && u[0] == '0' && (u[1] == 'x' || u[1] == 'X') then ParseDigits(u[2..], 16)
    else ParseDigits(u, 10)
  }

  function Negate(m: Option<nat>): Option<int> {
    match m
    case None => None
    case Some(v) => Some(-(v as int))
  }

  /** `parseInt(s)` with no radix argument: skip leading white space, read an
      optional sign, then the digits as `ParseUnsigned` does.  `None` is `NaN`. */
  function ParseInt(s: string): Option<int> {
    var t := TrimStart(s);
    if t != [] && t[0] == '-' then Negate(ParseUnsigned(t[1..]))
    else if t != [] && t[0] == '+' then ParseUnsigned(t[1..])
    else ParseUnsigned(t)
  }

  /** A non-empty all-decimal string reads back as its value. */
  lemma ParseDecimalDigits(w: string)
    requires w != []
    requires forall i :: 0 <= i < |w| ==> '0' <= w[i] <= '9'
    ensures ParseUnsigned(w) == Some(DigitsValue(w, 10))
  {
    assert |w| >= 2 ==> w[1] != 'x' && w[1] != 'X';
    var k := LeadingDigits(w, 10);
    assert k == |w|;
    assert w[..k] == w;
  }

  lemma {:induction false} NatToStringValue(n: nat)
    ensures forall i :: 0 <= i < |NatToString(n)| ==> IsDigitIn(NatToString(n)[i], 10)
    ensures DigitsValue(NatToString(n), 10) == n
  {
    var s := NatToString(n);
    if n >= 10 {
      NatToStringValue(n / 10);
      assert s[..|s| - 1] == NatToString(n / 10);
    }
  }

  /** Text that does not start with white space is left as it is. */
  lemma TrimStartNoSpace(s: string)
    requires s != [] && !IsJsSpace(s[0])
    ensures TrimStart(s) == s
  {
  }

  /** `parseInt` reads back the decimal text of every natural number. */
  lemma ParseNatToString(n: nat)
    ensures ParseInt(NatToString(n)) == Some(n)
  {
    var s := NatToString(n);
    NatToStringValue(n);
    assert !IsJsSpace(s[0]) && s[0] != '-' && s[0] != '+';
    TrimStartNoSpace(s);
    assert ParseInt(s) == ParseUnsigned(s);
    ParseDecimalDigits(s);
  }

  /** A leading minus sign negates what follows it. */
  lemma ParseMinus(s: string)
    requires s != [] && s[0] == '-'
    ensures ParseInt(s) == Negate(ParseUnsigned(s[1..]))
  {
    TrimStartNoSpace(s);
  }

  /** `parseInt` reads back the decimal text of every integer, sign included. */
  lemma ParseIntToString(n: int)
    ensures ParseInt(IntToString(n)) == Some(n)
  {
    if n >= 0 {
      ParseNatToString(n);
    } else {
      ParseNegativeToString(n);
    }
  }

  lemma ParseNegativeToString(n: int)
    requires n < 0
    ensures ParseInt(IntToString(n)) == Some(n)
  {
    ParseUnsignedNatToString(-n);
    ParseNegated(NatToString(-n), -n);
  }

  /** A minus sign before text that reads as `m` reads as `-m`. */
  lemma ParseNegated(d: string, m: nat)
    requires ParseUnsigned(d) == Some(m)
    ensures ParseInt("-" + d) == Some(-(m as int))
  {
    var s := "-" + d;
    ParseMinus(s);
    assert s[1..] == d;
  }

  /** The digits of a natural number read back as that number. */
  lemma ParseUnsignedNatToString(n: nat)
    ensures ParseUnsigned(NatToString(n)) == Some(n)
  {
    NatToStringValue(n);
    ParseDecimalDigits(NatToString(n));
  }

  /** Distinct integers have distinct decimal texts. */
  lemma IntToStringInjective(m: int, n: int)
    requires IntToString(m) == IntToString(n)
    ensures m == n
  {
    ParseIntToString(m);
    ParseIntToString(n);
  }

  /** `parseInt("")` and `parseInt` of text with no leading digit are `NaN`. */
  lemma ParseEmpty()
    ensures ParseInt("") == None
  {
  }
}
