/**
 * Integer text as the JavaScript runtime reads and writes it: `parseInt` with no
 * radix argument (which yields NaN, here `None`, when no digit is found) and
 * `Number.prototype.toString` on an integer value.
 */
module Numerals {
  import opened Wrappers

  predicate IsDigit(c: char) { '0' <= c <= '9' }

  predicate IsHexDigit(c: char) { IsDigit(c) || 'a' <= c <= 'f' || 'A' <= c <= 'F' }

  /** `parseInt` reads decimal digits, or hexadecimal ones after a "0x" prefix. */
  predicate IsRadixDigit(c: char, hex: bool) { if hex then IsHexDigit(c) else IsDigit(c) }

  predicate AllRadixDigits(s: string, hex: bool) { forall i :: 0 <= i < |s| ==> IsRadixDigit(s[i], hex) }

  predicate IsDigits(s: string) { AllRadixDigits(s, false) }

  /** The characters that the StrWhiteSpaceChar production of ECMAScript lets `parseInt` skip. */
  predicate IsJsSpace(c: char)
  {
    c == '\t' || c == '\n' || c == '\U{B}' || c == '\U{C}' || c == '\r' || c == ' '
    || c == '\U{A0}' || c == '\U{1680}' || ('\U{2000}' <= c <= '\U{200A}')
    || c == '\U{2028}' || c == '\U{2029}' || c == '\U{202F}' || c == '\U{205F}'
    || c == '\U{3000}' || c == '\U{FEFF}'
  }

  function DigitValue(c: char): (d: nat)
    requires IsHexDigit(c)
    ensures d < 16
    ensures IsDigit(c) ==> d < 10
  {
    if IsDigit(c) then c as int - '0' as int
    else if 'a' <= c <= 'f' then c as int - 'a' as int + 10
    else c as int - 'A' as int + 10
  }

  function DigitChar(d: nat): (c: char)
    requires d < 10
    ensures IsDigit(c) && DigitValue(c) == d
  {
    (('0' as int) + d) as char
  }

  /** The number a digit string denotes, most significant digit first. */
  function ValueOf(s: string, hex: bool): nat
    requires AllRadixDigits(s, hex)
  {
    if s == [] then 0
    else ValueOf(s[..|s| - 1], hex) * (if hex then 16 else 10) + DigitValue(s[|s| - 1])
  }

  /** The leading whitespace that `parseInt` skips, removed. */
  function TrimStart(s: string): (t: string)
    ensures |t| <= |s| && t == s[|s| - |t|..]
    ensures forall i :: 0 <= i < |s| - |t| ==> IsJsSpace(s[i])
    ensures t == [] || !IsJsSpace(t[0])
  {
    if s != [] && IsJsSpace(s[0]) then TrimStart(s[1..]) else s
  }

  /** The longest prefix of `s` made of digits of the radix. */
  function DigitPrefix(s: string, hex: bool): (p: string)
    ensures p <= s && AllRadixDigits(p, hex)
    ensures |p| < |s| ==> !IsRadixDigit(s[|p|], hex)
  {
    if s != [] && IsRadixDigit(s[0], hex) then [s[0]] + DigitPrefix(s[1..], hex) else []
  }

  predicate HasHexPrefix(u: string) { |u| >= 2 && u[0] == '0' && (u[1] == 'x' || u[1] == 'X') }

  /** The unsigned part of `parseInt`: "0x" or "0X" selects radix 16, and no digit at all is NaN. */
  function ParseUnsigned(u: string): (r: Option<int>)
    ensures r.None? <==> if HasHexPrefix(u) then |u| == 2 || !IsHexDigit(u[2]) else u == [] || !IsDigit(u[0])
  {
    var hex := HasHexPrefix(u);
    var p := DigitPrefix(if hex then u[2..] else u, hex);
    if p == [] then None else Some(ValueOf(p, hex) as int)
  }

  /** `parseInt` after the whitespace: an optional sign, then the unsigned part, which a minus negates. */
  function ParseSigned(t: string): (r: Option<int>)
    ensures t == [] ==> r == None
    ensures t != [] && t[0] == '+' ==> r == ParseUnsigned(t[1..])
    ensures t != [] && t[0] == '-' && r.Some? ==> r.value <= 0
    ensures (t == [] || t[0] != '-') && r.Some? ==> r.value >= 0
  {
    var signed := t != [] && (t[0] == '-' || t[0] == '+');
    match ParseUnsigned(if signed then t[1..] else t)
    case None => None
    case Some(v) => Some(if signed && t[0] == '-' then -v else v)
  }

  /** `parseInt(s)` with no radix: leading whitespace is skipped first. */
  function ParseInt(s: string): (r: Option<int>)
    ensures s == [] ==> r == None
  {
    ParseSigned(TrimStart(s))
  }

  /** A nonempty string of decimal digits is read exactly. */
  lemma ParseUnsignedOfDigits(d: string)
    requires d != [] && IsDigits(d)
    ensures ParseUnsigned(d) == Some(ValueOf(d, false) as int)
  {
    assert !HasHexPrefix(d) by { assert |d| >= 2 ==> IsDigit(d[1]); }
    assert DigitPrefix(d, false) == d;
  }

  lemma TrimStartIdle(s: string)
    requires s != [] && !IsJsSpace(s[0])
    ensures ParseInt(s) == ParseSigned(s)
  {
    assert TrimStart(s) == s;
  }

  lemma ParseSignedMinus(t: string, v: int)
    requires t != [] && t[0] == '-' && ParseUnsigned(t[1..]) == Some(v)
    ensures ParseSigned(t) == Some(-v)
  {
  }

  lemma ParseSignedUnsigned(t: string)
    requires t != [] && t[0] != '-' && t[0] != '+'
    ensures ParseSigned(t) == ParseUnsigned(t)
  {
  }

  lemma ParseIntOfDigits(d: string)
    requires d != [] && IsDigits(d)
    ensures ParseInt(d) == Some(ValueOf(d, false))
  {
    assert IsDigit(d[0]);
    assert ParseUnsigned(d) == Some(ValueOf(d, false) as int) by { ParseUnsignedOfDigits(d); }
    assert ParseSigned(d) == ParseUnsigned(d) by { ParseSignedUnsigned(d); }
    TrimStartIdle(d);
  }

  /** A minus sign followed by decimal digits is read as the negated value. */
  lemma ParseIntOfNegated(t: string)
    requires |t| >= 2 && t[0] == '-' && IsDigits(t[1..])
    ensures ParseInt(t) == Some(-(ValueOf(t[1..], false) as int))
  {
    var v: int := ValueOf(t[1..], false);
    assert ParseUnsigned(t[1..]) == Some(v) by { ParseUnsignedOfDigits(t[1..]); }
    assert ParseSigned(t) == Some(-v) by { ParseSignedMinus(t, v); }
    TrimStartIdle(t);
  }

  /** Decimal text of a natural number, without leading zeros. */
  function NatToString(n: nat): (s: string)
    ensures s != [] && IsDigits(s)
    ensures n < 10 ==> |s| == 1
    ensures n < 100 ==> |s| <= 2
    ensures n < 1000 ==> |s| <= 3
  {
    if n < 10 then [DigitChar(n)] else NatToString(n / 10) + [DigitChar(n % 10)]
  }

  /** The decimal text denotes the number it was made from. */
  lemma {:induction false} NatToStringValue(n: nat)
    ensures ValueOf(NatToString(n), false) == n
  {
    if n >= 10 {
      var t := NatToString(n / 10);
      var s := NatToString(n);
      NatToStringValue(n / 10);
      assert s[..|s| - 1] == t;
    }
  }

  /** `Number.prototype.toString` on an integer value. */
  function IntToString(x: int): (s: string)
    ensures s != [] && (s[0] == '-' <==> x < 0)
    ensures x >= 0 ==> IsDigits(s)
    ensures x < 0 ==> IsDigits(s[1..])
  {
    if x < 0 then "-" + NatToString(-x) else NatToString(x)
  }

  /** What is written with `toString` is read back by `parseInt` unchanged. */
  lemma ParseIntOfIntToString(x: int)
    ensures ParseInt(IntToString(x)) == Some(x)
  {
    var s := IntToString(x);
    if x < 0 {
      var d := NatToString(-x);
      assert s[1..] == d;
      assert ValueOf(d, false) == -x by { NatToStringValue(-x); }
      ParseIntOfNegated(s);
    } else {
      assert ValueOf(s, false) == x by { NatToStringValue(x); }
      ParseIntOfDigits(s);
    }
  }

  /** The last two characters of "00" followed by a decimal text are the tens and units digits. */
  lemma LastTwoDigits(n: nat)
    ensures var z := "00" + NatToString(n);
      z[|z| - 2..] == [DigitChar((n / 10) % 10), DigitChar(n % 10)]
  {
    var s := NatToString(n);
    var z := "00" + s;
    if n >= 10 {
      var t := NatToString(n / 10);
      assert s == t + [DigitChar(n % 10)];
      assert z[|z| - 2] == t[|t| - 1];
    }
  }
}
