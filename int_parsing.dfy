/**
 * JavaScript's `parseInt(s, 10)`, which the controller applies to the age
 * and to the page and page-size query strings. NaN is modelled as `None`.
 */
module IntParsing {
  import opened Wrappers

  /** The characters `parseInt` strips from the front (white space and line terminators). */
  predicate IsJsWhiteSpace(c: char) {
    || c == '\t' || c == '\n' || c == '\U{000B}' || c == '\U{000C}' || c == '\r' || c == ' '
    || c == '\U{00A0}' || c == '\U{1680}' || ('\U{2000}' <= c <= '\U{200A}')
    || c == '\U{2028}' || c == '\U{2029}' || c == '\U{202F}' || c == '\U{205F}'
    || c == '\U{3000}' || c == '\U{FEFF}'
  }

  predicate IsDigit(c: char) {
    '0' <= c <= '9'
  }

  predicate AllDigits(s: string) {
    forall i :: 0 <= i < |s| ==> IsDigit(s[i])
  }

  function DigitValue(c: char): (d: nat)
    requires IsDigit(c)
    ensures d < 10
  {
    (c as int) - ('0' as int)
  }

  function DigitChar(d: nat): (c: char)
    requires d < 10
    ensures IsDigit(c) && DigitValue(c) == d
  {
    ('0' as int + d) as char
  }

  /** Drops the leading white space. */
  function TrimStart(s: string): (r: string)
    ensures |r| <= |s| && r == s[|s| - |r|..]
    ensures forall i :: 0 <= i < |s| - |r| ==> IsJsWhiteSpace(s[i])
    ensures r == [] || !IsJsWhiteSpace(r[0])
    decreases |s|
  {
    if s != [] && IsJsWhiteSpace(s[0]) then TrimStart(s[1..]) else s
  }

  /** The longest run of decimal digits at the front of `s`. */
  function DigitPrefix(s: string): (r: string)
    ensures |r| <= |s| && r == s[..|r|]
    ensures AllDigits(r)
    ensures |r| == |s| || !IsDigit(s[|r|])
    decreases |s|
  {
    if s != [] && IsDigit(s[0]) then [s[0]] + DigitPrefix(s[1..]) else []
  }

  /** The number a string of decimal digits denotes (most significant first). */
  function DigitsValue(d: string): nat
    requires AllDigits(d)
    decreases |d|
  {
    if d == [] then 0 else DigitsValue(d[..|d| - 1]) * 10 + DigitValue(d[|d| - 1])
  }

  /** What remains once white space and one optional sign are removed. */
  function Unsigned(s: string): string {
    var t := TrimStart(s);
    if t != [] && (t[0] == '-' || t[0] == '+') then t[1..] else t
  }

  /** True when a minus sign follows the leading white space. */
  predicate IsNegative(s: string) {
    var t := TrimStart(s);
    t != [] && t[0] == '-'
  }

  /**
   * `parseInt(s, 10)`: NaN exactly when no digit follows the white space and
   * the optional sign; otherwise the value of the longest digit run, negated
   * after a minus sign. Whatever follows the digits is ignored.
   */
  function ParseInt(s: string): (r: Option<int>)
    ensures r.None? <==> Unsigned(s) == [] || !IsDigit(Unsigned(s)[0])
    ensures r.Some? ==> r.value == (if IsNegative(s) then -1 else 1) * DigitsValue(DigitPrefix(Unsigned(s)))
  {
    var digits := DigitPrefix(Unsigned(s));
    if digits == [] then None
    else
      var magnitude: int := DigitsValue(digits);
      Some(if IsNegative(s) then -magnitude else magnitude)
  }

  /** The decimal rendering of a natural number, without leading zeros. */
  function DecimalDigits(n: nat): (r: string)
    ensures r != [] && AllDigits(r)
    decreases n
  {
    if n < 10 then [DigitChar(n)] else DecimalDigits(n / 10) + [DigitChar(n % 10)]
  }

  /** The decimal rendering of an integer, as `String(n)` gives it. */
  function Decimal(n: int): string {
    if n < 0 then "-" + DecimalDigits(-n) else DecimalDigits(n)
  }

  lemma {:induction false} DigitsValueOfDecimal(n: nat)
    ensures DigitsValue(DecimalDigits(n)) == n
    decreases n
  {
    if n >= 10 {
      var d := DecimalDigits(n);
      DigitsValueOfDecimal(n / 10);
      assert d[..|d| - 1] == DecimalDigits(n / 10);
    }
  }

  lemma {:induction false} DigitPrefixOfDigits(s: string)
    requires AllDigits(s)
    ensures DigitPrefix(s) == s
    decreases |s|
  {
    if s != [] {
      DigitPrefixOfDigits(s[1..]);
    }
  }

  /** Parsing the digits of a natural number gives the number back. */
  lemma ParseNatural(n: nat)
    ensures ParseInt(DecimalDigits(n)) == Some(n)
  {
    var d := DecimalDigits(n);
    assert IsDigit(d[0]) && !IsJsWhiteSpace(d[0]);
    assert TrimStart(d) == d;
    assert Unsigned(d) == d && !IsNegative(d);
    DigitPrefixOfDigits(d);
    DigitsValueOfDecimal(n);
  }

  /** Parsing a minus sign followed by the digits of `m` gives `-m`. */
  lemma ParseNegated(m: nat)
    ensures ParseInt("-" + DecimalDigits(m)) == Some(-(m as int))
  {
    var d := DecimalDigits(m);
    var s := "-" + d;
    assert s[0] == '-' && !IsJsWhiteSpace(s[0]);
    assert TrimStart(s) == s;
    assert s[1..] == d;
    assert Unsigned(s) == d && IsNegative(s);
    DigitPrefixOfDigits(d);
    DigitsValueOfDecimal(m);
  }

  /** Parsing the decimal rendering of any integer gives the integer back. */
  lemma ParseDecimal(n: int)
    ensures ParseInt(Decimal(n)) == Some(n)
  {
    if n < 0 {
      ParseNegated(-n);
    } else {
      ParseNatural(n);
    }
  }

  /** The query defaults "1" and "10" parse to 1 and 10. */
  lemma ParseDefaults()
    ensures ParseInt("1") == Some(1)
    ensures ParseInt("10") == Some(10)
  {
    assert DigitChar(1) == '1' && DigitChar(0) == '0';
    assert DecimalDigits(1) == "1";
    assert DecimalDigits(10) == DecimalDigits(1) + [DigitChar(0)] == "10";
    ParseNatural(1);
    ParseNatural(10);
  }

  lemma {:induction false} TrimWhiteSpace(ws: string, t: string)
    requires forall i :: 0 <= i < |ws| ==> IsJsWhiteSpace(ws[i])
    requires t == [] || !IsJsWhiteSpace(t[0])
    ensures TrimStart(ws + t) == t
    decreases |ws|
  {
    if ws == [] {
      assert ws + t == t;
    } else {
      assert (ws + t)[1..] == ws[1..] + t;
      TrimWhiteSpace(ws[1..], t);
    }
  }

  lemma {:induction false} DigitsThenRest(d: string, rest: string)
    requires AllDigits(d)
    requires rest == [] || !IsDigit(rest[0])
    ensures DigitPrefix(d + rest) == d
    decreases |d|
  {
    if d == [] {
      assert d + rest == rest;
    } else {
      assert (d + rest)[1..] == d[1..] + rest;
      DigitsThenRest(d[1..], rest);
      assert d == [d[0]] + d[1..];
    }
  }

  lemma DigitIsNotWhiteSpace(c: char)
    requires IsDigit(c)
    ensures !IsJsWhiteSpace(c)
  {
  }

  lemma {:induction false} UnsignedOfDigits(s: string, t: string)
    requires TrimStart(s) == t && t != [] && IsDigit(t[0])
    ensures Unsigned(s) == t && !IsNegative(s)
  {
  }

  /**
   * Leading white space is skipped and whatever follows the digits is
   * ignored, as long as it does not start with another digit.
   */
  lemma ParseIgnoresSuffix(ws: string, n: nat, rest: string)
    requires forall i :: 0 <= i < |ws| ==> IsJsWhiteSpace(ws[i])
    requires rest == [] || !IsDigit(rest[0])
    ensures ParseInt(ws + DecimalDigits(n) + rest) == Some(n)
  {
    var d := DecimalDigits(n);
    var t := d + rest;
    assert ws + d + rest == ws + t;
    assert t[0] == d[0];
    DigitIsNotWhiteSpace(t[0]);
    TrimWhiteSpace(ws, t);
    UnsignedOfDigits(ws + t, t);
    DigitsThenRest(d, rest);
    DigitsValueOfDecimal(n);
  }

  /** Two digits parse to the number they denote. */
  lemma ParseTwoDigits(s: string)
    requires |s| == 2 && IsDigit(s[0]) && IsDigit(s[1])
    ensures ParseInt(s) == Some(DigitValue(s[0]) * 10 + DigitValue(s[1]))
  {
    DigitIsNotWhiteSpace(s[0]);
    assert TrimStart(s) == s;
    UnsignedOfDigits(s, s);
    DigitPrefixOfDigits(s);
    assert s[..1] == [s[0]] && s[..1][..0] == [];
    assert DigitsValue(s[..1]) == DigitValue(s[0]);
    assert DigitsValue(s) == DigitsValue(s[..1]) * 10 + DigitValue(s[1]);
  }

  /** `parseInt(" 42abc", 10)` is 42. */
  lemma ParseWithSuffix()
    ensures ParseInt(" 42abc") == Some(42)
  {
    assert DigitChar(4) == '4' && DigitChar(2) == '2';
    assert DecimalDigits(42) == DecimalDigits(4) + [DigitChar(2)] == "42";
    assert " " + "42" + "abc" == " 42abc";
    ParseIgnoresSuffix(" ", 42, "abc");
  }

  /** Strings with no digits after the sign are NaN. */
  lemma ParseNaN()
    ensures ParseInt("abc") == None
    ensures ParseInt("") == None
    ensures ParseInt("-") == None
  {
  }
}
