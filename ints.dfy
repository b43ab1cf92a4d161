/**
 * Python's `int(s)` and `int(s, 16)` on text, and the decimal and
 * hexadecimal renderings they invert.
 *
 * CPython accepts surrounding whitespace (ASCII 9-13 and space, and every
 * Unicode space at or above U+007F), one optional sign, for base 16 an
 * optional `0x`/`0X` prefix that may be followed by one underscore, and a
 * non-empty run of digits in which single underscores may separate digits.
 */
module Ints {
  import opened Wrappers
  import Text

  /** Whitespace as `int()` sees it. */
  predicate IsIntSpace(c: char) {
    var n := c as int;
    (9 <= n <= 13) || n == 32 || (n >= 127 && Text.IsSpace(c))
  }

  function TrimStart(s: string): (a: nat)
    ensures a <= |s|
  {
    if |s| > 0 && IsIntSpace(s[0]) then 1 + TrimStart(s[1..]) else 0
  }

  lemma {:induction false} TrimStartShape(s: string)
    ensures forall k :: 0 <= k < TrimStart(s) ==> IsIntSpace(s[k])
    ensures TrimStart(s) < |s| ==> !IsIntSpace(s[TrimStart(s)])
    decreases |s|
  {
    if |s| > 0 && IsIntSpace(s[0]) {
      TrimStartShape(s[1..]);
      assert forall k :: 1 <= k < |s| ==> s[k] == s[1..][k - 1];
    }
  }

  function TrimEnd(s: string): (b: nat)
    ensures b <= |s|
  {
    if |s| > 0 && IsIntSpace(s[|s| - 1]) then TrimEnd(s[..|s| - 1]) else |s|
  }

  lemma {:induction false} TrimEndShape(s: string)
    ensures forall k :: TrimEnd(s) <= k < |s| ==> IsIntSpace(s[k])
    ensures TrimEnd(s) > 0 ==> !IsIntSpace(s[TrimEnd(s) - 1])
    decreases |s|
  {
    if |s| > 0 && IsIntSpace(s[|s| - 1]) {
      TrimEndShape(s[..|s| - 1]);
    }
  }

  /** `s` without the whitespace `int()` skips on either side. */
  function Trim(s: string): (r: string)
    ensures |r| <= |s|
  {
    var a := TrimStart(s);
    TrimStartShape(s);
    TrimEndShape(s);
    if a == |s| then [] else s[a..TrimEnd(s)]
  }

  /** What `int()` reads is a slice of its text that neither starts nor ends with whitespace. */
  lemma TrimShape(s: string)
    ensures TrimStart(s) + |Trim(s)| <= |s| && Trim(s) == s[TrimStart(s)..TrimStart(s) + |Trim(s)|]
    ensures Trim(s) == [] || (!IsIntSpace(Trim(s)[0]) && !IsIntSpace(Trim(s)[|Trim(s)| - 1]))
  {
    TrimStartShape(s);
    TrimEndShape(s);
    var a, b := TrimStart(s), TrimEnd(s);
    if a < |s| {
      assert !IsIntSpace(s[a]);
      assert a < b;
      var r := Trim(s);
      assert r == s[a..b];
      assert r[0] == s[a] && r[|r| - 1] == s[b - 1];
    }
  }

  /** Value of a digit character in bases up to 36. */
  function DigitValue(c: char): Option<nat> {
    if '0' <= c <= '9' then Some(c as int - '0' as int)
    else if 'a' <= c <= 'z' then Some(c as int - 'a' as int + 10)
    else if 'A' <= c <= 'Z' then Some(c as int - 'A' as int + 10)
    else None
  }

  predicate IsDigit(c: char, base: nat) {
    DigitValue(c).Some? && DigitValue(c).value < base
  }

  /** Digits with single underscores between them, as `int()` accepts. */
  predicate WellFormedDigits(v: string, base: nat) {
    && |v| > 0
    && IsDigit(v[0], base)
    && IsDigit(v[|v| - 1], base)
    && (forall k :: 0 <= k < |v| ==> IsDigit(v[k], base) || v[k] == '_')
    && SingleUnderscores(v)
  }

  /** No two underscores in a row. */
  predicate SingleUnderscores(v: string)
    decreases |v|
  {
    |v| < 2 || (!(v[0] == '_' && v[1] == '_') && SingleUnderscores(v[1..]))
  }

  lemma {:induction false} NoUnderscores(v: string)
    requires forall k :: 0 <= k < |v| ==> v[k] != '_'
    ensures SingleUnderscores(v)
    decreases |v|
  {
    if |v| >= 2 {
      assert v[0] != '_';
      NoUnderscores(v[1..]);
    }
  }

  /** The number a run of digits and underscores denotes; underscores are skipped. */
  function DigitsValue(v: string, base: nat): nat
    requires forall k :: 0 <= k < |v| ==> IsDigit(v[k], base) || v[k] == '_'
  {
    if |v| == 0 then 0
    else
      var init, last := v[..|v| - 1], v[|v| - 1];
      assert forall k :: 0 <= k < |init| ==> init[k] == v[k];
      assert IsDigit(last, base) || last == '_';
      var high := DigitsValue(init, base);
      if last == '_' then high
      else
        MulNat(high, base);
        high * base + DigitValue(last).value
  }

  lemma MulNat(a: nat, b: nat)
    ensures a * b >= 0
  {
  }

  /** The text left after the sign, for the sign and the digits. */
  function Unsigned(t: string): (u: string)
    ensures |u| <= |t| && u == t[|t| - |u|..]
  {
    if |t| > 0 && (t[0] == '-' || t[0] == '+') then t[1..] else t
  }

  /** The digits after an optional `0x` prefix (base 16 only) and its one underscore. */
  function Unprefixed(u: string, base: nat): (v: string)
    ensures |v| <= |u| && v == u[|u| - |v|..]
  {
    if base == 16 && |u| >= 2 && u[0] == '0' && (u[1] == 'x' || u[1] == 'X') then
      if |u| > 2 && u[2] == '_' then u[3..] else u[2..]
    else u
  }

  /** Python's `int(s, base)` for base 10 or 16; `None` where Python raises `ValueError`. */
  function ParseInt(s: string, base: nat): (r: Option<int>)
    requires base == 10 || base == 16
  {
    var t := Trim(s);
    var negative := |t| > 0 && t[0] == '-';
    var v := Unprefixed(Unsigned(t), base);
    if WellFormedDigits(v, base) then
      var n: int := DigitsValue(v, base);
      Some(if negative then -n else n)
    else None
  }

  /** The character for a digit value, lower case for values above 9. */
  function DigitChar(d: nat): (c: char)
    requires d < 16
    ensures DigitValue(c) == Some(d)
  {
    if d < 10 then ('0' as int + d) as char else ('a' as int + d - 10) as char
  }

  /** The digits of `n` in `base`, most significant first, without leading zeros. */
  function Digits(n: nat, base: nat): (s: string)
    requires base == 10 || base == 16
    ensures |s| > 0
    ensures forall k :: 0 <= k < |s| ==> IsDigit(s[k], base)
    ensures s[0] == '0' ==> n == 0 && |s| == 1
  {
    if n < base then [DigitChar(n)]
    else Digits(n / base, base) + [DigitChar(n % base)]
  }

  /** Python's `str(n)`. */
  function Decimal(n: int): string {
    if n < 0 then "-" + Digits(-n, 10) else Digits(n, 10)
  }

  /** `str(n)` holds only a sign and decimal digits, so no separator of a URL. */
  lemma DecimalChars(n: int)
    ensures '/' !in Decimal(n) && ':' !in Decimal(n) && ' ' !in Decimal(n)
  {
    var d := Decimal(n);
    var m := if n < 0 then -n else n;
    assert forall k :: 0 <= k < |Digits(m, 10)| ==> IsDigit(Digits(m, 10)[k], 10);
    if n < 0 {
      assert forall k :: 1 <= k < |d| ==> d[k] == Digits(m, 10)[k - 1];
    }
  }

  /** Python's `format(n, "x")` for a non-negative `n`. */
  function Hex(n: nat): string {
    Digits(n, 16)
  }

  lemma {:induction false} DigitsValueOfDigits(n: nat, base: nat)
    requires base == 10 || base == 16
    ensures DigitsValue(Digits(n, base), base) == n
    decreases n
  {
    var s := Digits(n, base);
    if n >= base {
      DigitsValueOfDigits(n / base, base);
      assert s[..|s| - 1] == Digits(n / base, base);
    }
  }

  lemma DigitsWellFormed(n: nat, base: nat)
    requires base == 10 || base == 16
    ensures WellFormedDigits(Digits(n, base), base)
  {
    var s := Digits(n, base);
    assert forall k :: 0 <= k < |s| ==> s[k] != '_' by {
      forall k | 0 <= k < |s| ensures s[k] != '_' {
        assert IsDigit(s[k], base);
      }
    }
    NoUnderscores(s);
  }

  lemma TrimOfDigitText(s: string)
    requires |s| > 0 && !IsIntSpace(s[0]) && !IsIntSpace(s[|s| - 1])
    ensures Trim(s) == s
  {
    assert TrimStart(s) == 0;
    assert TrimEnd(s) == |s|;
  }

  /** `int()` of a bare run of digits, as `str` and `format` write them. */
  lemma ParseDigitRun(d: string, base: nat, negative: bool)
    requires base == 10 || base == 16
    requires WellFormedDigits(d, base)
    requires base == 16 && |d| >= 2 ==> d[0] != '0'
    ensures var n: int := DigitsValue(d, base);
      ParseInt(if negative then "-" + d else d, base) == Some(if negative then -n else n)
  {
    var s := if negative then "-" + d else d;
    assert s[|s| - 1] == d[|d| - 1];
    assert IsDigit(s[|s| - 1], base);
    assert s[0] == '-' || IsDigit(s[0], base);
    TrimOfDigitText(s);
    assert Unsigned(s) == d by {
      if negative { assert s[1..] == d; }
    }
    ParseIntSteps(s, d, base, negative);
  }

  lemma ParseIntSteps(s: string, d: string, base: nat, negative: bool)
    requires base == 10 || base == 16
    requires Trim(s) == s && Unsigned(s) == d && Unprefixed(d, base) == d
    requires (|s| > 0 && s[0] == '-') == negative
    requires WellFormedDigits(d, base)
    ensures var n: int := DigitsValue(d, base);
      ParseInt(s, base) == Some(if negative then -n else n)
  {
  }

  /** `int(str(n)) == n` for every integer. */
  lemma ParseDecimal(n: int)
    ensures ParseInt(Decimal(n), 10) == Some(n)
  {
    var m := if n < 0 then -n else n;
    DigitsWellFormed(m, 10);
    DigitsValueOfDigits(m, 10);
    ParseDigitRun(Digits(m, 10), 10, n < 0);
  }

  /** `int(format(n, "x"), 16) == n` for every non-negative integer. */
  lemma ParseHex(n: nat)
    ensures ParseInt(Hex(n), 16) == Some(n)
  {
    DigitsWellFormed(n, 16);
    DigitsValueOfDigits(n, 16);
    ParseDigitRun(Digits(n, 16), 16, false);
  }

  /** `int()` of text without a single digit, such as a blank line, fails. */
  lemma NoDigitNoNumber(s: string, base: nat)
    requires base == 10 || base == 16
    requires forall k :: 0 <= k < |s| ==> !IsDigit(s[k], base)
    ensures ParseInt(s, base) == None
  {
    var t := Trim(s);
    var v := Unprefixed(Unsigned(t), base);
    assert !WellFormedDigits(v, base) by {
      TrimShape(s);
      if |v| > 0 {
        assert v[0] == t[|t| - |v|] == s[TrimStart(s) + |t| - |v|];
      }
    }
  }
}
