/**
 * The global `parseInt(string)` of JavaScript, called without a radix, as the
 * port parser uses it. NaN is `None`. The value is the exact integer; the
 * rounding of a very long digit string to a double is not modelled (see the
 * README), and cannot move a value across the bounds 1 and 65535 the caller tests.
 */
module JsNumber {

  import opened Common
  import opened Text

  predicate IsRadixDigit(c: char, radix: nat)
  {
    if radix == 16 then IsHexDigit(c) else IsDecimalDigit(c)
  }

  function DigitValue(c: char): nat
  {
    if IsDecimalDigit(c) then c as int - '0' as int
    else if 'a' <= c <= 'f' then c as int - 'a' as int + 10
    else if 'A' <= c <= 'F' then c as int - 'A' as int + 10
    else 0
  }

  /** The longest prefix of `s` made of digits of the radix. */
  function DigitPrefix(s: string, radix: nat): string
  {
    if s != [] && IsRadixDigit(s[0], radix) then [s[0]] + DigitPrefix(s[1..], radix) else []
  }

  /** The number a digit string denotes, most significant digit first. */
  function DigitsValue(z: string, radix: nat): nat
  {
    if z == [] then 0 else DigitsValue(z[..|z| - 1], radix) * radix + DigitValue(z[|z| - 1])
  }

  /**
   * `parseInt(s)`: skip leading white space, take an optional sign, switch to
   * radix 16 after a `0x`/`0X` prefix, read the longest run of digits; no digit
   * at all gives NaN.
   */
  function ParseInt(s: string): Option<int>
  {
    var t := TrimStart(s);
    var negative := |t| > 0 && t[0] == '-';
    var u := if |t| > 0 && (t[0] == '-' || t[0] == '+') then t[1..] else t;
    var hex := |u| >= 2 && u[0] == '0' && (u[1] == 'x' || u[1] == 'X');
    var radix := if hex then 16 else 10;
    var digits := DigitPrefix(if hex then u[2..] else u, radix);
    var value: int := DigitsValue(digits, radix);
    if digits == [] then None
    else if negative then Some(-value)
    else Some(value)
  }

  /** JavaScript truthiness of a number: NaN and zero are false. */
  predicate Truthy(n: Option<int>)
  {
    n.Some? && n.value != 0
  }

  lemma {:induction false} DecimalDigitsValue(n: nat)
    ensures DigitsValue(DecimalString(n), 10) == n
  {
    var d := DecimalString(n);
    if n >= 10 {
      DecimalDigitsValue(n / 10);
      assert d[..|d| - 1] == DecimalString(n / 10);
    }
  }

  lemma {:induction false} DigitPrefixStopsAt(z: string, rest: string, radix: nat)
    requires forall i :: 0 <= i < |z| ==> IsRadixDigit(z[i], radix)
    requires rest == [] || !IsRadixDigit(rest[0], radix)
    ensures DigitPrefix(z + rest, radix) == z
  {
    if z != [] {
      assert (z + rest)[1..] == z[1..] + rest;
      DigitPrefixStopsAt(z[1..], rest, radix);
    }
  }

  /**
   * A positive number written in decimal, followed by anything that does not
   * continue the digits, parses back to that number: `parseInt("80")` is 80 and
   * `parseInt("80abc")` is 80 too.
   */
  lemma ParseIntReadsDecimal(n: nat, rest: string)
    requires n > 0
    requires rest == [] || !IsDecimalDigit(rest[0])
    ensures ParseInt(DecimalString(n) + rest) == Some(n)
  {
    var d := DecimalString(n);
    var s := d + rest;
    assert s[0] == d[0] && IsDecimalDigit(d[0]);
    assert TrimStart(s) == s;
    assert !(s[0] == '-' || s[0] == '+');
    assert !(|s| >= 2 && s[0] == '0');
    DigitPrefixStopsAt(d, rest, 10);
    DecimalDigitsValue(n);
  }

  lemma ParseIntOfDecimal(n: nat)
    requires n > 0
    ensures ParseInt(DecimalString(n)) == Some(n)
  {
    ParseIntReadsDecimal(n, []);
    assert DecimalString(n) + [] == DecimalString(n);
  }
}
