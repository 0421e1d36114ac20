/**
 * Decimal digit strings: the value `parseInt`/`parseFloat` read from the
 * digits a regular expression matched, `Number.prototype.toString` for whole
 * non-negative numbers and `String.prototype.padStart` with `'0'`.
 */
module Decimal {

  /** `\d` in a JavaScript regular expression: the ASCII digits. */
  predicate IsDigit(c: char) {
    '0' <= c <= '9'
  }

  predicate AllDigits(s: string) {
    forall k :: 0 <= k < |s| ==> IsDigit(s[k])
  }

  function DigitValue(c: char): nat
    requires IsDigit(c)
  {
    c as int - '0' as int
  }

  function DigitChar(d: nat): (c: char)
    requires d < 10
    ensures IsDigit(c) && DigitValue(c) == d
  {
    ('0' as int + d) as char
  }

  /** The number a string of digits denotes in base 10. */
  function DigitsValue(s: string): nat
    requires AllDigits(s)
  {
    if s == [] then 0 else 10 * DigitsValue(s[..|s| - 1]) + DigitValue(s[|s| - 1])
  }

  function Pow10(n: nat): (r: nat)
    ensures r >= 1
  {
    if n == 0 then 1 else 10 * Pow10(n - 1)
  }

  /** The value of the digits after a decimal point: `0.d1d2...dn`. */
  function FractionValue(s: string): (r: real)
    requires AllDigits(s)
  {
    DigitsValue(s) as real / Pow10(|s|) as real
  }

  /** A digit string is worth less than ten to the power of its length. */
  lemma {:induction false} DigitsValueBound(s: string)
    requires AllDigits(s)
    ensures DigitsValue(s) < Pow10(|s|)
  {
    if s != [] {
      DigitsValueBound(s[..|s| - 1]);
    }
  }

  /** The fraction `0.d1...dn` lies in [0, 1). */
  lemma {:induction false} FractionValueBound(s: string)
    requires AllDigits(s)
    ensures 0.0 <= FractionValue(s) < 1.0
  {
    DigitsValueBound(s);
    QuotientBelowOne(DigitsValue(s) as real, Pow10(|s|) as real);
  }

  lemma {:induction false} QuotientBelowOne(a: real, p: real)
    requires 0.0 <= a < p
    ensures 0.0 <= a / p < 1.0
  {
    assert a / p * p == a;
  }

  /** `n.toString()` for a whole number `n >= 0`: its shortest decimal numeral. */
  function NatToDecimal(n: nat): (r: string)
    ensures AllDigits(r) && r != []
  {
    if n < 10 then [DigitChar(n)] else NatToDecimal(n / 10) + [DigitChar(n % 10)]
  }

  /** Reading back the numeral gives the number, and the numeral has no leading zero. */
  lemma {:induction false} NatToDecimalValue(n: nat)
    ensures DigitsValue(NatToDecimal(n)) == n
    ensures n >= 10 ==> NatToDecimal(n)[0] != '0'
    ensures |NatToDecimal(n)| == 1 <==> n < 10
  {
    if n >= 10 {
      NatToDecimalValue(n / 10);
      var r := NatToDecimal(n);
      assert r[..|r| - 1] == NatToDecimal(n / 10);
    }
  }

  /** `s.padStart(width, '0')`: zeros in front of `s` up to `width` characters, `s` itself when it is that long. */
  function PadStart(s: string, width: nat): (r: string)
    ensures |r| == if |s| >= width then |s| else width
    ensures forall k :: 0 <= k < |r| ==> r[k] == if k < |r| - |s| then '0' else s[k - (|r| - |s|)]
  {
    if |s| >= width then s else seq(width - |s|, _ => '0') + s
  }

  /** Zeros in front of a digit string do not change its value. */
  lemma {:induction false} LeadingZeros(z: nat, s: string)
    requires AllDigits(s)
    ensures AllDigits(seq(z, _ => '0') + s)
    ensures DigitsValue(seq(z, _ => '0') + s) == DigitsValue(s)
    decreases |s|
  {
    var zs: string := seq(z, _ => '0');
    if s == [] {
      assert zs + s == zs;
      AllZeros(z);
    } else {
      var t := zs + s;
      LeadingZeros(z, s[..|s| - 1]);
      assert t[..|t| - 1] == zs + s[..|s| - 1];
    }
  }

  lemma {:induction false} AllZeros(z: nat)
    ensures AllDigits(seq(z, _ => '0'))
    ensures DigitsValue(seq(z, _ => '0')) == 0
  {
    if z > 0 {
      AllZeros(z - 1);
      assert seq(z, _ => '0')[..z - 1] == seq(z - 1, _ => '0');
    }
  }

  /**
   * `n.toString().padStart(width, '0')` is a digit string of at least `width`
   * characters that reads back as `n`.
   */
  lemma {:induction false} PaddedNumeral(n: nat, width: nat)
    ensures AllDigits(PadStart(NatToDecimal(n), width))
    ensures |PadStart(NatToDecimal(n), width)| >= width
    ensures DigitsValue(PadStart(NatToDecimal(n), width)) == n
  {
    var d := NatToDecimal(n);
    NatToDecimalValue(n);
    if |d| < width {
      LeadingZeros(width - |d|, d);
    }
  }

  /** A two-digit numeral is what zero-padding the number it denotes to width 2 produces. */
  lemma {:induction false} TwoDigitsRoundTrip(s: string)
    requires |s| == 2 && AllDigits(s)
    ensures PadStart(NatToDecimal(DigitsValue(s)), 2) == s
  {
    var n := DigitsValue(s);
    assert s[..1][..0] == [];
    assert s[..1][0] == s[0];
    assert DigitsValue(s[..1]) == DigitValue(s[0]);
    assert n == 10 * DigitValue(s[0]) + DigitValue(s[1]);
    if n < 10 {
      assert s[0] == '0';
      assert NatToDecimal(n) == [s[1]];
      assert PadStart([s[1]], 2) == ['0'] + [s[1]];
    } else {
      assert NatToDecimal(n / 10) == [s[0]];
      assert NatToDecimal(n) == [s[0]] + [s[1]];
    }
  }
}
