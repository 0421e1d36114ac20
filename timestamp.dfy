/**
 * The timestamp arithmetic of macro.js: the `adjustTime` replacement
 * callback, which shifts one `H:M:S(.f)` timestamp and prints it back as
 * zero-padded `HH:MM:SS`, and the stand-alone formatter `formatSecondsToHMS`.
 *
 * Numbers are exact reals. `Math.floor` is `.Floor`; the JavaScript `%` is
 * only ever applied here to a non-negative dividend, where it is
 * `x - m * floor(x / m)`.
 */
module Timestamp {
  import opened Wrappers
  import opened Decimal
  import opened Strings

  /** `x % m` in JavaScript, for `x >= 0` and a positive whole `m`. */
  function Rem(x: real, m: nat): (r: real)
    requires x >= 0.0 && m > 0
    ensures 0.0 <= r < m as real
  {
    FloorDivide(x, m);
    FloorBelow(x, m);
    x - (m as real) * ((x / m as real).Floor as real)
  }

  /** `Math.floor(x)` of a non-negative number. */
  function FloorNat(x: real): nat
    requires x >= 0.0
  {
    x.Floor
  }

  /** `Math.max(0, x)`. */
  function ClampAtZero(x: real): (r: real)
    ensures r >= 0.0 && r >= x
    ensures x >= 0.0 ==> r == x
    ensures x < 0.0 ==> r == 0.0
  {
    if x > 0.0 then x else 0.0
  }

  /** `Math.abs(x)`. */
  function Abs(x: real): (r: real)
    ensures r >= 0.0 && (r == x || r == -x)
  {
    if x < 0.0 then -x else x
  }

  /** `String(n).padStart(2, '0')`. */
  function Pad2(n: nat): string {
    PadStart(NatToDecimal(n), 2)
  }

  /** `${hh}:${mm}:${ss}` with every field padded to two digits. */
  function ClockText(h: nat, m: nat, s: nat): string {
    Pad2(h) + ":" + Pad2(m) + ":" + Pad2(s)
  }

  /**
   * `parseInt(hours) * 3600 + parseInt(minutes) * 60 + parseFloat(seconds)`,
   * where the third group `seconds` is `wholeSeconds` followed, when group 4
   * matched, by `.` and the digits `fraction`.
   */
  function TimestampSeconds(hours: string, minutes: string, wholeSeconds: string, fraction: Option<string>): (r: real)
    requires AllDigits(hours) && AllDigits(minutes) && AllDigits(wholeSeconds)
    requires fraction.Some? ==> AllDigits(fraction.value)
    ensures r >= 0.0
  {
    FractionBound(fraction);
    (DigitsValue(hours) * 3600 + DigitsValue(minutes) * 60 + DigitsValue(wholeSeconds)) as real
      + (if fraction.Some? then FractionValue(fraction.value) else 0.0)
  }

  lemma {:induction false} FractionBound(fraction: Option<string>)
    requires fraction.Some? ==> AllDigits(fraction.value)
    ensures fraction.Some? ==> 0.0 <= FractionValue(fraction.value) < 1.0
  {
    if fraction.Some? {
      FractionValueBound(fraction.value);
    }
  }

  /** The new hours, minutes and seconds of a non-negative total, computed as the callback does. */
  function ClockOf(total: real): string
    requires total >= 0.0
  {
    var newHours := FloorNat(total / 3600.0);
    var newMinutes := FloorNat(Rem(total, 3600) / 60.0);
    var newSeconds := FloorNat(Rem(total, 60));
    ClockText(newHours, newMinutes, newSeconds)
  }

  /**
   * The `adjustTime` callback: the timestamp in seconds plus the adjustment,
   * clamped at 0, printed back as `HH:MM:SS`.
   */
  function AdjustTimestamp(hours: string, minutes: string, wholeSeconds: string, fraction: Option<string>, adjustment: real): string
    requires AllDigits(hours) && AllDigits(minutes) && AllDigits(wholeSeconds)
    requires fraction.Some? ==> AllDigits(fraction.value)
  {
    ClockOf(ClampAtZero(TimestampSeconds(hours, minutes, wholeSeconds, fraction) + adjustment))
  }

  /** Dividing by a whole `m` and flooring is flooring and then dividing in whole numbers. */
  lemma {:induction false} FloorDivide(x: real, m: nat)
    requires x >= 0.0 && m > 0
    ensures (x / m as real).Floor == x.Floor / m
  {
    var q := x.Floor / m;
    var y := x / m as real;
    WholeDivideBounds(x.Floor, m);
    assert (q as real) * (m as real) <= x by {
      LowerMultiple(x, q, m);
    }
    assert x < ((q + 1) as real) * (m as real) by {
      UpperMultiple(x, q + 1, m);
    }
    assert y * (m as real) == x;
    ScaleBack(q as real, y, m as real);
    ScaleBackStrict(y, (q + 1) as real, m as real);
  }

  lemma {:induction false} LowerMultiple(x: real, q: int, m: nat)
    requires q * m <= x.Floor
    ensures (q as real) * (m as real) <= x
  {
    CastMultiply(q, m);
  }

  lemma {:induction false} UpperMultiple(x: real, q: int, m: nat)
    requires x.Floor < q * m
    ensures x < (q as real) * (m as real)
  {
    CastMultiply(q, m);
  }

  lemma {:induction false} CastMultiply(a: int, b: int)
    ensures (a * b) as real == (a as real) * (b as real)
  {
  }

  /** Whole-number division by `m` brackets its numerator between two multiples of `m`. */
  lemma {:induction false} WholeDivideBounds(a: int, m: nat)
    requires a >= 0 && m > 0
    ensures (a / m) * m <= a < (a / m + 1) * m
  {
    assert a == (a / m) * m + a % m;
  }

  lemma {:induction false} FloorBelow(x: real, m: nat)
    requires x >= 0.0 && m > 0
    ensures (m as real) * ((x / m as real).Floor as real) <= x < (m as real) * ((x / m as real).Floor as real) + m as real
  {
    FloorDivide(x, m);
    var q := x.Floor / m;
    assert (q * m) as real <= x;
    assert x < (q * m + m) as real;
    assert (m as real) * (q as real) == (q * m) as real;
  }

  lemma {:induction false} ScaleBack(a: real, b: real, c: real)
    requires c > 0.0 && a * c <= b * c
    ensures a <= b
  {
  }

  lemma {:induction false} ScaleBackStrict(a: real, b: real, c: real)
    requires c > 0.0 && a * c < b * c
    ensures a < b
  {
  }

  /** The whole part of `x % m` is the whole part of `x`, modulo `m`. */
  lemma {:induction false} RemFloor(x: real, m: nat)
    requires x >= 0.0 && m > 0
    ensures Rem(x, m).Floor == x.Floor % m
  {
    FloorDivide(x, m);
    var q := x.Floor / m;
    assert Rem(x, m) == x - (q * m) as real;
  }

  /** `x % m` keeps the fractional part of `x`: only whole multiples of `m` are taken away. */
  lemma {:induction false} RemFraction(x: real, m: nat)
    requires x >= 0.0 && m > 0
    ensures Rem(x, m) - (Rem(x, m).Floor as real) == x - (x.Floor as real)
  {
    FloorDivide(x, m);
    RemFloor(x, m);
    var q := x.Floor / m;
    assert Rem(x, m) == x - (q * m) as real;
    assert x.Floor % m == x.Floor - q * m;
  }

  /** The whole part of `(x % 3600) / 60` is the whole minutes past the hour. */
  lemma {:induction false} MinutesFloor(x: real)
    requires x >= 0.0
    ensures (Rem(x, 3600) / 60.0).Floor == (x.Floor % 3600) / 60
  {
    RemFloor(x, 3600);
    FloorDivide(Rem(x, 3600), 60);
  }

  /** What the callback prints depends only on the whole seconds of the total. */
  lemma {:induction false} ClockOfFields(total: real)
    requires total >= 0.0
    ensures ClockOf(total) == ClockText(total.Floor / 3600, (total.Floor % 3600) / 60, total.Floor % 60)
  {
    ClockFieldValues(total);
  }

  /** The three numbers the callback prints, in whole-number arithmetic on the floored total. */
  lemma {:induction false} ClockFieldValues(total: real)
    requires total >= 0.0
    ensures FloorNat(total / 3600.0) == total.Floor / 3600
    ensures FloorNat(Rem(total, 3600) / 60.0) == (total.Floor % 3600) / 60
    ensures FloorNat(Rem(total, 60)) == total.Floor % 60
  {
    FloorDivide(total, 3600);
    MinutesFloor(total);
    RemFloor(total, 60);
  }

  /** Two totals with the same whole part print the same. */
  lemma {:induction false} ClockOfFloor(a: real, b: real)
    requires a >= 0.0 && b >= 0.0 && a.Floor == b.Floor
    ensures ClockOf(a) == ClockOf(b)
  {
    ClockOfFields(a);
    ClockOfFields(b);
  }

  /** Hours, minutes below 60 and seconds below 60 are determined by the total they add up to. */
  lemma {:induction false} ClockDecomposition(n: nat, h: nat, m: nat, s: nat)
    requires m < 60 && s < 60 && h * 3600 + m * 60 + s == n
    ensures h == n / 3600 && m == (n % 3600) / 60 && s == n % 60
  {
    var r := m * 60 + s;
    DivideBy3600(n, h, r);
    DivideBy60(r, m, s);
    DivideBy60(n, h * 60 + m, s);
  }

  lemma {:induction false} DivideBy3600(n: nat, q: nat, r: nat)
    requires r < 3600 && n == q * 3600 + r
    ensures n / 3600 == q && n % 3600 == r
  {
  }

  lemma {:induction false} DivideBy60(n: nat, q: nat, r: nat)
    requires r < 60 && n == q * 60 + r
    ensures n / 60 == q && n % 60 == r
  {
  }

  /**
   * The callback's output is the `HH:MM:SS` of the clamped, floored total:
   * any hours, minutes below 60 and seconds below 60 that add up to
   * `floor(max(0, timestamp + adjustment))` are what it prints.
   */
  lemma {:induction false} AdjustTimestampSpec(hours: string, minutes: string, wholeSeconds: string, fraction: Option<string>, adjustment: real,
                           h: nat, m: nat, s: nat)
    requires AllDigits(hours) && AllDigits(minutes) && AllDigits(wholeSeconds)
    requires fraction.Some? ==> AllDigits(fraction.value)
    requires m < 60 && s < 60
    requires h * 3600 + m * 60 + s == ClampAtZero(TimestampSeconds(hours, minutes, wholeSeconds, fraction) + adjustment).Floor
    ensures AdjustTimestamp(hours, minutes, wholeSeconds, fraction, adjustment) == ClockText(h, m, s)
  {
    var total := ClampAtZero(TimestampSeconds(hours, minutes, wholeSeconds, fraction) + adjustment);
    ClockOfFields(total);
    ClockDecomposition(total.Floor, h, m, s);
  }

  /** A number below 100 padded to two places is exactly two digits that read back as it. */
  lemma {:induction false} Pad2Exact(n: nat)
    requires n < 100
    ensures |Pad2(n)| == 2 && AllDigits(Pad2(n)) && DigitsValue(Pad2(n)) == n
  {
    PaddedNumeral(n, 2);
    NatToDecimalValue(n);
    if n >= 10 {
      NatToDecimalValue(n / 10);
    }
  }

  /**
   * `HH:MM:SS` splits at `:` into exactly three digit fields: the hours at
   * least two digits long, the minutes and seconds exactly two, each reading
   * back as its number.
   */
  lemma {:induction false} ClockTextFields(h: nat, m: nat, s: nat)
    requires m < 60 && s < 60
    ensures Split(ClockText(h, m, s), ":") == [Pad2(h), Pad2(m), Pad2(s)]
    ensures |Pad2(h)| >= 2 && AllDigits(Pad2(h)) && DigitsValue(Pad2(h)) == h
    ensures |Pad2(m)| == 2 && AllDigits(Pad2(m)) && DigitsValue(Pad2(m)) == m
    ensures |Pad2(s)| == 2 && AllDigits(Pad2(s)) && DigitsValue(Pad2(s)) == s
  {
    PaddedNumeral(h, 2);
    Pad2Exact(m);
    Pad2Exact(s);
    ColonSplit(Pad2(h), Pad2(m), Pad2(s));
  }

  /** Three digit strings joined by `:` split back into themselves. */
  lemma {:induction false} ColonSplit(hh: string, mm: string, ss: string)
    requires AllDigits(hh) && AllDigits(mm) && AllDigits(ss)
    ensures Split(hh + ":" + mm + ":" + ss, ":") == [hh, mm, ss]
  {
    DigitsHaveNoColon(hh);
    DigitsHaveNoColon(mm);
    DigitsHaveNoColon(ss);
    assert hh + ":" + mm + ":" + ss == hh + [':'] + (mm + [':'] + ss);
    SplitAtFirst(hh, ':', mm + [':'] + ss);
    SplitAtFirst(mm, ':', ss);
    SplitWithoutSeparator(ss, ":");
  }

  lemma {:induction false} DigitsHaveNoColon(d: string)
    requires AllDigits(d)
    ensures !Contains(d, [':'])
  {
    NotContainsChar(d, ':');
  }

  /** A canonical `HH:MM:SS` timestamp shifted by nothing comes back unchanged. */
  lemma {:induction false} CanonicalUnchanged(hh: string, mm: string, ss: string)
    requires |hh| == 2 && |mm| == 2 && |ss| == 2
    requires AllDigits(hh) && AllDigits(mm) && AllDigits(ss)
    requires DigitsValue(mm) < 60 && DigitsValue(ss) < 60
    ensures AdjustTimestamp(hh, mm, ss, None, 0.0) == hh + ":" + mm + ":" + ss
  {
    var h, m, s := DigitsValue(hh), DigitsValue(mm), DigitsValue(ss);
    assert ClampAtZero(TimestampSeconds(hh, mm, ss, None) + 0.0) == (h * 3600 + m * 60 + s) as real;
    AdjustTimestampSpec(hh, mm, ss, None, 0.0, h, m, s);
    TwoDigitsRoundTrip(hh);
    TwoDigitsRoundTrip(mm);
    TwoDigitsRoundTrip(ss);
  }

  /** A shift that takes the timestamp to zero or before it gives `00:00:00`. */
  lemma {:induction false} ClampedToMidnight(hours: string, minutes: string, wholeSeconds: string, fraction: Option<string>, adjustment: real)
    requires AllDigits(hours) && AllDigits(minutes) && AllDigits(wholeSeconds)
    requires fraction.Some? ==> AllDigits(fraction.value)
    requires TimestampSeconds(hours, minutes, wholeSeconds, fraction) + adjustment <= 0.0
    ensures AdjustTimestamp(hours, minutes, wholeSeconds, fraction, adjustment) == "00:00:00"
  {
    assert ClampAtZero(TimestampSeconds(hours, minutes, wholeSeconds, fraction) + adjustment) == 0.0;
    AdjustTimestampSpec(hours, minutes, wholeSeconds, fraction, adjustment, 0, 0, 0);
    MidnightText();
  }

  lemma {:induction false} MidnightText()
    ensures ClockText(0, 0, 0) == "00:00:00"
  {
    assert Pad2(0) == "00";
  }

  /** Under a shift by whole seconds, the fraction of the seconds field never changes the output. */
  lemma {:induction false} FractionDropped(hours: string, minutes: string, wholeSeconds: string, fraction: string, adjustment: int)
    requires AllDigits(hours) && AllDigits(minutes) && AllDigits(wholeSeconds) && AllDigits(fraction)
    ensures AdjustTimestamp(hours, minutes, wholeSeconds, Some(fraction), adjustment as real)
         == AdjustTimestamp(hours, minutes, wholeSeconds, None, adjustment as real)
  {
    var f := FractionValue(fraction);
    var k := DigitsValue(hours) * 3600 + DigitsValue(minutes) * 60 + DigitsValue(wholeSeconds) + adjustment;
    assert TimestampSeconds(hours, minutes, wholeSeconds, Some(fraction)) + adjustment as real == k as real + f;
    assert TimestampSeconds(hours, minutes, wholeSeconds, None) + adjustment as real == k as real;
    assert ClampAtZero(k as real + f).Floor == ClampAtZero(k as real).Floor by {
      FractionValueBound(fraction);
      ClampFloor(k, f);
    }
    ClockOfFloor(ClampAtZero(k as real + f), ClampAtZero(k as real));
  }

  /** Adding less than one to a whole number does not change the whole part of the clamped sum. */
  lemma {:induction false} ClampFloor(k: int, f: real)
    requires 0.0 <= f < 1.0
    ensures ClampAtZero(k as real + f).Floor == ClampAtZero(k as real).Floor
  {
    if k < 0 {
      assert k as real + f < 0.0;
    }
  }

  /** The four numbers `formatSecondsToHMS` prints. */
  datatype Hms = Hms(hours: nat, minutes: nat, seconds: nat, milliseconds: nat)

  /** `Math.round(x)` for `x >= 0`: halves round up. */
  function Round(x: real): nat
    requires x >= 0.0
  {
    (x + 0.5).Floor
  }

  /** The fields `formatSecondsToHMS` computes, as written: the milliseconds are rounded on their own. */
  function HmsFields(totalSeconds: real): Hms {
    var t := Abs(totalSeconds);
    var hours := FloorNat(t / 3600.0);
    var remainingAfterHours := Rem(t, 3600);
    var minutes := FloorNat(remainingAfterHours / 60.0);
    var secondsWithMs := Rem(remainingAfterHours, 60);
    var wholeSeconds := FloorNat(secondsWithMs);
    var milliseconds := Round((secondsWithMs - wholeSeconds as real) * 1000.0);
    Hms(hours, minutes, wholeSeconds, milliseconds)
  }

  /** `HH:MM:SS.sss`, the milliseconds padded to three places. */
  function HmsText(f: Hms): string {
    Pad2(f.hours) + ":" + Pad2(f.minutes) + ":" + Pad2(f.seconds) + "." + PadStart(NatToDecimal(f.milliseconds), 3)
  }

  /** `formatSecondsToHMS`, as written. */
  function FormatSecondsToHMS(totalSeconds: real): string {
    HmsText(HmsFields(totalSeconds))
  }

  /** The sign of the input is ignored. */
  lemma {:induction false} FormatIgnoresSign(t: real)
    ensures FormatSecondsToHMS(-t) == FormatSecondsToHMS(t)
  {
    assert HmsFields(-t) == HmsFields(t) by {
      assert Abs(-t) == Abs(t);
    }
  }

  /**
   * The hours, minutes and whole seconds add up to the whole seconds of
   * `|t|`, minutes and seconds stay below 60, and the rounded milliseconds
   * lie in 0..1000 (reaching 1000 is the defect shown below).
   */
  lemma {:induction false} HmsFieldsSum(t: real)
    ensures HmsFields(t).hours * 3600 + HmsFields(t).minutes * 60 + HmsFields(t).seconds == Abs(t).Floor
    ensures HmsFields(t).minutes < 60 && HmsFields(t).seconds < 60
    ensures HmsFields(t).milliseconds <= 1000
  {
    var a := Abs(t);
    var n := a.Floor;
    FloorDivide(a, 3600);
    MinutesFloor(a);
    RemFloor(a, 3600);
    RemFloor(Rem(a, 3600), 60);
    var r := Rem(Rem(a, 3600), 60);
    assert 0.0 <= r - r.Floor as real < 1.0;
  }

  /**
   * The milliseconds `formatSecondsToHMS` prints are `Math.round` of the
   * fractional part of `|t|` times 1000: taking the hours and minutes away
   * leaves the fraction as it is.
   */
  lemma {:induction false} HmsMilliseconds(t: real)
    ensures HmsFields(t).milliseconds == Round((Abs(t) - (Abs(t).Floor as real)) * 1000.0)
  {
    var a := Abs(t);
    RemFraction(a, 3600);
    RemFraction(Rem(a, 3600), 60);
  }

  /**
   * What `formatSecondsToHMS` prints, as written: the hours, minutes below
   * 60 and seconds below 60 that make up the whole seconds of `|t|`, each
   * padded to two places, then `Math.round` of the fraction of `|t|` times
   * 1000, padded to three places.
   */
  lemma {:induction false} FormatSecondsToHMSSpec(t: real, h: nat, m: nat, s: nat)
    requires m < 60 && s < 60 && h * 3600 + m * 60 + s == Abs(t).Floor
    ensures FormatSecondsToHMS(t)
         == Pad2(h) + ":" + Pad2(m) + ":" + Pad2(s) + "."
            + PadStart(NatToDecimal(Round((Abs(t) - (Abs(t).Floor as real)) * 1000.0)), 3)
  {
    HmsFieldsSum(t);
    HmsMilliseconds(t);
    ClockDecomposition(Abs(t).Floor, h, m, s);
    ClockDecomposition(Abs(t).Floor, HmsFields(t).hours, HmsFields(t).minutes, HmsFields(t).seconds);
  }

  /** `formatSecondsToHMS(0.9996)` prints `00:00:00.1000`: four millisecond digits instead of a carry into the seconds. */
  lemma {:induction false} FormatMillisecondOverflow(t: real)
    requires t == 0.9996
    ensures HmsFields(t).milliseconds == 1000
    ensures FormatSecondsToHMS(t) == "00:00:00.1000"
  {
    assert (t / 3600.0).Floor == 0;
    assert Rem(t, 3600) == t;
    assert (t / 60.0).Floor == 0;
    assert Rem(t, 60) == t;
    assert t.Floor == 0;
    assert HmsFields(t) == Hms(0, 0, 0, 1000);
    assert NatToDecimal(1000) == "1000";
    assert Pad2(0) == "00";
  }

  /**
   * The evident intent of `formatSecondsToHMS`: round `|t|` to whole
   * milliseconds first, then split that count into hours, minutes, seconds
   * and milliseconds.
   */
  function HmsFieldsRounded(totalSeconds: real): Hms {
    var ms := Round(Abs(totalSeconds) * 1000.0);
    Hms(ms / 3600000, (ms % 3600000) / 60000, (ms % 60000) / 1000, ms % 1000)
  }

  function FormatSecondsToHMSRounded(totalSeconds: real): string {
    HmsText(HmsFieldsRounded(totalSeconds))
  }

  /**
   * With the rounding done first every field is in range, the milliseconds
   * print as exactly three digits, and the fields add up to `|t|` rounded to
   * the millisecond.
   */
  lemma {:induction false} HmsFieldsRoundedSpec(t: real)
    ensures HmsFieldsRounded(t).minutes < 60 && HmsFieldsRounded(t).seconds < 60 && HmsFieldsRounded(t).milliseconds < 1000
    ensures HmsFieldsRounded(t).hours * 3600000 + HmsFieldsRounded(t).minutes * 60000
          + HmsFieldsRounded(t).seconds * 1000 + HmsFieldsRounded(t).milliseconds == Round(Abs(t) * 1000.0)
    ensures |PadStart(NatToDecimal(HmsFieldsRounded(t).milliseconds), 3)| == 3
  {
    var ms := Round(Abs(t) * 1000.0);
    var f := HmsFieldsRounded(t);
    assert ms % 3600000 == f.minutes * 60000 + ms % 60000;
    assert ms % 60000 == f.seconds * 1000 + f.milliseconds;
    NumeralLength(f.milliseconds);
  }

  /** The corrected formatter carries `0.9996` into the seconds: `00:00:01.000`. */
  lemma {:induction false} FormatRoundedCarries(t: real)
    requires t == 0.9996
    ensures FormatSecondsToHMSRounded(t) == "00:00:01.000"
  {
    assert Round(Abs(t) * 1000.0) == 1000;
    assert HmsFieldsRounded(t) == Hms(0, 0, 1, 0);
    assert Pad2(0) == "00" && Pad2(1) == "01";
    assert PadStart(NatToDecimal(0), 3) == "000";
  }

  /** A number below 1000 has at most three digits. */
  lemma {:induction false} NumeralLength(n: nat)
    requires n < 1000
    ensures |NatToDecimal(n)| <= 3
  {
    if n >= 10 {
      NumeralLength(n / 10);
      NatToDecimalValue(n / 10);
    }
  }

  /** The corrected formatter also ignores the sign. */
  lemma {:induction false} FormatRoundedIgnoresSign(t: real)
    ensures FormatSecondsToHMSRounded(-t) == FormatSecondsToHMSRounded(t)
  {
    assert HmsFieldsRounded(-t) == HmsFieldsRounded(t) by {
      assert Abs(-t) == Abs(t);
    }
  }
}
