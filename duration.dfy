/**
 * `parseTimeAdjustment` (macro.js): a shorthand such as `-1h2m3.5s` becomes a
 * signed number of seconds by summing every match of
 * `/([+-]?\d+)h|([+-]?\d+)m|([+-]?\d+(\.\d+)?)s/gi`.
 *
 * The regular expression is modelled by what it can match at one position
 * (MatchPrefix) and by the left-to-right search `exec` performs from
 * `lastIndex` (Exec). Greedy `\d+` followed by a fixed unit letter never
 * backtracks to a shorter digit run, so the match at a position is unique.
 */
module Duration {
  import opened Wrappers
  import opened Decimal
  import Strings

  datatype Sign = Unsigned | Plus | Minus

  datatype Unit = Hours | Minutes | Seconds

  /** One match: its sign, integer digits, fraction digits (seconds only) and unit letter. */
  datatype Component = Component(sign: Sign, whole: string, fraction: Option<string>, unit: Unit)

  /** A match found by `exec`: the component and the index just past it (the new `lastIndex`). */
  datatype Match = Match(component: Component, end: nat)

  predicate WellFormed(c: Component) {
    && c.whole != [] && AllDigits(c.whole)
    && (c.fraction.Some? ==> c.unit == Seconds && c.fraction.value != [] && AllDigits(c.fraction.value))
  }

  /** `parseFloat` of the captured number, as an exact decimal. */
  function SignedValue(c: Component): real
    requires WellFormed(c)
  {
    var magnitude := DigitsValue(c.whole) as real +
      (if c.fraction.Some? then FractionValue(c.fraction.value) else 0.0);
    if c.sign == Minus then -magnitude else magnitude
  }

  function UnitSeconds(u: Unit): real {
    match u
    case Hours => 3600.0
    case Minutes => 60.0
    case Seconds => 1.0
  }

  /** What one component adds to the total: hours times 3600, minutes times 60, seconds as they are. */
  function ComponentSeconds(c: Component): real
    requires WellFormed(c)
  {
    SignedValue(c) * UnitSeconds(c.unit)
  }

  function Sum(cs: seq<Component>): real
    requires forall c <- cs :: WellFormed(c)
  {
    if cs == [] then 0.0 else ComponentSeconds(cs[0]) + Sum(cs[1..])
  }

  predicate IsSignChar(c: char) {
    c == '+' || c == '-'
  }

  /** The unit a letter names; the `i` flag makes the letters case-insensitive. */
  function UnitLetter(c: char): Option<Unit> {
    if c == 'h' || c == 'H' then Some(Hours)
    else if c == 'm' || c == 'M' then Some(Minutes)
    else if c == 's' || c == 'S' then Some(Seconds)
    else None
  }

  /** A match found `k` characters further into the text. */
  function Shift(r: Option<(Component, nat)>, k: nat): Option<(Component, nat)> {
    if r.Some? then Some((r.value.0, r.value.1 + k)) else None
  }

  /**
   * Where the matcher stands inside one attempt: before anything, after the
   * sign, inside the integer digits, just after the decimal point, or
   * inside the fraction digits. The digits read so far are carried along.
   */
  datatype Scan =
    | Start
    | AfterSign(sign: Sign)
    | InWhole(sign: Sign, whole: string)
    | AfterDot(sign: Sign, whole: string)
    | InFraction(sign: Sign, whole: string, fraction: string)

  /** The digits a state carries are non-empty runs of ASCII digits. */
  predicate ScanValid(st: Scan) {
    match st
    case Start => true
    case AfterSign(_) => true
    case InWhole(_, whole) => whole != [] && AllDigits(whole)
    case AfterDot(_, whole) => whole != [] && AllDigits(whole)
    case InFraction(_, whole, fraction) => whole != [] && AllDigits(whole) && fraction != [] && AllDigits(fraction)
  }

  /**
   * The rest of one attempt of the pattern from state `st` on the text `t`:
   * the component matched and the number of characters of `t` it still
   * takes. Each `\d+` is greedy, and what follows the digits decides: a unit
   * letter ends the match, a `.` starts a fraction (seconds only), anything
   * else is no match. Because the character after a greedy run of digits is
   * not a digit, the backtracking JavaScript engine finds no other match at
   * this position, so this reading is the regular expression's.
   */
  function Run(st: Scan, t: string): (r: Option<(Component, nat)>)
    requires ScanValid(st)
    ensures r.Some? ==> WellFormed(r.value.0) && 0 < r.value.1 <= |t|
    decreases |t|
  {
    match st
    case Start =>
      if t == [] then None
      else if IsSignChar(t[0]) then Shift(Run(AfterSign(if t[0] == '+' then Plus else Minus), t[1..]), 1)
      else if IsDigit(t[0]) then Shift(Run(InWhole(Unsigned, [t[0]]), t[1..]), 1)
      else None
    case AfterSign(sign) =>
      if t != [] && IsDigit(t[0]) then Shift(Run(InWhole(sign, [t[0]]), t[1..]), 1) else None
    case InWhole(sign, whole) =>
      if t == [] then None
      else if IsDigit(t[0]) then Shift(Run(InWhole(sign, whole + [t[0]]), t[1..]), 1)
      else if UnitLetter(t[0]).Some? then Some((Component(sign, whole, None, UnitLetter(t[0]).value), 1))
      else if t[0] == '.' then Shift(Run(AfterDot(sign, whole), t[1..]), 1)
      else None
    case AfterDot(sign, whole) =>
      if t != [] && IsDigit(t[0]) then Shift(Run(InFraction(sign, whole, [t[0]]), t[1..]), 1) else None
    case InFraction(sign, whole, fraction) =>
      if t == [] then None
      else if IsDigit(t[0]) then Shift(Run(InFraction(sign, whole, fraction + [t[0]]), t[1..]), 1)
      else if UnitLetter(t[0]) == Some(Seconds) then Some((Component(sign, whole, Some(fraction), Seconds), 1))
      else None
  }

  /** The match of the pattern that starts at the first character of `t`, if any, with its length. */
  function MatchPrefix(t: string): (r: Option<(Component, nat)>)
    ensures r.Some? ==> WellFormed(r.value.0) && 0 < r.value.1 <= |t|
  {
    Run(Start, t)
  }
  /**
   * `timeComponentRegex.exec(s)` with `lastIndex == from`: the match at the
   * leftmost position at or after `from` where the pattern matches.
   */
  function Exec(s: string, from: nat): (r: Option<Match>)
    requires from <= |s|
    ensures r.Some? ==> from < r.value.end <= |s| && WellFormed(r.value.component)
    decreases |s| - from, 1
  {
    if from == |s| then None else ExecAt(s, from)
  }

  /** The search from a position inside the text: try the pattern here, else move one character on. */
  function ExecAt(s: string, from: nat): (r: Option<Match>)
    requires from < |s|
    ensures r.Some? ==> from < r.value.end <= |s| && WellFormed(r.value.component)
    decreases |s| - from, 0
  {
    var m := MatchPrefix(s[from..]);
    if m.Some? then Some(Match(m.value.0, from + m.value.1)) else Exec(s, from + 1)
  }

  /** Every match the `exec` loop finds from `from` on, each search resuming where the previous match ended. */
  function Components(s: string, from: nat): (cs: seq<Component>)
    requires from <= |s|
    ensures forall c <- cs :: WellFormed(c)
    decreases |s| - from
  {
    match Exec(s, from)
    case None => []
    case Some(m) => [m.component] + Components(s, m.end)
  }

  /** The number of seconds the adjustment text stands for: the sum over all its matches. */
  function AdjustmentSeconds(s: string): real {
    Sum(Components(s, 0))
  }

  /**
   * `parseTimeAdjustment`: runs `exec` until it returns `null`, adding each
   * component's seconds. It returns a number on every input (never `null`).
   */
  method ParseTimeAdjustment(adjustment: string) returns (totalSeconds: real)
    ensures totalSeconds == AdjustmentSeconds(adjustment)
  {
    totalSeconds := 0.0;
    var lastIndex := 0;
    var found := Exec(adjustment, lastIndex);
    while found.Some?
      invariant lastIndex <= |adjustment|
      invariant found == Exec(adjustment, lastIndex)
      invariant totalSeconds + Sum(Components(adjustment, lastIndex)) == AdjustmentSeconds(adjustment)
      decreases |adjustment| - lastIndex
    {
      var c := found.value.component;
      if c.unit == Hours {
        totalSeconds := totalSeconds + SignedValue(c) * 3600.0;
      } else if c.unit == Minutes {
        totalSeconds := totalSeconds + SignedValue(c) * 60.0;
      } else {
        totalSeconds := totalSeconds + SignedValue(c);
      }
      lastIndex := found.value.end;
      found := Exec(adjustment, lastIndex);
    }
  }

  /** The canonical text of a component: sign, digits, optional fraction, lower-case unit letter. */
  function Render(c: Component): string {
    SignText(c.sign) + UnsignedText(c)
  }

  function UnsignedText(c: Component): string {
    c.whole + (FractionText(c.fraction) + UnitText(c.unit))
  }

  function RenderAll(cs: seq<Component>): string {
    if cs == [] then "" else Render(cs[0]) + RenderAll(cs[1..])
  }

  function SignText(sign: Sign): string {
    match sign case Unsigned => "" case Plus => "+" case Minus => "-"
  }

  function UnitText(u: Unit): string {
    match u case Hours => "h" case Minutes => "m" case Seconds => "s"
  }

  function FractionText(fraction: Option<string>): string {
    if fraction.Some? then "." + fraction.value else ""
  }

  /** Integer digits are read one by one, all of them, before the matcher looks further. */
  lemma {:induction false} RunWholeDigits(sign: Sign, whole: string, d: string, tail: string)
    requires whole != [] && AllDigits(whole) && AllDigits(d)
    ensures Run(InWhole(sign, whole), d + tail) == Shift(Run(InWhole(sign, whole + d), tail), |d|)
    decreases |d|
  {
    if d == [] {
      assert d + tail == tail && whole + d == whole;
    } else {
      var t := d + tail;
      assert t[0] == d[0] && t[1..] == d[1..] + tail;
      assert (whole + [d[0]]) + d[1..] == whole + d;
      RunWholeDigits(sign, whole + [d[0]], d[1..], tail);
    }
  }

  /** Fraction digits are read the same way. */
  lemma {:induction false} RunFractionDigits(sign: Sign, whole: string, fraction: string, d: string, tail: string)
    requires ScanValid(InFraction(sign, whole, fraction)) && AllDigits(d)
    ensures Run(InFraction(sign, whole, fraction), d + tail) == Shift(Run(InFraction(sign, whole, fraction + d), tail), |d|)
    decreases |d|
  {
    if d == [] {
      assert d + tail == tail && fraction + d == fraction;
    } else {
      var t := d + tail;
      assert t[0] == d[0] && t[1..] == d[1..] + tail;
      assert (fraction + [d[0]]) + d[1..] == fraction + d;
      RunFractionDigits(sign, whole, fraction + [d[0]], d[1..], tail);
    }
  }

  /** A non-empty digit run read after the sign ends in the state that carries all of it. */
  lemma {:induction false} RunDigitRun(sign: Sign, d: string, tail: string)
    requires d != [] && AllDigits(d)
    ensures Run(AfterSign(sign), d + tail) == Shift(Run(InWhole(sign, d), tail), |d|)
  {
    var t := d + tail;
    assert t[0] == d[0] && t[1..] == d[1..] + tail;
    RunWholeDigits(sign, [d[0]], d[1..], tail);
    assert [d[0]] + d[1..] == d;
  }

  /**
   * A component written with the unit letter `letter`, which may be upper
   * case under the `i` flag: sign, digits, optional fraction, then the letter.
   */
  function Written(c: Component, letter: char): string {
    SignText(c.sign) + WrittenUnsigned(c, letter)
  }

  function WrittenUnsigned(c: Component, letter: char): string {
    c.whole + (FractionText(c.fraction) + [letter])
  }

  /** The canonical text is the component written with its lower-case unit letter. */
  lemma {:induction false} RenderIsWritten(c: Component)
    ensures UnitLetter(UnitText(c.unit)[0]) == Some(c.unit)
    ensures Render(c) == Written(c, UnitText(c.unit)[0]) && UnsignedText(c) == WrittenUnsigned(c, UnitText(c.unit)[0])
  {
    assert UnitText(c.unit) == [UnitText(c.unit)[0]];
  }

  /** After the integer digits: the unit letter of the component, or its fraction followed by `s` or `S`. */
  lemma {:induction false} RunRenderedTail(c: Component, letter: char, rest: string)
    requires WellFormed(c) && UnitLetter(letter) == Some(c.unit)
    ensures Run(InWhole(c.sign, c.whole), (FractionText(c.fraction) + [letter]) + rest)
      == Some((c, |FractionText(c.fraction)| + 1))
  {
    var t := (FractionText(c.fraction) + [letter]) + rest;
    if c.fraction.Some? {
      var f := c.fraction.value;
      var after := [letter] + rest;
      assert t[0] == '.' && t[1..] == f + after;
      assert Run(InWhole(c.sign, c.whole), t) == Shift(Run(AfterDot(c.sign, c.whole), f + after), 1);
      RunFractionRendered(c.sign, c.whole, f, letter, rest);
    } else {
      assert t[0] == letter;
    }
  }

  /** A fraction `\.\d+` and the letter `s` or `S` that must follow it. */
  lemma {:induction false} RunFractionRendered(sign: Sign, whole: string, f: string, letter: char, rest: string)
    requires whole != [] && AllDigits(whole) && f != [] && AllDigits(f) && UnitLetter(letter) == Some(Seconds)
    ensures Run(AfterDot(sign, whole), f + ([letter] + rest)) == Some((Component(sign, whole, Some(f), Seconds), |f| + 1))
  {
    var after := [letter] + rest;
    var t := f + after;
    assert t[0] == f[0] && t[1..] == f[1..] + after;
    RunFractionDigits(sign, whole, [f[0]], f[1..], after);
    assert [f[0]] + f[1..] == f;
    assert after[0] == letter;
  }

  /** The unsigned text of a component, read after its sign, is matched exactly. */
  lemma {:induction false} RunRenderedUnsigned(c: Component, letter: char, rest: string)
    requires WellFormed(c) && UnitLetter(letter) == Some(c.unit)
    ensures Run(AfterSign(c.sign), WrittenUnsigned(c, letter) + rest) == Some((c, |WrittenUnsigned(c, letter)|))
  {
    var tail := (FractionText(c.fraction) + [letter]) + rest;
    assert WrittenUnsigned(c, letter) + rest == c.whole + tail;
    RunDigitRun(c.sign, c.whole, tail);
    RunRenderedTail(c, letter, rest);
  }

  /** Without a sign, an attempt reads the text as if the sign had been read already. */
  lemma {:induction false} StartUnsigned(t: string)
    requires t == [] || !IsSignChar(t[0])
    ensures Run(Start, t) == Run(AfterSign(Unsigned), t)
  {
  }

  /** With a sign, an attempt reads the rest of the text one character later. */
  lemma {:induction false} StartSigned(sign: Sign, u: string)
    requires sign != Unsigned
    ensures Run(Start, SignText(sign) + u) == Shift(Run(AfterSign(sign), u), 1)
  {
    var t := SignText(sign) + u;
    assert IsSignChar(t[0]) && (if t[0] == '+' then Plus else Minus) == sign && t[1..] == u;
  }

  /** The pattern matches a rendered component exactly, whatever follows it. */
  lemma {:induction false} MatchRendered(c: Component, rest: string)
    requires WellFormed(c)
    ensures MatchPrefix(Render(c) + rest) == Some((c, |Render(c)|))
  {
    RenderIsWritten(c);
    MatchWritten(c, UnitText(c.unit)[0], rest);
  }

  /**
   * The `i` flag: the pattern matches a component written with either case
   * of its unit letter (`h`/`H`, `m`/`M`, `s`/`S`) exactly, whatever follows it.
   */
  lemma {:induction false} MatchWritten(c: Component, letter: char, rest: string)
    requires WellFormed(c) && UnitLetter(letter) == Some(c.unit)
    ensures |Written(c, letter)| == |Render(c)|
    ensures MatchPrefix(Written(c, letter) + rest) == Some((c, |Render(c)|))
  {
    RenderIsWritten(c);
    var u := WrittenUnsigned(c, letter) + rest;
    RunRenderedUnsigned(c, letter, rest);
    if c.sign == Unsigned {
      StartRenderedUnsigned(c, letter, rest);
    } else {
      assert Written(c, letter) + rest == SignText(c.sign) + u;
      StartSigned(c.sign, u);
    }
  }

  /** Without a sign, an attempt on a written component reads its digits straight away. */
  lemma {:induction false} StartRenderedUnsigned(c: Component, letter: char, rest: string)
    requires WellFormed(c) && c.sign == Unsigned
    ensures Run(Start, Written(c, letter) + rest) == Run(AfterSign(Unsigned), WrittenUnsigned(c, letter) + rest)
  {
    var u := WrittenUnsigned(c, letter) + rest;
    assert Written(c, letter) + rest == u;
    assert u[0] == c.whole[0];
    StartUnsigned(u);
  }

  /** The text an attempt has read on reaching a state. */
  function ScanText(st: Scan): string {
    match st
    case Start => ""
    case AfterSign(sign) => SignText(sign)
    case InWhole(sign, whole) => SignText(sign) + whole
    case AfterDot(sign, whole) => SignText(sign) + whole + "."
    case InFraction(sign, whole, fraction) => SignText(sign) + whole + "." + fraction
  }

  /** The canonical text of a component without its unit letter. */
  function Stem(c: Component): string {
    SignText(c.sign) + c.whole + FractionText(c.fraction)
  }

  lemma {:induction false} RenderStem(c: Component)
    ensures Render(c) == Stem(c) + UnitText(c.unit)
  {
  }

  /** One character more read before the rest: the text read so far grows by the first character of `t`. */
  lemma {:induction false} ReadStep(read: string, next: string, t: string, k: nat)
    requires t != [] && next == read + [t[0]] && 0 < k <= |t| - 1
    ensures read + t[..k] == next + t[1..][..k - 1] && t[k] == t[1..][k - 1]
  {
    assert t[..k] == [t[0]] + t[1..][..k - 1];
  }

  /**
   * One step of an attempt that matches: either it ends here, on a unit
   * letter, after reading exactly the stem of the component, or it reads
   * the first character and goes on from the next state.
   */
  predicate Stepped(st: Scan, t: string, c: Component, n: nat, next: Scan, ends: bool) {
    && t != []
    && (ends ==> n == 1 && ScanText(st) == Stem(c) && UnitLetter(t[0]) == Some(c.unit))
    && (!ends ==> && ScanValid(next) && ScanText(next) == ScanText(st) + [t[0]]
                  && 1 < n && Run(next, t[1..]) == Some((c, n - 1)))
  }

  lemma {:induction false} RunStep(st: Scan, t: string, c: Component, n: nat) returns (next: Scan, ends: bool)
    requires ScanValid(st) && Run(st, t) == Some((c, n))
    ensures Stepped(st, t, c, n, next, ends)
  {
    match st {
      case Start => next, ends := StartStep(t, c, n);
      case AfterSign(sign) => next, ends := InWhole(sign, [t[0]]), false;
      case InWhole(sign, whole) => next, ends := WholeStep(sign, whole, t, c, n);
      case AfterDot(sign, whole) => next, ends := InFraction(sign, whole, [t[0]]), false;
      case InFraction(sign, whole, fraction) => next, ends := FractionStep(sign, whole, fraction, t, c, n);
    }
  }

  lemma {:induction false} StartStep(t: string, c: Component, n: nat) returns (next: Scan, ends: bool)
    requires Run(Start, t) == Some((c, n))
    ensures Stepped(Start, t, c, n, next, ends)
  {
    next := if IsSignChar(t[0]) then AfterSign(if t[0] == '+' then Plus else Minus) else InWhole(Unsigned, [t[0]]);
    ends := false;
  }

  lemma {:induction false} WholeStep(sign: Sign, whole: string, t: string, c: Component, n: nat) returns (next: Scan, ends: bool)
    requires ScanValid(InWhole(sign, whole)) && Run(InWhole(sign, whole), t) == Some((c, n))
    ensures Stepped(InWhole(sign, whole), t, c, n, next, ends)
  {
    next := if IsDigit(t[0]) then InWhole(sign, whole + [t[0]]) else AfterDot(sign, whole);
    ends := !IsDigit(t[0]) && UnitLetter(t[0]).Some?;
  }

  lemma {:induction false} FractionStep(sign: Sign, whole: string, fraction: string, t: string, c: Component, n: nat)
      returns (next: Scan, ends: bool)
    requires ScanValid(InFraction(sign, whole, fraction)) && Run(InFraction(sign, whole, fraction), t) == Some((c, n))
    ensures Stepped(InFraction(sign, whole, fraction), t, c, n, next, ends)
  {
    next := InFraction(sign, whole, fraction + [t[0]]);
    ends := !IsDigit(t[0]);
    if ends {
      assert c == Component(sign, whole, Some(fraction), Seconds) && n == 1;
      assert Stem(c) == SignText(sign) + whole + ("." + fraction);
    } else {
      assert Run(InFraction(sign, whole, fraction), t) == Shift(Run(next, t[1..]), 1);
      DigitsSnoc(fraction, t[0]);
    }
  }

  lemma {:induction false} DigitsSnoc(s: string, d: char)
    requires AllDigits(s) && IsDigit(d)
    ensures AllDigits(s + [d])
  {
    forall k | 0 <= k < |s| + 1 ensures IsDigit((s + [d])[k]) {
      if k < |s| { assert (s + [d])[k] == s[k]; }
    }
  }

  /**
   * Whatever an attempt matches from a state is, after the text read before
   * that state, the stem of the matched component followed by one letter
   * naming its unit.
   */
  lemma {:induction false} RunReadsStem(st: Scan, t: string, c: Component, n: nat)
    requires ScanValid(st) && Run(st, t) == Some((c, n))
    ensures 0 < n <= |t|
    ensures ScanText(st) + t[..n - 1] == Stem(c) && UnitLetter(t[n - 1]) == Some(c.unit)
    decreases |t|
  {
    var next, ends := RunStep(st, t, c, n);
    if ends {
      assert t[..n - 1] == [];
    } else {
      RunReadsStem(next, t[1..], c, n - 1);
      ReadStep(ScanText(st), ScanText(next), t, n - 1);
    }
  }

  /**
   * Conversely, a match of the pattern is the component's own canonical
   * text, except that the unit letter may be written in upper case.
   */
  lemma {:induction false} MatchPrefixIsRendered(t: string, c: Component, n: nat)
    requires MatchPrefix(t) == Some((c, n))
    ensures WellFormed(c) && n == |Render(c)| && n <= |t|
    ensures t[..n - 1] == Render(c)[..n - 1]
    ensures UnitLetter(t[n - 1]) == Some(c.unit) && Strings.LowerChar(t[n - 1]) == Render(c)[n - 1]
  {
    RunReadsStem(Start, t, c, n);
    RenderStem(c);
    assert t[..n - 1] == Stem(c);
  }

  function ShiftMatch(m: Option<Match>, k: nat): Option<Match> {
    if m.Some? then Some(Match(m.value.component, m.value.end + k)) else None
  }

  /** What `exec` finds in `b` it finds at the same place, moved by `|a|`, in `a + b`. */
  lemma {:induction false} ExecShift(a: string, b: string, p: nat)
    requires p <= |b|
    ensures Exec(a + b, |a| + p) == ShiftMatch(Exec(b, p), |a|)
    decreases |b| - p
  {
    if p < |b| {
      ExecStepShift(a, b, p);
      ExecShift(a, b, p + 1);
    }
  }

  /** The pattern matches at none of the positions `from` up to, but not including, `to`. */
  predicate NoMatchIn(s: string, from: nat, to: nat)
    requires from <= to <= |s|
  {
    forall q :: from <= q < to ==> MatchPrefix(s[q..]).None?
  }

  /** The pattern matches at position `p` of `s`, and its match is `m`. */
  predicate MatchAt(s: string, p: nat, m: Match) {
    p < m.end && p <= |s| && MatchPrefix(s[p..]) == Some((m.component, m.end - p))
  }

  /** A match `exec` returns is the match at the leftmost position at or after `from` where the pattern matches. */
  lemma {:induction false} ExecLeftmost(s: string, from: nat, m: Match)
    requires from <= |s| && Exec(s, from) == Some(m)
    ensures exists p :: from <= p && MatchAt(s, p, m) && NoMatchIn(s, from, p)
    decreases |s| - from
  {
    var t := s[from..];
    ExecStep(s, from, t);
    if MatchPrefix(t).Some? {
      assert MatchAt(s, from, m) && NoMatchIn(s, from, from);
    } else {
      ExecLeftmost(s, from + 1, m);
      var p :| from + 1 <= p && MatchAt(s, p, m) && NoMatchIn(s, from + 1, p);
      assert NoMatchIn(s, from, p);
    }
  }

  /** When `exec` returns `null`, the pattern matches at no position from `from` on. */
  lemma {:induction false} ExecNone(s: string, from: nat)
    requires from <= |s| && Exec(s, from) == None
    ensures NoMatchIn(s, from, |s|)
    decreases |s| - from
  {
    if from < |s| {
      ExecStep(s, from, s[from..]);
      ExecNone(s, from + 1);
    }
  }

  /** Where the pattern first matches at `p` after `from`, `exec` from `from` returns that match. */
  lemma {:induction false} ExecFinds(s: string, from: nat, p: nat)
    requires from <= p < |s| && NoMatchIn(s, from, p) && MatchPrefix(s[p..]).Some?
    ensures Exec(s, from) == Some(Match(MatchPrefix(s[p..]).value.0, p + MatchPrefix(s[p..]).value.1))
    decreases p - from
  {
    ExecStep(s, from, s[from..]);
    if from < p {
      assert MatchPrefix(s[from..]).None?;
      assert NoMatchIn(s, from + 1, p);
      ExecFinds(s, from + 1, p);
    }
  }

  /** One step of the search in `b` and in `a + b`: both find their match here, or both move on. */
  lemma {:induction false} ExecStepShift(a: string, b: string, p: nat)
    requires p < |b|
    ensures || Exec(a + b, |a| + p) == ShiftMatch(Exec(b, p), |a|)
            || (Exec(a + b, |a| + p) == Exec(a + b, |a| + p + 1) && Exec(b, p) == Exec(b, p + 1))
  {
    var t := b[p..];
    assert (a + b)[|a| + p..] == t;
    ExecStep(a + b, |a| + p, t);
    ExecStep(b, p, t);
  }

  /** One step of the search, with the text at the search position named. */
  lemma {:induction false} ExecStep(s: string, from: nat, t: string)
    requires from < |s| && t == s[from..]
    ensures Exec(s, from) == if MatchPrefix(t).Some? then Some(Match(MatchPrefix(t).value.0, from + MatchPrefix(t).value.1)) else Exec(s, from + 1)
  {
  }

  lemma {:induction false} ComponentsShift(a: string, b: string, p: nat)
    requires p <= |b|
    ensures Components(a + b, |a| + p) == Components(b, p)
    decreases |b| - p
  {
    ExecShift(a, b, p);
    var m := Exec(b, p);
    if m.Some? {
      ComponentsShift(a, b, m.value.end);
    }
  }

  /** Reading back a rendered list of components yields that list: the round trip closes. */
  lemma {:induction false} ComponentsOfRendered(cs: seq<Component>)
    requires forall c <- cs :: WellFormed(c)
    ensures Components(RenderAll(cs), 0) == cs
  {
    if cs == [] {
      assert Exec(RenderAll(cs), 0) == None;
    } else {
      var head := Render(cs[0]);
      var rest := RenderAll(cs[1..]);
      var s := head + rest;
      assert Components(s, 0) == [cs[0]] + Components(s, |head|) by {
        ExecRendered(cs[0], rest);
      }
      assert Components(s, |head|) == Components(rest, 0) by {
        ComponentsShift(head, rest, 0);
      }
      assert Components(rest, 0) == cs[1..] by {
        ComponentsOfRendered(cs[1..]);
      }
      assert RenderAll(cs) == s;
    }
  }

  /** The search from the start of a rendered component finds that component, ending where its text ends. */
  lemma {:induction false} ExecRendered(c: Component, rest: string)
    requires WellFormed(c)
    ensures Exec(Render(c) + rest, 0) == Some(Match(c, |Render(c)|))
  {
    var s := Render(c) + rest;
    MatchRendered(c, rest);
    assert s[0..] == s;
    ExecStep(s, 0, s);
  }

  /** The seconds a rendered list of components stands for are the sum of their seconds. */
  lemma {:induction false} AdjustmentOfRendered(cs: seq<Component>)
    requires forall c <- cs :: WellFormed(c)
    ensures AdjustmentSeconds(RenderAll(cs)) == Sum(cs)
  {
    ComponentsOfRendered(cs);
  }

  lemma {:induction false} SumConcat(a: seq<Component>, b: seq<Component>)
    requires forall c <- a :: WellFormed(c)
    requires forall c <- b :: WellFormed(c)
    ensures Sum(a + b) == Sum(a) + Sum(b)
  {
    if a == [] {
      assert a + b == b;
    } else {
      assert (a + b)[0] == a[0];
      assert (a + b)[1..] == a[1..] + b;
      SumConcat(a[1..], b);
    }
  }

  /** The total does not depend on the order of the components. */
  lemma {:induction false} SumPermutation(a: seq<Component>, b: seq<Component>)
    requires forall c <- a :: WellFormed(c)
    requires multiset(a) == multiset(b)
    ensures forall c <- b :: WellFormed(c)
    ensures Sum(a) == Sum(b)
    decreases |a|
  {
    PermutationWellFormed(a, b);
    if a != [] {
      var x := a[0];
      assert x in multiset(b) by {
        assert x in multiset(a);
      }
      var i :| 0 <= i < |b| && b[i] == x;
      var rest := b[..i] + b[i + 1..];
      assert multiset(a[1..]) == multiset(rest) by {
        RemoveMatchingHead(a, b, i);
      }
      assert Sum(b) == ComponentSeconds(x) + Sum(rest) by {
        SumRemove(b, i);
      }
      assert Sum(a[1..]) == Sum(rest) by {
        SumPermutation(a[1..], rest);
      }
    }
  }

  lemma {:induction false} PermutationWellFormed(a: seq<Component>, b: seq<Component>)
    requires forall c <- a :: WellFormed(c)
    requires multiset(a) == multiset(b)
    ensures forall c <- b :: WellFormed(c)
  {
    forall c | c in b ensures WellFormed(c) {
      assert c in multiset(b);
      assert c in multiset(a);
    }
  }

  /** Two permutations of each other, with the head of one taken from the other at `i`, stay permutations. */
  lemma {:induction false} RemoveMatchingHead(a: seq<Component>, b: seq<Component>, i: nat)
    requires a != [] && i < |b| && b[i] == a[0]
    requires multiset(a) == multiset(b)
    ensures multiset(a[1..]) == multiset(b[..i] + b[i + 1..])
  {
    var x, rest := a[0], b[..i] + b[i + 1..];
    MultisetRemove(b, i);
    assert a == [x] + a[1..];
    assert multiset(a) == multiset{x} + multiset(a[1..]);
    forall y ensures multiset(a[1..])[y] == multiset(rest)[y] {
      assert multiset(a)[y] == multiset{x}[y] + multiset(a[1..])[y];
      assert multiset(b)[y] == multiset{x}[y] + multiset(rest)[y];
    }
  }

  /** Taking out the element at `i` takes one copy of it out of the multiset. */
  lemma {:induction false} MultisetRemove(b: seq<Component>, i: nat)
    requires i < |b|
    ensures multiset(b) == multiset{b[i]} + multiset(b[..i] + b[i + 1..])
  {
    assert b == b[..i] + [b[i]] + b[i + 1..];
  }

  /** Taking out the element at `i` takes its seconds out of the sum. */
  lemma {:induction false} SumRemove(b: seq<Component>, i: nat)
    requires i < |b| && forall c <- b :: WellFormed(c)
    ensures Sum(b) == ComponentSeconds(b[i]) + Sum(b[..i] + b[i + 1..])
  {
    var left, right := b[..i], b[i + 1..];
    assert b == left + ([b[i]] + right);
    SumConcat(left, [b[i]] + right);
    assert ([b[i]] + right)[1..] == right;
    SumConcat(left, right);
  }

  /** `5m1h` means the same as `1h5m`: reordering the components of an adjustment keeps its value. */
  lemma {:induction false} OrderDoesNotMatter(a: seq<Component>, b: seq<Component>)
    requires forall c <- a :: WellFormed(c)
    requires multiset(a) == multiset(b)
    ensures AdjustmentSeconds(RenderAll(a)) == AdjustmentSeconds(RenderAll(b))
  {
    SumPermutation(a, b);
    AdjustmentOfRendered(a);
    AdjustmentOfRendered(b);
  }

  /** A text with no ASCII digit holds no component and adjusts by 0. */
  lemma {:induction false} NoDigitsNoAdjustment(s: string)
    requires forall k :: 0 <= k < |s| ==> !IsDigit(s[k])
    ensures Components(s, 0) == []
    ensures AdjustmentSeconds(s) == 0.0
  {
    NoDigitsNoMatch(s, 0);
  }

  lemma {:induction false} NoDigitsNoMatch(s: string, from: nat)
    requires from <= |s|
    requires forall k :: 0 <= k < |s| ==> !IsDigit(s[k])
    ensures Exec(s, from) == None
    decreases |s| - from
  {
    if from < |s| {
      var t := s[from..];
      assert !IsDigit(t[0]);
      if IsSignChar(t[0]) {
        var u := t[1..];
        if u != [] {
          assert u[0] == s[from + 1];
        }
        assert Run(AfterSign(if t[0] == '+' then Plus else Minus), u) == None;
      }
      assert MatchPrefix(t) == None;
      ExecStep(s, from, t);
      NoDigitsNoMatch(s, from + 1);
    }
  }

  /** `1h2m3.5s` is 3600 + 120 + 3.5 seconds. */
  lemma {:induction false} ExampleMixedUnits(s: string)
    requires s == "1h2m3.5s"
    ensures AdjustmentSeconds(s) == 3723.5
  {
    var cs := [Component(Unsigned, "1", None, Hours), Component(Unsigned, "2", None, Minutes),
               Component(Unsigned, "3", Some("5"), Seconds)];
    MixedUnitsText(cs);
    MixedUnitsSum(cs);
    AdjustmentOfRendered(cs);
  }

  lemma {:induction false} MixedUnitsText(cs: seq<Component>)
    requires cs == [Component(Unsigned, "1", None, Hours), Component(Unsigned, "2", None, Minutes),
                    Component(Unsigned, "3", Some("5"), Seconds)]
    ensures RenderAll(cs) == "1h2m3.5s"
  {
    assert RenderAll(cs[2..]) == "3.5s";
    assert RenderAll(cs[1..]) == "2m" + RenderAll(cs[2..]);
    assert RenderAll(cs) == "1h" + RenderAll(cs[1..]);
  }

  lemma {:induction false} MixedUnitsSum(cs: seq<Component>)
    requires cs == [Component(Unsigned, "1", None, Hours), Component(Unsigned, "2", None, Minutes),
                    Component(Unsigned, "3", Some("5"), Seconds)]
    ensures forall c <- cs :: WellFormed(c)
    ensures Sum(cs) == 3723.5
  {
    assert Sum(cs[2..]) == 3.5;
    assert Sum(cs[1..]) == 120.0 + Sum(cs[2..]);
    assert Sum(cs) == 3600.0 + Sum(cs[1..]);
  }

  /** A minus sign makes its component count backwards: `-1h` is -3600 seconds. */
  lemma {:induction false} ExampleNegative(s: string)
    requires s == "-1h"
    ensures AdjustmentSeconds(s) == -3600.0
  {
    var minus1h := Component(Minus, "1", None, Hours);
    assert RenderAll([minus1h]) == s;
    AdjustmentOfRendered([minus1h]);
  }

  /** `5m1h` is accepted in that order and is 3900 seconds. */
  lemma {:induction false} ExampleReordered(s: string)
    requires s == "5m1h"
    ensures AdjustmentSeconds(s) == 3900.0
  {
    var m5 := Component(Unsigned, "5", None, Minutes);
    var h1 := Component(Unsigned, "1", None, Hours);
    assert RenderAll([h1]) == "1h";
    assert RenderAll([m5, h1]) == "5m" + RenderAll([h1]);
    assert RenderAll([m5, h1]) == s;
    assert Sum([h1]) == 3600.0;
    assert Sum([m5, h1]) == 300.0 + Sum([h1]);
    AdjustmentOfRendered([m5, h1]);
  }
}
