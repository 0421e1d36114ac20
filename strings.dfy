/**
 * The JavaScript string built-ins the macros rely on: `trim`, `toLowerCase`,
 * `includes`, `startsWith`, `split` with a string separator and `Array.join`.
 */
module Strings {
  import opened Wrappers

  /** The code points `String.prototype.trim` removes: ECMAScript's WhiteSpace and LineTerminator. */
  predicate IsJsSpace(c: char) {
    || c == '\t' || c == '\n' || c == '\U{000B}' || c == '\U{000C}' || c == '\r' || c == ' '
    || c == '\U{00A0}' || c == '\U{1680}' || ('\U{2000}' <= c <= '\U{200A}')
    || c == '\U{2028}' || c == '\U{2029}' || c == '\U{202F}' || c == '\U{205F}'
    || c == '\U{3000}' || c == '\U{FEFF}'
  }

  /** Drops the leading white space: what is left is a suffix of `s` that is empty or starts with a non-space. */
  function TrimStart(s: string): (r: string)
    ensures |r| <= |s| && r == s[|s| - |r|..]
    ensures forall k :: 0 <= k < |s| - |r| ==> IsJsSpace(s[k])
    ensures r == [] || !IsJsSpace(r[0])
  {
    if s != [] && IsJsSpace(s[0]) then TrimStart(s[1..]) else s
  }

  /** Drops the trailing white space: what is left is a prefix of `s` that is empty or ends with a non-space. */
  function TrimEnd(s: string): (r: string)
    ensures |r| <= |s| && r == s[..|r|]
    ensures forall k :: |r| <= k < |s| ==> IsJsSpace(s[k])
    ensures r == [] || !IsJsSpace(r[|r| - 1])
  {
    if s != [] && IsJsSpace(s[|s| - 1]) then TrimEnd(s[..|s| - 1]) else s
  }

  /** `String.prototype.trim`. */
  function Trim(s: string): string {
    TrimEnd(TrimStart(s))
  }

  /** A string with no white space at either end. */
  predicate IsTrimmed(s: string) {
    s == [] || (!IsJsSpace(s[0]) && !IsJsSpace(s[|s| - 1]))
  }

  /** What Trim returns is trimmed. */
  lemma {:induction false} TrimIsTrimmed(s: string)
    ensures IsTrimmed(Trim(s))
  {
    var t := TrimStart(s);
    if Trim(s) != [] {
      assert Trim(s)[0] == t[0];
    }
  }

  /** What Trim returns is the infix of `s` that starts where the leading white space ends. */
  /** Where in `s` the trimmed text lies: its start and its length. */
  lemma {:induction false} TrimSlice(s: string) returns (i: nat, n: nat)
    ensures i + n <= |s| && Trim(s) == s[i..i + n]
  {
    var t := TrimStart(s);
    i, n := |s| - |t|, |TrimEnd(t)|;
    assert t == s[i..];
    assert Trim(s) == t[..n];
    SliceOfSuffix(s, i, n);
  }

  lemma {:induction false} SliceOfSuffix(s: string, i: nat, n: nat)
    requires i + n <= |s|
    ensures s[i..][..n] == s[i..i + n]
  {
  }

  lemma {:induction false} TrimmedIsFixed(s: string)
    requires IsTrimmed(s)
    ensures Trim(s) == s
  {
  }

  /** Trimming twice is trimming once. */
  lemma {:induction false} TrimIdempotent(s: string)
    ensures Trim(Trim(s)) == Trim(s)
  {
    TrimIsTrimmed(s);
    TrimmedIsFixed(Trim(s));
  }

  /** A string is blank exactly when every character of it is white space. */
  lemma {:induction false} TrimEmptyIffBlank(s: string)
    ensures Trim(s) == [] <==> forall k :: 0 <= k < |s| ==> IsJsSpace(s[k])
  {
    if forall k :: 0 <= k < |s| ==> IsJsSpace(s[k]) {
      AllSpaceTrimStart(s);
    }
  }

  lemma {:induction false} AllSpaceTrimStart(s: string)
    requires forall k :: 0 <= k < |s| ==> IsJsSpace(s[k])
    ensures TrimStart(s) == []
  {
    if s != [] {
      AllSpaceTrimStart(s[1..]);
    }
  }

  /** White space in front of a string never survives trimming. */
  lemma {:induction false} TrimLeadingSpace(c: char, s: string)
    requires IsJsSpace(c)
    ensures Trim([c] + s) == Trim(s)
  {
    assert ([c] + s)[1..] == s;
  }

  /** White space after a string never survives trimming. */
  lemma {:induction false} TrimTrailingSpace(s: string, c: char)
    requires IsJsSpace(c)
    ensures Trim(s + [c]) == Trim(s)
  {
    TrimStartSnoc(s, c);
    var t := TrimStart(s);
    if t != [] {
      assert (t + [c])[..|t|] == t;
    }
  }

  lemma {:induction false} TrimStartSnoc(s: string, c: char)
    requires IsJsSpace(c)
    ensures TrimStart(s + [c]) == if TrimStart(s) == [] then [] else TrimStart(s) + [c]
    decreases |s|
  {
    if s == [] {
      assert [c][1..] == [];
    } else if IsJsSpace(s[0]) {
      assert (s + [c])[1..] == s[1..] + [c];
      TrimStartSnoc(s[1..], c);
    }
  }

  /** `toLowerCase` on one code point, for the ASCII letters. */
  function LowerChar(c: char): char {
    if 'A' <= c <= 'Z' then (c as int + 32) as char else c
  }

  /** `String.prototype.toLowerCase`, restricted to ASCII letters. */
  function ToLower(s: string): (r: string)
    ensures |r| == |s|
    ensures forall k :: 0 <= k < |s| ==> r[k] == LowerChar(s[k])
  {
    seq(|s|, k requires 0 <= k < |s| => LowerChar(s[k]))
  }

  /** No upper-case ASCII letter is left. */
  predicate IsLower(s: string) {
    forall k :: 0 <= k < |s| ==> !('A' <= s[k] <= 'Z')
  }

  /** Lower-casing leaves only lower-case letters, and a lower-case string is left alone. */
  lemma {:induction false} ToLowerIsLower(s: string)
    ensures IsLower(ToLower(s))
    ensures IsLower(s) ==> ToLower(s) == s
  {
  }

  lemma {:induction false} ToLowerIdempotent(s: string)
    ensures ToLower(ToLower(s)) == ToLower(s)
  {
    ToLowerIsLower(s);
  }

  /** Lower-casing keeps white space where it was, so it commutes with trimming. */
  lemma {:induction false} ToLowerKeepsTrimmed(s: string)
    requires IsTrimmed(s)
    ensures IsTrimmed(ToLower(s))
  {
  }

  /** `t` occurs in `s` starting at index `i`. */
  predicate OccursAt(s: string, t: string, i: nat) {
    i + |t| <= |s| && s[i..i + |t|] == t
  }

  /** `s.indexOf(t, from)`: the first index at or after `from` where `t` occurs. */
  function IndexOf(s: string, t: string, from: nat): (r: Option<nat>)
    decreases |s| - from
    ensures r.Some? ==> from <= r.value && OccursAt(s, t, r.value)
    ensures r.Some? ==> forall k :: from <= k < r.value ==> !OccursAt(s, t, k)
    ensures r.None? ==> forall k :: from <= k ==> !OccursAt(s, t, k)
  {
    if from + |t| > |s| then None
    else if OccursAt(s, t, from) then Some(from)
    else IndexOf(s, t, from + 1)
  }

  /** `s.includes(t)`. */
  predicate Contains(s: string, t: string) {
    IndexOf(s, t, 0).Some?
  }

  /** `s.startsWith(t)`. */
  predicate StartsWith(s: string, t: string) {
    |t| <= |s| && s[..|t|] == t
  }

  /**
   * `s.split(sep)` for a non-empty separator: the pieces between the
   * non-overlapping occurrences of `sep`, found left to right.
   */
  function Split(s: string, sep: string): (r: seq<string>)
    requires sep != []
    decreases |s|
    ensures |r| >= 1
  {
    match IndexOf(s, sep, 0)
    case None => [s]
    case Some(i) => [s[..i]] + Split(s[i + |sep|..], sep)
  }

  /** `pieces.join(sep)`. */
  function Join(pieces: seq<string>, sep: string): string
    decreases |pieces|
  {
    if |pieces| == 0 then []
    else if |pieces| == 1 then pieces[0]
    else pieces[0] + sep + Join(pieces[1..], sep)
  }

  /** `r` is `s` with some elements deleted, the others kept in their order. */
  predicate IsSubsequence<T(==)>(r: seq<T>, s: seq<T>)
    decreases |s|
  {
    if r == [] then true
    else if s == [] then false
    else if r[0] == s[0] then IsSubsequence(r[1..], s[1..])
    else IsSubsequence(r, s[1..])
  }

  /** Splitting and joining again gives back the original string. */
  lemma {:induction false} JoinSplit(s: string, sep: string)
    requires sep != []
    ensures Join(Split(s, sep), sep) == s
    decreases |s|
  {
    var found := IndexOf(s, sep, 0);
    if found.Some? {
      var i := found.value;
      JoinSplit(s[i + |sep|..], sep);
      JoinSplitStep(s, sep, i);
    }
  }

  lemma {:induction false} JoinSplitStep(s: string, sep: string, i: nat)
    requires sep != [] && IndexOf(s, sep, 0) == Some(i)
    requires Join(Split(s[i + |sep|..], sep), sep) == s[i + |sep|..]
    ensures Join(Split(s, sep), sep) == s
  {
    var rest := s[i + |sep|..];
    var tail := Split(rest, sep);
    assert Split(s, sep) == [s[..i]] + tail;
    assert ([s[..i]] + tail)[1..] == tail;
    assert Join([s[..i]] + tail, sep) == s[..i] + sep + Join(tail, sep);
    assert s[i..i + |sep|] == sep;
    assert s == s[..i] + sep + rest;
  }

  /** No piece of a split contains the separator. */
  lemma {:induction false} SplitPiecesAvoidSeparator(s: string, sep: string)
    requires sep != []
    ensures forall p :: p in Split(s, sep) ==> !Contains(p, sep)
    decreases |s|
  {
    match IndexOf(s, sep, 0)
    case None =>
      assert Split(s, sep) == [s];
    case Some(i) =>
      var rest := s[i + |sep|..];
      SplitPiecesAvoidSeparator(rest, sep);
      var head := s[..i];
      HeadBeforeFirst(s, sep, i);
      assert Split(s, sep) == [head] + Split(rest, sep);
  }

  /** The text before the first occurrence of the separator does not contain it. */
  lemma {:induction false} HeadBeforeFirst(s: string, sep: string, i: nat)
    requires sep != [] && IndexOf(s, sep, 0) == Some(i)
    ensures i <= |s| && !Contains(s[..i], sep)
  {
    var head := s[..i];
    forall k: nat ensures !OccursAt(head, sep, k) {
      if k + |sep| <= i {
        assert head[k..k + |sep|] == s[k..k + |sep|];
        assert k < i ==> !OccursAt(s, sep, k);
      }
    }
    IndexOfNone(head, sep, 0);
  }

  /** Where `t` occurs nowhere from `from` on, the search finds nothing. */
  lemma {:induction false} IndexOfNone(s: string, t: string, from: nat)
    requires forall k: nat :: from <= k ==> !OccursAt(s, t, k)
    ensures IndexOf(s, t, from) == None
    decreases |s| - from
  {
    if from + |t| <= |s| {
      IndexOfNone(s, t, from + 1);
    }
  }

  /** A string that does not contain the separator splits into itself. */
  lemma {:induction false} SplitWithoutSeparator(s: string, sep: string)
    requires sep != [] && !Contains(s, sep)
    ensures Split(s, sep) == [s]
  {
  }

  /** Splitting at a single-character separator: the text before its first occurrence comes first. */
  lemma {:induction false} SplitAtFirst(a: string, c: char, b: string)
    requires !Contains(a, [c])
    ensures Split(a + [c] + b, [c]) == [a] + Split(b, [c])
  {
    var s := a + [c] + b;
    OccursAtChar(s, c, |a|);
    var i := IndexOf(s, [c], 0).value;
    OccursAtChar(s, c, i);
    if i < |a| {
      assert s[i] == a[i];
      OccursAtChar(a, c, i);
      assert false;
    }
    assert s[..|a|] == a;
    assert s[|a| + 1..] == b;
  }

  /** A character `c` is absent from `s`. */
  lemma {:induction false} NotContainsChar(s: string, c: char)
    requires forall k :: 0 <= k < |s| ==> s[k] != c
    ensures !Contains(s, [c])
  {
    if Contains(s, [c]) {
      var k := IndexOf(s, [c], 0).value;
      OccursAtChar(s, c, k);
      assert false;
    }
  }

  /** A one-character string occurs exactly where that character stands. */
  lemma {:induction false} OccursAtChar(s: string, c: char, k: nat)
    ensures OccursAt(s, [c], k) <==> k < |s| && s[k] == c
  {
    if k < |s| {
      assert s[k..k + 1] == [s[k]];
    }
  }

  /** A trailing single-character separator adds exactly one empty piece. */
  lemma {:induction false} SplitTrailingSeparator(s: string, c: char)
    ensures Split(s + [c], [c]) == Split(s, [c]) + [[]]
    decreases |s|
  {
    match IndexOf(s, [c], 0)
    case None =>
      assert !Contains(s, [c]);
      SplitAtFirst(s, c, []);
      assert s + [c] == s + [c] + [];
      assert Split([], [c]) == [[]];
    case Some(i) =>
      SplitBothAtFirst(s, c, i);
      SplitTrailingSeparator(s[i + 1..], c);
  }

  /** Both `s` and `s + [c]` split first at the first `c` of `s`. */
  lemma {:induction false} SplitBothAtFirst(s: string, c: char, i: nat)
    requires IndexOf(s, [c], 0) == Some(i)
    ensures i < |s|
    ensures Split(s, [c]) == [s[..i]] + Split(s[i + 1..], [c])
    ensures Split(s + [c], [c]) == [s[..i]] + Split(s[i + 1..] + [c], [c])
  {
    var head := s[..i];
    var rest := s[i + 1..];
    assert s == head + [c] + rest by { assert s[i..i + 1] == [c]; }
    HeadBeforeFirst(s, [c], i);
    SplitAtFirst(head, c, rest);
    assert s + [c] == head + [c] + (rest + [c]);
    SplitAtFirst(head, c, rest + [c]);
  }

  /** Before the end of `s`, `t` occurs in `s + x` exactly where it occurs in `s`. */
  lemma {:induction false} OccursInPrefix(s: string, x: string, t: string, k: nat)
    requires k + |t| <= |s|
    ensures OccursAt(s + x, t, k) <==> OccursAt(s, t, k)
  {
    assert (s + x)[k..k + |t|] == s[k..k + |t|];
  }

  /** An occurrence with none before it, from `from` on, is what the search returns. */
  lemma {:induction false} IndexOfFirst(s: string, t: string, from: nat, i: nat)
    requires from <= i && OccursAt(s, t, i)
    requires forall k :: from <= k < i ==> !OccursAt(s, t, k)
    ensures IndexOf(s, t, from) == Some(i)
    decreases i - from
  {
    if from < i {
      IndexOfFirst(s, t, from + 1, i);
    }
  }

  /** Text appended after `s` does not move the first occurrence found in `s`. */
  lemma {:induction false} IndexOfExtend(s: string, x: string, t: string, i: nat)
    requires IndexOf(s, t, 0) == Some(i)
    ensures IndexOf(s + x, t, 0) == Some(i)
  {
    OccursInPrefix(s, x, t, i);
    forall k | 0 <= k < i ensures !OccursAt(s + x, t, k) {
      OccursInPrefix(s, x, t, k);
    }
    IndexOfFirst(s + x, t, 0, i);
  }

  /** `,,` occurs where two commas stand side by side. */
  lemma {:induction false} OccursAtDoubleComma(s: string, k: nat)
    ensures OccursAt(s, ",,", k) <==> k + 1 < |s| && s[k] == ',' && s[k + 1] == ','
  {
    if k + 1 < |s| {
      assert s[k..k + 2] == [s[k], s[k + 1]];
    }
  }

  /**
   * Splitting at `,,` when the text before the first `,,` neither contains
   * `,,` nor ends in a comma: that text is the first piece.
   */
  lemma {:induction false} SplitAtFirstDoubleComma(a: string, rest: string)
    requires !Contains(a, ",,") && (a == [] || a[|a| - 1] != ',')
    ensures Split(a + ",," + rest, ",,") == [a] + Split(rest, ",,")
  {
    var s := a + ",," + rest;
    assert s == a + (",," + rest);
    OccursAtDoubleComma(s, |a|);
    forall k | 0 <= k < |a| ensures !OccursAt(s, ",,", k) {
      if k + 2 <= |a| {
        OccursInPrefix(a, ",," + rest, ",,", k);
      } else {
        OccursAtDoubleComma(s, k);
        assert s[k] == a[|a| - 1];
      }
    }
    IndexOfFirst(s, ",,", 0, |a|);
    assert s[..|a|] == a;
    assert s[|a| + 2..] == rest;
  }

  /** A trailing `,,` after a text that does not end in a comma adds exactly one empty piece. */
  lemma {:induction false} SplitTrailingDoubleComma(s: string)
    requires s == [] || s[|s| - 1] != ','
    ensures Split(s + ",,", ",,") == Split(s, ",,") + [[]]
    decreases |s|
  {
    match IndexOf(s, ",,", 0)
    case None =>
      SplitAtFirstDoubleComma(s, []);
      assert s + ",," + [] == s + ",,";
      assert Split([], ",,") == [[]];
    case Some(i) =>
      SplitBothAtFirstDoubleComma(s, i);
      var rest := s[i + 2..];
      assert rest == [] || rest[|rest| - 1] == s[|s| - 1];
      SplitTrailingDoubleComma(rest);
  }

  /** Both `s` and `s + ",,"` split first at the first `,,` of `s`. */
  lemma {:induction false} SplitBothAtFirstDoubleComma(s: string, i: nat)
    requires IndexOf(s, ",,", 0) == Some(i)
    ensures i + 2 <= |s|
    ensures Split(s + ",,", ",,") == [s[..i]] + Split(s[i + 2..] + ",,", ",,")
  {
    var t := s + ",,";
    IndexOfExtend(s, ",,", ",,", i);
    assert t[..i] == s[..i];
    assert t[i + 2..] == s[i + 2..] + ",,";
  }
}
