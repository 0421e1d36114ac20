/**
 * What the song-list catalog promises, proved about the fold of the
 * Catalog module (and so, through CreateMapFromSonglist's postcondition,
 * about the method).
 */
module CatalogProperties {
  import opened Wrappers
  import opened Strings
  import opened Catalog

  /** `addValueToMap` appends under its key and leaves every other key's list alone. */
  lemma {:induction false} LookupAddValue(songs: SongMap, key: string, value: string, k: string)
    ensures Lookup(AddValue(songs, key, value), k) == Lookup(songs, k) + (if k == key then [value] else [])
  {
  }

  // ----- The lists under each key, as an independent reference -----

  /** The identifiers one name field files under `key`: one `bv` for every alias whose key is `key`. */
  function AliasIds(names: seq<string>, bv: string, key: string): seq<string>
    decreases |names|
  {
    if names == [] then []
    else AliasIds(names[..|names| - 1], bv, key) + (if AliasKey(names[|names| - 1]) == Some(key) then [bv] else [])
  }

  function SectionIds(sections: seq<string>, aliasDelimiter: string, bv: string, key: string): seq<string>
    requires aliasDelimiter != []
    decreases |sections|
  {
    if sections == [] then []
    else (SectionIds(sections[..|sections| - 1], aliasDelimiter, bv, key)
      + AliasIds(Split(sections[|sections| - 1], aliasDelimiter), bv, key))
  }

  /** The identifiers one line files under `key`: none for a skipped or short line. */
  function LineIds(line: string, key: string): seq<string> {
    if IsSkipped(line) || |LineFields(line)| < 2 then []
    else SectionIds(LineFields(line)[1..], AliasDelimiter(IsHeavy(Trim(line))), LineFields(line)[0], key)
  }

  /** Every identifier filed under `key` by the whole file, in line order, duplicates kept. */
  function IdsFor(lines: seq<string>, key: string): seq<string>
    decreases |lines|
  {
    if lines == [] then [] else IdsFor(lines[..|lines| - 1], key) + LineIds(lines[|lines| - 1], key)
  }

  lemma {:induction false} LookupAliases(st: Catalog, names: seq<string>, bv: string, lineNo: nat, key: string)
    ensures Lookup(ProcessAliases(st, names, bv, lineNo).songs, key) == Lookup(st.songs, key) + AliasIds(names, bv, key)
    decreases |names|
  {
    if names != [] {
      var init, last := names[..|names| - 1], names[|names| - 1];
      var prev := ProcessAliases(st, init, bv, lineNo);
      LookupAliases(st, init, bv, lineNo, key);
      LookupAlias(prev, last, bv, lineNo, key);
      var extra: seq<string> := if AliasKey(last) == Some(key) then [bv] else [];
      assert AliasIds(names, bv, key) == AliasIds(init, bv, key) + extra;
      assert Lookup(st.songs, key) + AliasIds(init, bv, key) + extra == Lookup(st.songs, key) + (AliasIds(init, bv, key) + extra);
    }
  }

  lemma {:induction false} LookupAlias(st: Catalog, name: string, bv: string, lineNo: nat, key: string)
    ensures Lookup(ProcessAlias(st, name, bv, lineNo).songs, key)
         == Lookup(st.songs, key) + (if AliasKey(name) == Some(key) then [bv] else [])
  {
    var k := AliasKey(name);
    if k.Some? {
      LookupAddValue(st.songs, k.value, bv, key);
    }
  }

  lemma {:induction false} LookupSections(st: Catalog, sections: seq<string>, aliasDelimiter: string, bv: string, lineNo: nat, key: string)
    requires aliasDelimiter != []
    ensures Lookup(ProcessSections(st, sections, aliasDelimiter, bv, lineNo).songs, key)
         == Lookup(st.songs, key) + SectionIds(sections, aliasDelimiter, bv, key)
    decreases |sections|
  {
    if sections != [] {
      var init := sections[..|sections| - 1];
      var prev := ProcessSections(st, init, aliasDelimiter, bv, lineNo);
      LookupSections(st, init, aliasDelimiter, bv, lineNo, key);
      LookupAliases(prev, Split(sections[|sections| - 1], aliasDelimiter), bv, lineNo, key);
    }
  }

  lemma {:induction false} LookupLine(st: Catalog, line: string, lineNo: nat, key: string)
    ensures Lookup(ProcessLine(st, line, lineNo).songs, key) == Lookup(st.songs, key) + LineIds(line, key)
  {
    if !IsSkipped(line) && |LineFields(line)| >= 2 {
      var parts := LineFields(line);
      LookupSections(st, parts[1..], AliasDelimiter(IsHeavy(Trim(line))), parts[0], lineNo, key);
    }
  }

  /**
   * The list the catalog holds under a key is exactly the reference: every
   * identifier of every line with an alias of that key, in line order and
   * with duplicates kept.
   */
  lemma {:induction false} CatalogLookup(lines: seq<string>, key: string)
    ensures Lookup(BuildCatalog(lines).songs, key) == IdsFor(lines, key)
    decreases |lines|
  {
    if lines != [] {
      CatalogLookup(lines[..|lines| - 1], key);
      LookupLine(BuildCatalog(lines[..|lines| - 1]), lines[|lines| - 1], |lines|, key);
    }
  }

  // ----- Keys and lists are well formed -----

  /** A key is a non-empty, trimmed, lower-case string. */
  predicate IsKey(k: string) {
    k != [] && IsTrimmed(k) && IsLower(k)
  }

  /** Every key is normalised and every list is non-empty. */
  predicate WellFormedSongs(songs: SongMap) {
    forall k <- songs :: IsKey(k) && songs[k] != []
  }

  /** An alias gives a key exactly when it is not blank, and that key is normalised. */
  lemma {:induction false} AliasKeyNormalized(name: string)
    ensures AliasKey(name).Some? <==> Trim(name) != []
    ensures AliasKey(name).Some? ==> IsKey(AliasKey(name).value)
  {
    TrimIsTrimmed(name);
    ToLowerKeepsTrimmed(Trim(name));
    ToLowerKeepsTrimmed(ToLower(Trim(name)));
    ToLowerIsLower(ToLower(Trim(name)));
  }

  lemma {:induction false} AliasesKeepWellFormed(st: Catalog, names: seq<string>, bv: string, lineNo: nat)
    requires WellFormedSongs(st.songs)
    ensures WellFormedSongs(ProcessAliases(st, names, bv, lineNo).songs)
    decreases |names|
  {
    if names != [] {
      AliasesKeepWellFormed(st, names[..|names| - 1], bv, lineNo);
      AliasKeyNormalized(names[|names| - 1]);
    }
  }

  lemma {:induction false} SectionsKeepWellFormed(st: Catalog, sections: seq<string>, aliasDelimiter: string, bv: string, lineNo: nat)
    requires aliasDelimiter != [] && WellFormedSongs(st.songs)
    ensures WellFormedSongs(ProcessSections(st, sections, aliasDelimiter, bv, lineNo).songs)
    decreases |sections|
  {
    if sections != [] {
      var init := sections[..|sections| - 1];
      SectionsKeepWellFormed(st, init, aliasDelimiter, bv, lineNo);
      AliasesKeepWellFormed(ProcessSections(st, init, aliasDelimiter, bv, lineNo), Split(sections[|sections| - 1], aliasDelimiter), bv, lineNo);
    }
  }

  /** Every key of the catalog is a non-empty, trimmed, lower-case alias, and no list is empty. */
  lemma {:induction false} CatalogWellFormed(lines: seq<string>)
    ensures WellFormedSongs(BuildCatalog(lines).songs)
    decreases |lines|
  {
    if lines != [] {
      var prev := BuildCatalog(lines[..|lines| - 1]);
      var line := lines[|lines| - 1];
      CatalogWellFormed(lines[..|lines| - 1]);
      if !IsSkipped(line) && |LineFields(line)| >= 2 {
        SectionsKeepWellFormed(prev, LineFields(line)[1..], AliasDelimiter(IsHeavy(Trim(line))), LineFields(line)[0], |lines|);
      }
    }
  }

  /** A key is in the catalog exactly when some line files an identifier under it. */
  lemma {:induction false} CatalogHasKey(lines: seq<string>, key: string)
    ensures key in BuildCatalog(lines).songs <==> IdsFor(lines, key) != []
  {
    CatalogLookup(lines, key);
    CatalogWellFormed(lines);
  }

  // ----- Warnings -----

  /** `r` extends `w` by copies of `n` only. */
  predicate ExtendsWith(w: seq<nat>, r: seq<nat>, n: nat) {
    |w| <= |r| && r[..|w|] == w && forall i :: |w| <= i < |r| ==> r[i] == n
  }

  lemma {:induction false} AliasesWarnOnlyThisLine(st: Catalog, names: seq<string>, bv: string, lineNo: nat)
    ensures ExtendsWith(st.warnings, ProcessAliases(st, names, bv, lineNo).warnings, lineNo)
    decreases |names|
  {
    if names != [] {
      AliasesWarnOnlyThisLine(st, names[..|names| - 1], bv, lineNo);
      var prev := ProcessAliases(st, names[..|names| - 1], bv, lineNo);
      assert (prev.warnings + [lineNo])[..|st.warnings|] == prev.warnings[..|st.warnings|];
    }
  }

  lemma {:induction false} SectionsWarnOnlyThisLine(st: Catalog, sections: seq<string>, aliasDelimiter: string, bv: string, lineNo: nat)
    requires aliasDelimiter != []
    ensures ExtendsWith(st.warnings, ProcessSections(st, sections, aliasDelimiter, bv, lineNo).warnings, lineNo)
    decreases |sections|
  {
    if sections != [] {
      var init := sections[..|sections| - 1];
      var prev := ProcessSections(st, init, aliasDelimiter, bv, lineNo);
      SectionsWarnOnlyThisLine(st, init, aliasDelimiter, bv, lineNo);
      AliasesWarnOnlyThisLine(prev, Split(sections[|sections| - 1], aliasDelimiter), bv, lineNo);
      ExtendsTransitive(st.warnings, prev.warnings, ProcessSections(st, sections, aliasDelimiter, bv, lineNo).warnings, lineNo);
    }
  }

  lemma {:induction false} ExtendsTransitive(w: seq<nat>, v: seq<nat>, r: seq<nat>, n: nat)
    requires ExtendsWith(w, v, n) && ExtendsWith(v, r, n)
    ensures ExtendsWith(w, r, n)
  {
    assert r[..|w|] == r[..|v|][..|w|];
    forall i | |w| <= i < |r| ensures r[i] == n {
      if i < |v| {
        assert r[i] == r[..|v|][i];
      }
    }
  }

  /** A line's warnings all carry its own line number and come after the earlier ones. */
  lemma {:induction false} LineWarnsOnlyThisLine(st: Catalog, line: string, lineNo: nat)
    ensures ExtendsWith(st.warnings, ProcessLine(st, line, lineNo).warnings, lineNo)
  {
    if !IsSkipped(line) && |LineFields(line)| >= 2 {
      var parts := LineFields(line);
      SectionsWarnOnlyThisLine(st, parts[1..], AliasDelimiter(IsHeavy(Trim(line))), parts[0], lineNo);
    } else if !IsSkipped(line) {
      assert (st.warnings + [lineNo])[..|st.warnings|] == st.warnings;
    }
  }

  /** The warnings are line numbers of the file, in non-decreasing order. */
  lemma {:induction false} WarningsOrdered(lines: seq<string>)
    ensures forall i :: 0 <= i < |BuildCatalog(lines).warnings| ==> 1 <= BuildCatalog(lines).warnings[i] <= |lines|
    ensures forall i, j :: 0 <= i < j < |BuildCatalog(lines).warnings| ==> BuildCatalog(lines).warnings[i] <= BuildCatalog(lines).warnings[j]
    decreases |lines|
  {
    if lines != [] {
      var n := |lines|;
      var st := BuildCatalog(lines[..n - 1]);
      var prev := st.warnings;
      WarningsOrdered(lines[..n - 1]);
      LineWarnsOnlyThisLine(st, lines[n - 1], n);
      var w := ProcessLine(st, lines[n - 1], n).warnings;
      assert w == BuildCatalog(lines).warnings;
      OrderedExtension(prev, w, n);
    }
  }

  /** Appending copies of `n` to line numbers below `n`, in order, keeps them in order. */
  lemma {:induction false} OrderedExtension(prev: seq<nat>, w: seq<nat>, n: nat)
    requires forall i :: 0 <= i < |prev| ==> 1 <= prev[i] <= n - 1
    requires forall i, j :: 0 <= i < j < |prev| ==> prev[i] <= prev[j]
    requires ExtendsWith(prev, w, n) && n >= 1
    ensures forall i :: 0 <= i < |w| ==> 1 <= w[i] <= n
    ensures forall i, j :: 0 <= i < j < |w| ==> w[i] <= w[j]
  {
    forall i | 0 <= i < |w| ensures 1 <= w[i] <= n {
      if i < |prev| {
        assert w[..|prev|][i] == w[i];
      }
    }
    forall i, j | 0 <= i < j < |w| ensures w[i] <= w[j] {
      if j < |prev| {
        assert w[..|prev|][i] == w[i] && w[..|prev|][j] == w[j];
      } else {
        assert w[j] == n;
      }
    }
  }

  // ----- The warnings, as an independent reference -----

  /** `k` copies of the line number `n`. */
  function Copies(n: nat, k: nat): seq<nat> {
    seq(k, _ => n)
  }

  /** Appending `a` and then `b` copies of `n` appends `a + b` copies. */
  lemma {:induction false} AppendCopies(w: seq<nat>, n: nat, a: nat, b: nat)
    ensures w + Copies(n, a) + Copies(n, b) == w + Copies(n, a + b)
  {
    assert Copies(n, a) + Copies(n, b) == Copies(n, a + b);
  }

  /** 1 for an alias that is blank once trimmed, 0 for any other. */
  function Blank(name: string): nat {
    if Trim(name) == [] then 1 else 0
  }

  /** How many of the aliases are blank once trimmed. */
  function BlankCount(names: seq<string>): nat
    decreases |names|
  {
    if names == [] then 0 else BlankCount(names[..|names| - 1]) + Blank(names[|names| - 1])
  }

  /** How many blank aliases the name fields hold, each field split at the alias delimiter. */
  function SectionBlanks(sections: seq<string>, aliasDelimiter: string): nat
    requires aliasDelimiter != []
    decreases |sections|
  {
    if sections == [] then 0
    else SectionBlanks(sections[..|sections| - 1], aliasDelimiter) + BlankCount(Split(sections[|sections| - 1], aliasDelimiter))
  }

  /**
   * The warnings one line gives: none for a skipped line, one for a record
   * with fewer than two fields, and otherwise one for every blank alias of
   * every name field.
   */
  function LineWarnings(line: string, lineNo: nat): seq<nat> {
    if IsSkipped(line) then []
    else if |LineFields(line)| < 2 then [lineNo]
    else Copies(lineNo, SectionBlanks(LineFields(line)[1..], AliasDelimiter(IsHeavy(Trim(line)))))
  }

  /** The warnings of the whole file: those of each line, lines numbered from 1, in line order. */
  function AllWarnings(lines: seq<string>): seq<nat>
    decreases |lines|
  {
    if lines == [] then [] else AllWarnings(lines[..|lines| - 1]) + LineWarnings(lines[|lines| - 1], |lines|)
  }

  lemma {:induction false} AliasWarnings(st: Catalog, name: string, bv: string, lineNo: nat)
    ensures ProcessAlias(st, name, bv, lineNo).warnings == st.warnings + Copies(lineNo, Blank(name))
  {
    AliasKeyNormalized(name);
  }

  lemma {:induction false} AliasesWarnings(st: Catalog, names: seq<string>, bv: string, lineNo: nat)
    ensures ProcessAliases(st, names, bv, lineNo).warnings == st.warnings + Copies(lineNo, BlankCount(names))
    decreases |names|
  {
    if names != [] {
      var init, last := names[..|names| - 1], names[|names| - 1];
      var prev := ProcessAliases(st, init, bv, lineNo);
      assert ProcessAliases(st, names, bv, lineNo) == ProcessAlias(prev, last, bv, lineNo);
      assert BlankCount(names) == BlankCount(init) + Blank(last);
      AliasesWarnings(st, init, bv, lineNo);
      AliasWarnings(prev, last, bv, lineNo);
      AppendCopies(st.warnings, lineNo, BlankCount(init), Blank(last));
    }
  }

  lemma {:induction false} SectionsWarnings(st: Catalog, sections: seq<string>, aliasDelimiter: string, bv: string, lineNo: nat)
    requires aliasDelimiter != []
    ensures ProcessSections(st, sections, aliasDelimiter, bv, lineNo).warnings
         == st.warnings + Copies(lineNo, SectionBlanks(sections, aliasDelimiter))
    decreases |sections|
  {
    if sections != [] {
      var init := sections[..|sections| - 1];
      var names := Split(sections[|sections| - 1], aliasDelimiter);
      var a, b := SectionBlanks(init, aliasDelimiter), BlankCount(names);
      SectionsWarnings(st, init, aliasDelimiter, bv, lineNo);
      AliasesWarnings(ProcessSections(st, init, aliasDelimiter, bv, lineNo), names, bv, lineNo);
      AppendCopies(st.warnings, lineNo, a, b);
    }
  }

  /** A line appends exactly its own warnings. */
  lemma {:induction false} LineWarningsExact(st: Catalog, line: string, lineNo: nat)
    ensures ProcessLine(st, line, lineNo).warnings == st.warnings + LineWarnings(line, lineNo)
  {
    if !IsSkipped(line) && |LineFields(line)| >= 2 {
      var parts := LineFields(line);
      SectionsWarnings(st, parts[1..], AliasDelimiter(IsHeavy(Trim(line))), parts[0], lineNo);
    } else if IsSkipped(line) {
      assert st.warnings + [] == st.warnings;
    }
  }

  /**
   * The warnings shown for a file are, in line order, one for each record
   * with fewer than two fields and one for each blank alias of every other
   * record, each carrying its line number.
   */
  lemma {:induction false} CatalogWarnings(lines: seq<string>)
    ensures BuildCatalog(lines).warnings == AllWarnings(lines)
    decreases |lines|
  {
    if lines != [] {
      CatalogWarnings(lines[..|lines| - 1]);
      LineWarningsExact(BuildCatalog(lines[..|lines| - 1]), lines[|lines| - 1], |lines|);
    }
  }

  // ----- Single lines -----

  lemma {:induction false} AppendLine(lines: seq<string>, line: string)
    ensures BuildCatalog(lines + [line]) == ProcessLine(BuildCatalog(lines), line, |lines| + 1)
  {
    assert (lines + [line])[..|lines|] == lines;
  }

  /** A line that is blank after trimming, or that starts with `#`, changes neither the map nor the warnings. */
  lemma {:induction false} SkippedLineChangesNothing(lines: seq<string>, line: string)
    requires IsSkipped(line)
    ensures BuildCatalog(lines + [line]) == BuildCatalog(lines)
  {
    AppendLine(lines, line);
  }

  /** A record with fewer than two fields adds exactly one warning, its line number, and files nothing. */
  lemma {:induction false} ShortLineWarns(lines: seq<string>, line: string)
    requires !IsSkipped(line) && |LineFields(line)| < 2
    ensures BuildCatalog(lines + [line]).songs == BuildCatalog(lines).songs
    ensures BuildCatalog(lines + [line]).warnings == BuildCatalog(lines).warnings + [|lines| + 1]
  {
    AppendLine(lines, line);
  }

  // ----- Fields -----

  /** A text that avoids `sep` avoids it in every piece `p[i..i + n]` of it. */
  lemma {:induction false} InfixAvoids(p: string, i: nat, n: nat, sep: string)
    requires i + n <= |p| && !Contains(p, sep)
    ensures !Contains(p[i..i + n], sep)
  {
    var t := p[i..i + n];
    forall k: nat | k + |sep| <= |t| ensures !OccursAt(t, sep, k) {
      InfixOccurrence(p, i, n, sep, k);
    }
    IndexOfNone(t, sep, 0);
  }

  lemma {:induction false} InfixOccurrence(p: string, i: nat, n: nat, sep: string, k: nat)
    requires i + n <= |p| && k + |sep| <= n
    ensures OccursAt(p[i..i + n], sep, k) <==> OccursAt(p, sep, i + k)
  {
    var t := p[i..i + n];
    assert t[k..k + |sep|] == p[i + k..i + k + |sep|] by {
      forall j | i + k <= j < i + k + |sep| ensures t[j - i] == p[j] {
      }
    }
  }

  lemma {:induction false} TrimAvoids(p: string, sep: string)
    requires !Contains(p, sep)
    ensures !Contains(Trim(p), sep)
  {
    var i, n := TrimSlice(p);
    InfixAvoids(p, i, n, sep);
  }

  /** Every field is non-empty, trimmed, and free of the field delimiter it was split at. */
  lemma {:induction false} FieldsWellFormed(trimmed: string, delimiter: string)
    requires delimiter != []
    ensures forall f <- Fields(trimmed, delimiter) :: f != [] && IsTrimmed(f) && !Contains(f, delimiter)
  {
    var pieces := Split(trimmed, delimiter);
    SplitPiecesAvoidSeparator(trimmed, delimiter);
    forall f | f in Fields(trimmed, delimiter) ensures f != [] && IsTrimmed(f) && !Contains(f, delimiter) {
      assert f in TrimAll(pieces);
      var i :| 0 <= i < |pieces| && f == Trim(pieces[i]);
      TrimIsTrimmed(pieces[i]);
      assert pieces[i] in pieces;
      TrimAvoids(pieces[i], delimiter);
    }
  }

  lemma {:induction false} DropEmptyConcat(a: seq<string>, b: seq<string>)
    ensures DropEmpty(a + b) == DropEmpty(a) + DropEmpty(b)
    decreases |a|
  {
    if a == [] {
      ConcatParts(a, b);
    } else {
      var head: seq<string> := if a[0] == [] then [] else [a[0]];
      ConcatParts(a, b);
      DropEmptyUnfold(a + b);
      DropEmptyUnfold(a);
      DropEmptyConcat(a[1..], b);
      ConcatAssoc(head, DropEmpty(a[1..]), DropEmpty(b));
    }
  }

  /** Each non-empty element occurs in the filtered list exactly as often as in the input. */
  lemma {:induction false} DropEmptyKeepsCounts(ps: seq<string>, p: string)
    requires p != []
    ensures multiset(DropEmpty(ps))[p] == multiset(ps)[p]
    decreases |ps|
  {
    if ps != [] {
      var head: seq<string> := if ps[0] == [] then [] else [ps[0]];
      DropEmptyUnfold(ps);
      DropEmptyKeepsCounts(ps[1..], p);
      assert ps == [ps[0]] + ps[1..];
      assert multiset(DropEmpty(ps)) == multiset(head) + multiset(DropEmpty(ps[1..]));
      assert multiset(ps) == multiset([ps[0]]) + multiset(ps[1..]);
    }
  }

  /** One step of the filter: the first element, when it is not empty, and the filtered rest. */
  lemma {:induction false} DropEmptyUnfold(ps: seq<string>)
    requires ps != []
    ensures DropEmpty(ps) == (if ps[0] == [] then [] else [ps[0]]) + DropEmpty(ps[1..])
  {
  }

  lemma {:induction false} ConcatParts(a: seq<string>, b: seq<string>)
    ensures a == [] ==> a + b == b
    ensures a != [] ==> (a + b)[0] == a[0] && (a + b)[1..] == a[1..] + b
  {
  }

  lemma {:induction false} ConcatAssoc(x: seq<string>, y: seq<string>, z: seq<string>)
    ensures x + (y + z) == (x + y) + z
  {
  }

  lemma {:induction false} DropEmptyCons(x: string, rest: seq<string>)
    ensures DropEmpty([x] + rest) == (if x == [] then [] else [x]) + DropEmpty(rest)
  {
    assert ([x] + rest)[0] == x && ([x] + rest)[1..] == rest;
    DropEmptyUnfold([x] + rest);
  }

  lemma {:induction false} TrimAllConcat(a: seq<string>, b: seq<string>)
    ensures TrimAll(a + b) == TrimAll(a) + TrimAll(b)
  {
  }

  /** An empty piece at the end trims to nothing and is dropped. */
  lemma {:induction false} DropTrailingEmpty(pieces: seq<string>)
    ensures DropEmpty(TrimAll(pieces + [[]])) == DropEmpty(TrimAll(pieces))
  {
    var trimmed := TrimAll(pieces);
    assert TrimAll(pieces + [[]]) == trimmed + [[]] by {
      TrimAllConcat(pieces, [[]]);
      assert TrimAll([[]]) == [[]];
    }
    DropEmptyConcat(trimmed, [[]]);
  }

  /** A trailing one-character delimiter adds no field. */
  lemma {:induction false} FieldsTrailingDelimiter(s: string, c: char)
    ensures Fields(s + [c], [c]) == Fields(s, [c])
  {
    SplitTrailingSeparator(s, c);
    DropTrailingEmpty(Split(s, [c]));
  }

  /** A trimmed line is read in the mode it selects, without further trimming. */
  lemma {:induction false} LineFieldsOfTrimmed(t: string)
    requires IsTrimmed(t)
    ensures LineFields(t) == Fields(t, SongDelimiter(IsHeavy(t)))
  {
    TrimmedIsFixed(t);
  }

  /** Text that ends in a non-space, appended to a non-empty trimmed text, keeps it trimmed. */
  lemma {:induction false} AppendKeepsTrimmed(t: string, x: string)
    requires t != [] && IsTrimmed(t) && x != [] && !IsJsSpace(x[|x| - 1])
    ensures IsTrimmed(t + x)
  {
    assert (t + x)[0] == t[0] && (t + x)[|t + x| - 1] == x[|x| - 1];
  }

  /** A comma after a light text that does not end in a comma creates no `,,`. */
  lemma {:induction false} CommaKeepsLight(t: string)
    requires !Contains(t, ",,") && t != [] && t[|t| - 1] != ','
    ensures !Contains(t + ",", ",,")
  {
    var u := t + ",";
    forall k: nat ensures !OccursAt(u, ",,", k) {
      OccursAtDoubleComma(u, k);
      if k + 2 <= |t| {
        OccursInPrefix(t, ",", ",,", k);
      } else if k + 1 < |u| {
        assert u[k] == t[|t| - 1];
      }
    }
    IndexOfNone(u, ",,", 0);
  }

  /**
   * Light mode: a comma at the end of a light record that does not already
   * end in a comma adds no field, and the record stays light.
   */
  lemma {:induction false} LightTrailingDelimiter(t: string)
    requires IsTrimmed(t) && !IsHeavy(t) && t != [] && t[|t| - 1] != ','
    ensures IsTrimmed(t + ",") && !IsHeavy(t + ",")
    ensures LineFields(t + ",") == LineFields(t)
  {
    AppendKeepsTrimmed(t, ",");
    CommaKeepsLight(t);
    LineFieldsOfTrimmed(t + ",");
    LineFieldsOfTrimmed(t);
    FieldsTrailingDelimiter(t, ',');
  }

  /** Splitting at `,,`: a trailing `,,` after a text that does not end in a comma adds no field. */
  lemma {:induction false} FieldsTrailingDoubleComma(t: string)
    requires t == [] || t[|t| - 1] != ','
    ensures Fields(t + ",,", ",,") == Fields(t, ",,")
  {
    SplitTrailingDoubleComma(t);
    DropTrailingEmpty(Split(t, ",,"));
  }

  /**
   * Heavy mode: the `,,` that ends a heavy record adds no field, provided
   * the text before it does not end in a comma (otherwise the split takes
   * that comma as the first of the pair and a field `,` appears).
   */
  lemma {:induction false} HeavyTrailingDelimiter(t: string)
    requires t != [] && IsTrimmed(t) && IsHeavy(t) && t[|t| - 1] != ','
    ensures IsTrimmed(t + ",,") && IsHeavy(t + ",,")
    ensures LineFields(t + ",,") == LineFields(t)
  {
    AppendKeepsTrimmed(t, ",,");
    IndexOfExtend(t, ",,", ",,", IndexOf(t, ",,", 0).value);
    LineFieldsOfTrimmed(t + ",,");
    LineFieldsOfTrimmed(t);
    FieldsTrailingDoubleComma(t);
  }

  /** Splitting at `,,`: `,,,,` after a text that holds no `,,` and does not end in a comma gives one empty piece more than `,,`. */
  lemma {:induction false} FieldsRepeatedDoubleComma(a: string, b: string)
    requires !Contains(a, ",,") && (a == [] || a[|a| - 1] != ',')
    ensures Fields(a + ",,,," + b, ",,") == Fields(a + ",," + b, ",,")
  {
    assert a + ",,,," + b == a + ",," + (",," + b);
    SplitAtFirstDoubleComma(a, ",," + b);
    assert Split(",," + b, ",,") == [[]] + Split(b, ",,") by {
      assert [] + ",," + b == ",," + b;
      SplitAtFirstDoubleComma([], b);
    }
    SplitAtFirstDoubleComma(a, b);
    EmptyPieceDropped(a, Split(b, ",,"));
  }

  /**
   * Heavy mode: `,,,,` between two fields gives the same fields as `,,`,
   * when the text before it holds no `,,` and does not end in a comma.
   */
  lemma {:induction false} HeavyRepeatedDelimiter(a: string, b: string)
    requires a != [] && b != [] && !IsJsSpace(a[0]) && !IsJsSpace(b[|b| - 1])
    requires !Contains(a, ",,") && a[|a| - 1] != ','
    ensures IsTrimmed(a + ",,,," + b) && IsHeavy(a + ",,,," + b)
    ensures IsTrimmed(a + ",," + b) && IsHeavy(a + ",," + b)
    ensures LineFields(a + ",,,," + b) == LineFields(a + ",," + b)
  {
    var long, short := a + ",,,," + b, a + ",," + b;
    assert long == a + (",,,," + b) && short == a + (",," + b);
    HeavyJoin(a, ",,,," + b);
    HeavyJoin(a, ",," + b);
    LineFieldsOfTrimmed(long);
    LineFieldsOfTrimmed(short);
    FieldsRepeatedDoubleComma(a, b);
  }

  /** A text with no space at either end and `,,` right after its part `a` is a trimmed, heavy line. */
  lemma {:induction false} HeavyJoin(a: string, x: string)
    requires a != [] && !IsJsSpace(a[0]) && |x| >= 2 && x[0] == ',' && x[1] == ',' && !IsJsSpace(x[|x| - 1])
    ensures IsTrimmed(a + x) && IsHeavy(a + x)
  {
    var s := a + x;
    assert s[0] == a[0] && s[|s| - 1] == x[|x| - 1];
    OccursAtDoubleComma(s, |a|);
  }

  /**
   * Aliases are split without dropping empty pieces, so a doubled alias
   * delimiter inside a name field yields an empty alias, and that field
   * gives exactly one warning more, carrying the line number.
   */
  lemma {:induction false} DoubledAliasDelimiterWarns(st: Catalog, a: string, c: char, b: string, bv: string, lineNo: nat)
    requires !Contains(a, [c])
    ensures Split(a + [c] + [c] + b, [c]) == [a] + ([[]] + Split(b, [c]))
    ensures ProcessAliases(st, Split(a + [c] + [c] + b, [c]), bv, lineNo).warnings
         == ProcessAliases(st, Split(a + [c] + b, [c]), bv, lineNo).warnings + [lineNo]
  {
    SplitDoubled(a, c, b);
    SplitAtFirst(a, c, b);
    EmptyAliasWarns(st, a, Split(b, [c]), bv, lineNo);
  }

  /** An empty alias inserted after the first one adds one warning. */
  lemma {:induction false} EmptyAliasWarns(st: Catalog, a: string, rest: seq<string>, bv: string, lineNo: nat)
    ensures ProcessAliases(st, [a] + ([[]] + rest), bv, lineNo).warnings
         == ProcessAliases(st, [a] + rest, bv, lineNo).warnings + [lineNo]
  {
    EmptyAliasCounts(a, rest);
    var k := BlankCount([a] + rest);
    AliasesWarnings(st, [a] + ([[]] + rest), bv, lineNo);
    AliasesWarnings(st, [a] + rest, bv, lineNo);
    AppendCopies(st.warnings, lineNo, k, 1);
    assert Copies(lineNo, 1) == [lineNo];
  }

  lemma {:induction false} EmptyAliasCounts(a: string, rest: seq<string>)
    ensures BlankCount([a] + ([[]] + rest)) == BlankCount([a] + rest) + 1
  {
    var emptyAlias: seq<string> := [[]];
    BlankCountConcat([a], emptyAlias + rest);
    BlankCountConcat(emptyAlias, rest);
    BlankCountConcat([a], rest);
    assert BlankCount(emptyAlias) == 1 by {
      assert emptyAlias[..0] == [];
    }
  }

  /** The blank aliases of two lists of aliases add up. */
  lemma {:induction false} BlankCountConcat(x: seq<string>, y: seq<string>)
    ensures BlankCount(x + y) == BlankCount(x) + BlankCount(y)
    decreases |y|
  {
    if y == [] {
      assert x + y == x;
    } else {
      var init := y[..|y| - 1];
      assert (x + y)[..|x + y| - 1] == x + init && (x + y)[|x + y| - 1] == y[|y| - 1];
      BlankCountConcat(x, init);
    }
  }

  lemma {:induction false} SplitDoubled(a: string, c: char, b: string)
    requires !Contains(a, [c])
    ensures Split(a + [c] + [c] + b, [c]) == [a] + ([[]] + Split(b, [c]))
  {
    assert a + [c] + [c] + b == a + [c] + ([c] + b);
    SplitAtFirst(a, c, [c] + b);
    NotContainsChar([], c);
    SplitAtFirst([], c, b);
    assert [] + [c] + b == [c] + b;
  }

  lemma {:induction false} EmptyPieceDropped(a: string, rest: seq<string>)
    ensures DropEmpty(TrimAll([a] + ([[]] + rest))) == DropEmpty(TrimAll([a] + rest))
  {
    var head, tail := TrimAll([a]), TrimAll(rest);
    assert TrimAll([a] + ([[]] + rest)) == head + ([[]] + tail) by {
      TrimAllConcat([a], [[]] + rest);
      TrimAllConcat([[]], rest);
      assert TrimAll([[]]) == [[]];
    }
    assert TrimAll([a] + rest) == head + tail by {
      TrimAllConcat([a], rest);
    }
    DropEmptyConcat(head, [[]] + tail);
    DropEmptyConcat([[]], tail);
    DropEmptyConcat(head, tail);
  }
}
