/**
 * `createMapFromSonglistFile` and `addValueToMap` (macro.js): a song list,
 * one record per line, becomes a map from every lower-cased song alias to
 * the list of video identifiers (BV numbers) filed under it.
 *
 * A record is `BV, name, name2, alias/alias/...` in light mode or
 * `BV,, name,, alias\alias\...,,` in heavy mode; heavy mode is chosen when
 * the trimmed line contains `,,`. Blank lines and lines starting with `#`
 * are skipped. The editor warnings the source shows become the returned
 * list of line numbers.
 *
 * The file is given as its sequence of lines. The specification is a fold:
 * ProcessAlias, ProcessAliases, ProcessSections and ProcessLine describe one
 * step each, BuildCatalog the whole file, and the method
 * CreateMapFromSonglist is proved to compute it.
 */
module Catalog {
  import opened Wrappers
  import opened Strings

  type SongMap = map<string, seq<string>>

  /** The list filed under `key`, empty when the key is absent. */
  function Lookup(songs: SongMap, key: string): seq<string> {
    if key in songs then songs[key] else []
  }

  /**
   * `addValueToMap`: appends `value` to the list under `key`, creating the
   * list `[value]` when the key is new; every other key keeps its list.
   */
  function AddValue(songs: SongMap, key: string, value: string): (r: SongMap)
    ensures r.Keys == songs.Keys + {key}
    ensures r[key] == Lookup(songs, key) + [value]
    ensures forall k :: k in songs && k != key ==> r[k] == songs[k]
  {
    if key in songs then songs[key := songs[key] + [value]] else songs[key := [value]]
  }

  /** The JavaScript `Map` the file is read into; `addValueToMap` updates it in place. */
  class SongTable {
    var entries: SongMap

    constructor ()
      ensures entries == map[]
    {
      entries := map[];
    }

    method AddValueToMap(key: string, newValue: string)
      modifies this
      ensures entries == AddValue(old(entries), key, newValue)
    {
      if key in entries {
        entries := entries[key := entries[key] + [newValue]];
      } else {
        entries := entries[key := [newValue]];
      }
    }
  }

  /** The map built so far and the line numbers warned about so far. */
  datatype Catalog = Catalog(songs: SongMap, warnings: seq<nat>)

  const Empty := Catalog(map[], [])

  /** The field separator: `,,` in heavy mode, `,` otherwise. */
  function SongDelimiter(heavy: bool): (d: string)
    ensures d != []
  {
    if heavy then ",," else ","
  }

  /** The separator between the aliases of one name: `\` in heavy mode, `/` otherwise. */
  function AliasDelimiter(heavy: bool): (d: string)
    ensures d != []
  {
    if heavy then "\\" else "/"
  }

  /** Heavy mode is chosen exactly when the trimmed line contains `,,`. */
  predicate IsHeavy(trimmed: string) {
    Contains(trimmed, ",,")
  }

  /** `.map(p => p.trim())`. */
  function TrimAll(ps: seq<string>): (r: seq<string>)
    ensures |r| == |ps|
    ensures forall i :: 0 <= i < |ps| ==> r[i] == Trim(ps[i])
  {
    seq(|ps|, i requires 0 <= i < |ps| => Trim(ps[i]))
  }

  /**
   * `.filter(p => p !== '')`: no empty element is left, the kept elements
   * keep their order, and every non-empty element is kept (the result is as
   * long as `ps` less its empty elements).
   */
  function DropEmpty(ps: seq<string>): (r: seq<string>)
    ensures |r| == |ps| - multiset(ps)[[]]
    ensures forall p <- r :: p != [] && p in ps
    ensures IsSubsequence(r, ps)
    decreases |ps|
  {
    if ps == [] then []
    else
      var rest := DropEmpty(ps[1..]);
      assert ps == [ps[0]] + ps[1..];
      if ps[0] == [] then
        assert rest != [] ==> rest[0] in rest && rest[0] != ps[0];
        rest
      else
        assert ([ps[0]] + rest)[1..] == rest;
        [ps[0]] + rest
  }

  /** The fields of a record: split at the delimiter, trimmed, empty ones dropped. */
  function Fields(trimmed: string, delimiter: string): (r: seq<string>)
    requires delimiter != []
  {
    DropEmpty(TrimAll(Split(trimmed, delimiter)))
  }

  /** `name.trim().toLowerCase()`, and the key `addValueToMap` receives when that is not empty. */
  function AliasKey(name: string): Option<string> {
    var lower := ToLower(Trim(name));
    if lower == [] then None else Some(ToLower(lower))
  }

  /** One alias: an empty one is warned about, any other files `bv` under its key. */
  function ProcessAlias(st: Catalog, name: string, bv: string, lineNo: nat): Catalog {
    match AliasKey(name)
    case None => Catalog(st.songs, st.warnings + [lineNo])
    case Some(key) => Catalog(AddValue(st.songs, key, bv), st.warnings)
  }

  /** The aliases of one name field, in order (the inner `for` loop). */
  function ProcessAliases(st: Catalog, names: seq<string>, bv: string, lineNo: nat): Catalog
    decreases |names|
  {
    if names == [] then st
    else ProcessAlias(ProcessAliases(st, names[..|names| - 1], bv, lineNo), names[|names| - 1], bv, lineNo)
  }

  /** The name fields of one record, each split into its aliases (the outer `for` loop). */
  function ProcessSections(st: Catalog, sections: seq<string>, aliasDelimiter: string, bv: string, lineNo: nat): Catalog
    requires aliasDelimiter != []
    decreases |sections|
  {
    if sections == [] then st
    else
      var before := ProcessSections(st, sections[..|sections| - 1], aliasDelimiter, bv, lineNo);
      ProcessAliases(before, Split(sections[|sections| - 1], aliasDelimiter), bv, lineNo)
  }

  /** Whether a line is skipped: blank after trimming, or a `#` comment. */
  predicate IsSkipped(line: string) {
    Trim(line) == [] || StartsWith(Trim(line), "#")
  }

  /** The fields of a line that is not skipped, in the mode the line selects. */
  function LineFields(line: string): seq<string> {
    var trimmed := Trim(line);
    Fields(trimmed, SongDelimiter(IsHeavy(trimmed)))
  }

  /** The body of the `for await` loop for line number `lineNo`. */
  function ProcessLine(st: Catalog, line: string, lineNo: nat): Catalog {
    if IsSkipped(line) then st
    else
      var parts := LineFields(line);
      if |parts| < 2 then Catalog(st.songs, st.warnings + [lineNo])
      else ProcessSections(st, parts[1..], AliasDelimiter(IsHeavy(Trim(line))), parts[0], lineNo)
  }

  /** The map and the warnings after reading every line; lines are numbered from 1. */
  function BuildCatalog(lines: seq<string>): Catalog
    decreases |lines|
  {
    if lines == [] then Empty
    else ProcessLine(BuildCatalog(lines[..|lines| - 1]), lines[|lines| - 1], |lines|)
  }

  /** `createMapFromSonglistFile` over the lines of the file. */
  method CreateMapFromSonglist(lines: seq<string>) returns (songs: SongTable, warnings: seq<nat>)
    ensures fresh(songs)
    ensures Catalog(songs.entries, warnings) == BuildCatalog(lines)
  {
    songs := new SongTable();
    warnings := [];
    var lineCount := 0;
    while lineCount < |lines|
      invariant lineCount <= |lines|
      invariant Catalog(songs.entries, warnings) == BuildCatalog(lines[..lineCount])
    {
      var line := lines[lineCount];
      BuildCatalogStep(lines, lineCount);
      ghost var before := Catalog(songs.entries, warnings);
      lineCount := lineCount + 1;
      var trimmedLine := Trim(line);
      if trimmedLine == [] || StartsWith(trimmedLine, "#") {
        assert ProcessLine(before, line, lineCount) == before;
        continue;
      }
      var isDoubleMode := Contains(trimmedLine, ",,");
      var songDelimiter := if isDoubleMode then ",," else ",";
      var sameNameDelimiter := if isDoubleMode then "\\" else "/";
      var parts := DropEmpty(TrimAll(Split(trimmedLine, songDelimiter)));
      assert parts == LineFields(line);
      if |parts| < 2 {
        warnings := warnings + [lineCount];
        assert ProcessLine(before, line, lineCount) == Catalog(songs.entries, warnings);
        continue;
      }
      assert ProcessLine(before, line, lineCount) == ProcessSections(before, parts[1..], sameNameDelimiter, parts[0], lineCount);
      warnings := AddNameFields(songs, warnings, parts[1..], sameNameDelimiter, parts[0], lineCount);
    }
    assert lines[..lineCount] == lines;
  }

  lemma {:induction false} BuildCatalogStep(lines: seq<string>, i: nat)
    requires i < |lines|
    ensures BuildCatalog(lines[..i + 1]) == ProcessLine(BuildCatalog(lines[..i]), lines[i], i + 1)
  {
    assert lines[..i + 1][..i] == lines[..i];
  }

  /** The outer `for` loop: every name field of one record, each split into its aliases. */
  method AddNameFields(songs: SongTable, warnings: seq<nat>, nameParts: seq<string>, sameNameDelimiter: string, bv: string, lineCount: nat)
      returns (newWarnings: seq<nat>)
    requires sameNameDelimiter != []
    modifies songs
    ensures Catalog(songs.entries, newWarnings) == ProcessSections(Catalog(old(songs.entries), warnings), nameParts, sameNameDelimiter, bv, lineCount)
  {
    newWarnings := warnings;
    var i := 0;
    while i < |nameParts|
      invariant i <= |nameParts|
      invariant Catalog(songs.entries, newWarnings) == ProcessSections(Catalog(old(songs.entries), warnings), nameParts[..i], sameNameDelimiter, bv, lineCount)
    {
      assert nameParts[..i + 1][..i] == nameParts[..i];
      var names := Split(nameParts[i], sameNameDelimiter);
      newWarnings := AddAliases(songs, newWarnings, names, bv, lineCount);
      i := i + 1;
    }
    assert nameParts[..i] == nameParts;
  }

  /** The inner `for` loop: the aliases of one name field. */
  method AddAliases(songs: SongTable, warnings: seq<nat>, names: seq<string>, bv: string, lineCount: nat)
      returns (newWarnings: seq<nat>)
    modifies songs
    ensures Catalog(songs.entries, newWarnings) == ProcessAliases(Catalog(old(songs.entries), warnings), names, bv, lineCount)
  {
    newWarnings := warnings;
    var j := 0;
    while j < |names|
      invariant j <= |names|
      invariant Catalog(songs.entries, newWarnings) == ProcessAliases(Catalog(old(songs.entries), warnings), names[..j], bv, lineCount)
    {
      ProcessAliasesStep(Catalog(old(songs.entries), warnings), names, j, bv, lineCount);
      var name := Trim(names[j]);
      name := ToLower(name);
      if name == [] {
        newWarnings := newWarnings + [lineCount];
      } else {
        songs.AddValueToMap(ToLower(name), bv);
      }
      j := j + 1;
    }
    assert names[..j] == names;
  }

  lemma {:induction false} ProcessAliasesStep(st: Catalog, names: seq<string>, j: nat, bv: string, lineNo: nat)
    requires j < |names|
    ensures ProcessAliases(st, names[..j + 1], bv, lineNo) == ProcessAlias(ProcessAliases(st, names[..j], bv, lineNo), names[j], bv, lineNo)
  {
    assert names[..j + 1][..j] == names[..j];
  }
}
