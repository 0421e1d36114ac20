# Song-list and timestamp macros, modelled in Dafny

The repository is a pair of editor macros (macro.js) for live-stream song
lists, plus a small Python script (get_music_videos.py) that writes such a
list. This project models their computational core and proves what it
promises.

- **Time shift** (module `Duration`, file duration.dfy). `parseTimeAdjustment`
  reads a shorthand such as `-1h2m3.5s` and returns a signed number of
  seconds. The global regular expression
  `/([+-]?\d+)h|([+-]?\d+)m|([+-]?\d+(\.\d+)?)s/gi` is modelled in three
  layers:
  - `Run`: one attempt of the pattern at one position, written as a
    character-by-character automaton;
  - `Exec`: the leftmost-match search that `exec` performs from `lastIndex`;
  - `ParseTimeAdjustment`: the `while` loop that sums the matches, proved
    equal to the specification function `AdjustmentSeconds`.
- **Timestamp callback and formatter** (module `Timestamp`, file
  timestamp.dfy).
  - The `adjustTime` callback converts `H:M:S(.f)` to seconds, adds the shift,
    clamps the total at 0 and prints it back as `HH:MM:SS`.
  - The unused `formatSecondsToHMS` prints `HH:MM:SS.sss`.
  - Time is an exact `real`. `Math.floor` is `.Floor`. The JavaScript `%` is
    used only on non-negative dividends there, where it is
    `x - m * floor(x / m)`.
- **Song-list catalog** (modules `Catalog` and `CatalogProperties`).
  - `createMapFromSonglistFile` is a method over the file's lines. The
    JavaScript `Map` is the class `SongTable`, and `addValueToMap` updates it
    in place.
  - The editor warnings become the returned list of line numbers.
  - The method is proved to compute the fold `BuildCatalog`. The lemmas then
    describe the catalog's contents completely: `CatalogLookup` against the
    reference `IdsFor`, and `CatalogWarnings` against the reference
    `AllWarnings`. `IdsFor` reuses the parsing (`LineFields`, `AliasKey`,
    `Split`), so it is independent of the map updates and of the fold, but
    not of how a line is cut into fields.
- **BV substitution callback** (module `Substitution`). It removes every
  `BV\w+` token from the song part and normalises the rest. If the result is
  a catalog key, the line is rewritten with that key's identifiers.
- **Python helpers** (module `MusicVideos`):
  - `sanitize_filename`;
  - the output file name;
  - the record line, which is proved to read back as a song-list line.
- **Supporting modules.** `Strings` covers the JavaScript string built-ins:
  `trim`, `toLowerCase`, `includes`, `split` and `join`. `Decimal` covers
  digit strings, `toString` and `padStart`. `Wrappers` holds `Option`.

## Model

| member | source | states |
|---|---|---|
| Duration.Run | macro.js:186 | one attempt of the pattern from a scanner state: when it matches, the component is well formed and the match takes between 1 and all of the remaining characters (what it reads is stated by `RunReadsStem`) |
| Duration.MatchPrefix | macro.js:186 | the match of the pattern at the first character of a text is a well-formed component whose length is positive and fits the text (what it reads is stated by `MatchPrefixIsRendered`) |
| Duration.Exec | macro.js:191 | `exec` from `lastIndex`: a match found ends strictly after `lastIndex` and within the text, so the loop always advances (which match it is: `ExecLeftmost`, `ExecNone`, `ExecFinds`) |
| Duration.ExecLeftmost | macro.js:186-191 | a match `exec` returns is the pattern's match at some position at or after `lastIndex`, and the pattern matches at no position between `lastIndex` and that one |
| Duration.ExecNone | macro.js:191 | when `exec` returns `null`, the pattern matches at no position from `lastIndex` to the end |
| Duration.ExecFinds | macro.js:186-191 | conversely, when the pattern first matches at position `p` at or after `lastIndex`, `exec` returns exactly that match, ending where it ends |
| Duration.RunReadsStem | macro.js:186 | an attempt that matches from a scanner state reads, after what that state has read, the component's sign, digits and fraction, then one letter naming its unit |
| Duration.MatchPrefixIsRendered | macro.js:186 | converse of `MatchRendered`: a match of the pattern is exactly as long as the component's canonical text and equals it, except that the unit letter may be upper case (the `i` flag) |
| Duration.Components | macro.js:191-202 | every component the `exec` loop finds is well formed: non-empty digit runs, and a fraction only on seconds |
| Duration.AdjustmentSeconds | macro.js:184-207 | the specification of the loop: the sum of the signed seconds of the components `exec` finds. `AdjustmentOfRendered` gives its value on rendered text, `OrderDoesNotMatter` its independence of order |
| Duration.ParseTimeAdjustment | macro.js:184-207 | the loop returns exactly the sum, over all matches, of hours x 3600, minutes x 60 and seconds x 1. It always returns a number and never `null` |
| Duration.MatchRendered | macro.js:186 | the pattern matches the canonical text of any well-formed component (sign, digits, optional fraction, lower-case unit letter) exactly, whatever follows it |
| Duration.MatchWritten | macro.js:186 | the `i` flag: the pattern matches a well-formed component written with either case of its unit letter (`h`/`H`, `m`/`M`, `s`/`S`) exactly, as the same component and with the length of its canonical text, whatever follows it |
| Duration.RenderIsWritten | macro.js:186 | the canonical text is the written form with the lower-case unit letter, and that letter names the component's unit |
| Duration.SignedValue | macro.js:194-200 | `parseFloat` of a component's signed digits and fraction; the loop multiplies it by 3600, 60 or 1 (`ComponentSeconds`), and `AdjustmentOfRendered` and `ExampleMixedUnits` state the total it gives |
| Duration.ExecShift | macro.js:191 | the search does not depend on its position: what `exec` finds in `b` from `p`, it finds in `a + b` from `\|a\| + p`, moved by `\|a\|` |
| Duration.ComponentsOfRendered | macro.js:186-202 | round trip: reading back the concatenated texts of a list of components yields that list |
| Duration.AdjustmentOfRendered | macro.js:184-207 | the result for a rendered list of components is the sum of their signed seconds; each component carries its own sign |
| Duration.SumPermutation | macro.js:192-201 | the accumulated total does not depend on the order of the components |
| Duration.OrderDoesNotMatter | macro.js:184-207 | two adjustments made of the same components in any order give the same number of seconds (`5m1h` = `1h5m`) |
| Duration.NoDigitsNoAdjustment | macro.js:191-206 | a text with no digit has no match and gives 0 |
| Duration.ExampleMixedUnits | macro.js:182 | `1h2m3.5s` is 3723.5 seconds |
| Duration.ExampleNegative | macro.js:182 | `-1h` is -3600 seconds |
| Duration.ExampleReordered | macro.js:184-207 | `5m1h` is 3900 seconds |
| Timestamp.TimestampSeconds | macro.js:168 | `parseInt(h) * 3600 + parseInt(m) * 60 + parseFloat(s)` of digit groups is never negative |
| Timestamp.ClampAtZero | macro.js:172 | `Math.max(0, x)` is `x` itself when `x >= 0` and 0 when `x < 0` |
| Timestamp.Rem | macro.js:175-176 | the JavaScript `x % m` of a non-negative `x` lies in `[0, m)`; `RemFloor` gives its whole part and `RemFraction` shows it keeps the fractional part of `x` |
| Timestamp.FloorDivide | macro.js:174 | `Math.floor(x / m)` equals `floor(x)` divided by `m` in whole numbers |
| Timestamp.RemFloor | macro.js:175-176 | `Math.floor(x % m)` equals `floor(x) mod m` |
| Timestamp.RemFraction | macro.js:175-176 | `x % m` of a non-negative `x` has the same fractional part as `x`: only whole multiples of `m` are removed |
| Timestamp.ClockFieldValues | macro.js:174-176 | the three floored quotients and remainders of the callback equal `floor(t) div 3600`, `(floor(t) mod 3600) div 60` and `floor(t) mod 60` |
| Timestamp.ClockOfFields | macro.js:174-177 | the printed fields are `floor(t) div 3600`, `(floor(t) mod 3600) div 60` and `floor(t) mod 60` |
| Timestamp.ClockOfFloor | macro.js:174-177 | two totals with the same whole part print the same |
| Timestamp.ClockDecomposition | macro.js:174-176 | hours, minutes below 60 and seconds below 60 are unique for a given whole number of seconds |
| Timestamp.ClockOf | macro.js:174-177 | the printed clock of a clamped total; `ClockOfFields` and `ClockOfFloor` state what it prints |
| Timestamp.ClockText | macro.js:177 | `${h}:${m}:${s}` of the padded fields; `ClockTextFields` states that it splits back into those fields |
| Timestamp.AdjustTimestamp | macro.js:166-178 | the `adjustTime` callback; `AdjustTimestampSpec` states its output as the clock text of the floored, clamped total, `ClampedToMidnight`, `FractionDropped` and `CanonicalUnchanged` its edge cases |
| Timestamp.AdjustTimestampSpec | macro.js:166-178 | the callback prints `HH:MM:SS` for any `h`, `m < 60`, `s < 60` with `h*3600 + m*60 + s = floor(max(0, timestamp + adjustment))` |
| Timestamp.ColonSplit | macro.js:177 | three digit fields joined by `:` split back into exactly those fields |
| Timestamp.ClockTextFields | macro.js:174-177 | the output splits at `:` into three digit fields: hours of at least two digits, minutes and seconds of exactly two, each reading back as its number |
| Timestamp.CanonicalUnchanged | macro.js:166-178 | a canonical `HH:MM:SS` (two-digit fields, minutes and seconds below 60, no fraction) shifted by 0 comes back unchanged |
| Timestamp.ClampedToMidnight | macro.js:172 | a shift to zero or before gives `00:00:00` |
| Timestamp.FractionDropped | macro.js:168-176 | under a whole-second shift the fractional seconds never change the output, because they are floored away |
| Timestamp.HmsFields | macro.js:216-228 | the fields `formatSecondsToHMS` computes; `HmsFieldsSum` states their ranges and that they add up to `floor(\|t\|)` |
| Timestamp.FormatSecondsToHMS | macro.js:214-236 | the formatter as written; `FormatSecondsToHMSSpec` states its whole output, `FormatIgnoresSign` and `FormatMillisecondOverflow` its edge cases, `HmsFieldsRoundedSpec` the corrected one |
| Timestamp.FormatIgnoresSign | macro.js:216 | `formatSecondsToHMS(-t) == formatSecondsToHMS(t)` |
| Timestamp.Abs | macro.js:216 | `Math.abs`: the result is non-negative and is `x` or `-x` |
| Timestamp.Round | macro.js:228 | `Math.round` of a non-negative number; `HmsMilliseconds` and `FormatMillisecondOverflow` state its use on the fractional second |
| Timestamp.HmsText | macro.js:230-236 | the padded fields joined as `HH:MM:SS.sss`; `FormatSecondsToHMSSpec` states the text it gives |
| Timestamp.HmsMilliseconds | macro.js:219-228 | the milliseconds field is the fractional part of `\|t\|`, multiplied by 1000 and rounded: the two `%` steps before it keep the fraction of `\|t\|` |
| Timestamp.FormatSecondsToHMSSpec | macro.js:214-236 | the formatter as written prints `HH:MM:SS.` followed by the rounded milliseconds of the fractional part of `\|t\|` padded to three digits, for any `h`, `m < 60`, `s < 60` with `h*3600 + m*60 + s = floor(\|t\|)` |
| Timestamp.HmsFieldsSum | macro.js:219-228 | hours x 3600 + minutes x 60 + whole seconds = `floor(\|t\|)`, with minutes and seconds below 60; the rounded milliseconds are at most 1000 |
| Timestamp.FormatMillisecondOverflow | macro.js:227-236 | as written, `formatSecondsToHMS(0.9996)` has 1000 milliseconds and prints `00:00:00.1000` |
| Timestamp.HmsFieldsRoundedSpec | macro.js:214-236 | the corrected formatter: every field is in range, the fields add up to `\|t\|` rounded to the millisecond, and the milliseconds print as three digits |
| Timestamp.FormatRoundedCarries | macro.js:214-236 | the corrected formatter prints `0.9996` as `00:00:01.000`, carrying the rounded millisecond into the seconds |
| Timestamp.FormatRoundedIgnoresSign | macro.js:216 | the corrected formatter ignores the sign as well |
| Decimal.FractionValueBound | macro.js:168 | the fraction digits `parseFloat` reads after the point are worth a value in `[0, 1)` |
| Decimal.NatToDecimalValue | macro.js:174 | `n.toString()` reads back as `n`, has no leading zero and is one character long exactly when `n < 10` |
| Decimal.NatToDecimal | macro.js:174 | `String(n)`: a non-empty digit string; `NatToDecimalValue` states that it reads back as `n` with no leading zero |
| Decimal.PadStart | macro.js:174 | `padStart(width, '0')` has length `max(\|s\|, width)` and is that many `'0'`s less `\|s\|`, followed by `s` |
| Decimal.PaddedNumeral | macro.js:174-176 | `String(n).padStart(w, '0')` is a digit string of at least `w` characters that reads back as `n` |
| Decimal.TwoDigitsRoundTrip | macro.js:174-177 | any two-digit numeral is what padding its value to two places gives back |
| Strings.Trim | macro.js:96 | `trim`, the composition of `TrimStart` and `TrimEnd`; `TrimIsTrimmed`, `TrimSlice`, `TrimIdempotent` and `TrimEmptyIffBlank` state what it returns |
| Strings.TrimStart | macro.js:96 | the leading part of `trim`: it drops a prefix made only of white space and keeps a suffix that is empty or starts with a non-space |
| Strings.TrimEnd | macro.js:96 | the trailing part of `trim`: it drops a suffix made only of white space and keeps a prefix that is empty or ends with a non-space |
| Strings.TrimIsTrimmed | macro.js:96 | what `trim` returns has no white space at either end |
| Strings.TrimIdempotent | macro.js:96 | trimming twice is trimming once |
| Strings.TrimEmptyIffBlank | macro.js:99 | `!trimmedLine` holds exactly when every character of the line is white space |
| Strings.TrimSlice | macro.js:108 | what `trim` returns is a contiguous piece of its argument |
| Strings.TrimTrailingSpace | macro.js:96 | one more white-space character at the end does not change what `trim` returns |
| Strings.TrimStartSnoc | macro.js:96 | a character appended after a text is kept by the leading trim unless the whole text was blank |
| Strings.ToLower | macro.js:125 | `toLowerCase` keeps the length and lowers every character in place |
| Strings.ToLowerIsLower | macro.js:125 | after lower-casing no upper-case letter is left, and a lower-case string is unchanged |
| Strings.ToLowerIdempotent | macro.js:132 | the second `toLowerCase` at the call of `addValueToMap` changes nothing |
| Strings.IndexOf | macro.js:102 | the search returns the first index at or after `from` where the text occurs, or none when it occurs nowhere there |
| Strings.Split | macro.js:107 | `split` at a non-empty separator: at least one piece; `JoinSplit`, `SplitPiecesAvoidSeparator` and `SplitAtFirst` state the pieces |
| Strings.Join | macro.js:62 | `join`; `JoinSplit` states that it undoes `split` |
| Strings.JoinSplit | macro.js:107 | `s.split(sep).join(sep) == s` |
| Strings.SplitPiecesAvoidSeparator | macro.js:107 | no piece of a split contains the separator |
| Strings.SplitAtFirst | macro.js:107 | splitting at a one-character separator puts the text before its first occurrence first |
| Strings.SplitTrailingSeparator | macro.js:107 | a trailing one-character separator adds exactly one empty piece |
| Strings.IndexOfFirst | macro.js:102 | an occurrence with none before it, from `from` on, is what the search returns |
| Strings.IndexOfExtend | macro.js:102 | text appended after a string does not move the first occurrence found in it |
| Strings.SplitAtFirstDoubleComma | macro.js:107 | splitting at `,,`: a text that holds no `,,` and does not end in a comma, followed by `,,`, is the first piece |
| Strings.SplitTrailingDoubleComma | macro.js:107 | a trailing `,,` after a text that does not end in a comma adds exactly one empty piece |
| Strings.Contains | macro.js:102 | `includes`; `SplitPiecesAvoidSeparator` states that no split piece contains the separator |
| Strings.StartsWith | macro.js:99 | `startsWith`; `SkippedLineChangesNothing` states that a line starting with `#` is skipped |
| Catalog.AddValue | macro.js:144-152 | the list under `key` becomes the old list plus `newValue`, or `[newValue]` for a new key; the keys gain `key`; every other key keeps its list |
| Catalog.SongTable.constructor | macro.js:80 | the map starts empty |
| Catalog.SongTable.AddValueToMap | macro.js:144-152 | the map after the in-place update is `AddValue` of the map before it |
| Catalog.TrimAll | macro.js:108 | `.map(p => p.trim())` keeps the length and trims every element in place |
| Catalog.DropEmpty | macro.js:109 | `.filter(p => p !== '')`: every element left is non-empty and from the input, they keep their input order, and exactly the empty ones are dropped (the length is the input's less its empty elements) |
| Catalog.IsSkipped | macro.js:96-99 | a line blank after trimming or starting with `#`; `SkippedLineChangesNothing` and `TrimEmptyIffBlank` state what it means |
| Catalog.IsHeavy | macro.js:100-102 | a trimmed line holding `,,` is read in heavy mode; `HeavyTrailingDelimiter` and `HeavyRepeatedDelimiter` state the fields it selects |
| Catalog.SongDelimiter | macro.js:103 | the field delimiter, `,,` in heavy mode and `,` otherwise; never empty |
| Catalog.AliasDelimiter | macro.js:104 | the alias delimiter, a backslash in heavy mode and `/` otherwise; never empty. `DoubledAliasDelimiterWarns` states how a doubled one splits a name field |
| Catalog.Fields | macro.js:107-109 | the split, trimmed and filtered fields; `FieldsWellFormed` states that each is non-empty, trimmed and free of the delimiter |
| Catalog.ProcessAlias | macro.js:125-132 | one alias: a warning when blank, otherwise the identifier filed under its key; `LookupAlias` and `AliasWarnings` state both |
| Catalog.ProcessAliases | macro.js:124-133 | the aliases of one name field in order; `LookupAliases` and `AliasesWarnings` state what they file and warn |
| Catalog.ProcessSections | macro.js:121-134 | the name fields of one line in order; `LookupSections` and `SectionsWarnings` state what they file and warn |
| CatalogProperties.DropEmptyKeepsCounts | macro.js:109 | each non-empty element occurs in the filtered list exactly as often as in the input |
| CatalogProperties.DropEmptyConcat | macro.js:109 | filtering a concatenation filters each part |
| CatalogProperties.DropTrailingEmpty | macro.js:108-109 | an empty piece at the end is trimmed to nothing and dropped |
| Catalog.LineFields | macro.js:96-109 | the fields of a line in the mode it selects; `FieldsWellFormed`, `LightTrailingDelimiter`, `HeavyTrailingDelimiter` and `HeavyRepeatedDelimiter` state them |
| Catalog.AliasKey | macro.js:125-132 | the key of an alias; `AliasKeyNormalized` states when there is one and that it is non-empty, trimmed and lower case |
| Catalog.ProcessLine | macro.js:94-135 | one line of the fold; `LookupLine` states what it files, `LineWarningsExact` what it warns |
| Catalog.BuildCatalog | macro.js:94-135 | the line-by-line fold; `CatalogLookup`, `CatalogHasKey`, `CatalogWellFormed` and `CatalogWarnings` state its map and warnings |
| Catalog.CreateMapFromSonglist | macro.js:79-142 | the method's map and warnings are those of the line-by-line fold `BuildCatalog` |
| Catalog.AddNameFields | macro.js:121-134 | the outer loop over name fields computes `ProcessSections` on the table and the warnings |
| Catalog.AddAliases | macro.js:124-133 | the inner loop over aliases computes `ProcessAliases` on the table and the warnings |
| CatalogProperties.LookupAddValue | macro.js:144-152 | looking up any key after `addValueToMap` gives its old list, with `newValue` appended exactly when it is the updated key |
| CatalogProperties.LookupAlias | macro.js:125-132 | one alias appends the identifier under its lower-cased, trimmed key exactly when that key is not empty |
| CatalogProperties.LookupAliases | macro.js:124-133 | the aliases of one name field append the identifier once per alias with that key |
| CatalogProperties.LookupSections | macro.js:121-134 | the name fields of one line append what each of their aliases files under the key |
| CatalogProperties.LookupLine | macro.js:96-134 | a line appends exactly its reference identifiers, and nothing if it is skipped or too short |
| CatalogProperties.CatalogLookup | macro.js:94-135 | the list under each key is every identifier of every line with an alias of that key, in line order, duplicates kept |
| CatalogProperties.AliasKeyNormalized | macro.js:125-132 | an alias gives a key exactly when it is not blank, and the key is non-empty, trimmed and lower case |
| CatalogProperties.CatalogWellFormed | macro.js:94-135 | every key is a non-empty, trimmed, lower-case alias and no list is empty |
| CatalogProperties.CatalogHasKey | macro.js:94-135 | a key is in the map exactly when some line files an identifier under it |
| CatalogProperties.LineWarnsOnlyThisLine | macro.js:112-129 | a line only appends warnings, and each carries its own line number |
| CatalogProperties.WarningsOrdered | macro.js:94-135 | the warnings are line numbers of the file, from 1, in non-decreasing order |
| CatalogProperties.SkippedLineChangesNothing | macro.js:96-99 | a line that is blank after trimming, or starts with `#`, changes neither the map nor the warnings |
| CatalogProperties.ShortLineWarns | macro.js:112-116 | a record with fewer than two fields adds one warning, its own line number, and files nothing |
| CatalogProperties.AliasesWarnings | macro.js:124-129 | the aliases of one name field add one warning, the line number, per alias that is blank after trimming, and nothing else |
| CatalogProperties.SectionsWarnings | macro.js:121-134 | the name fields of a line add one warning per blank alias across all of them |
| CatalogProperties.LineWarningsExact | macro.js:96-134 | a line adds exactly its reference warnings `LineWarnings`: none when skipped, its number once when it has fewer than two fields, otherwise its number once per blank alias |
| CatalogProperties.CatalogWarnings | macro.js:94-135 | the warnings of the whole file are the reference warnings of each line, lines numbered from 1, in line order |
| CatalogProperties.FieldsWellFormed | macro.js:107-109 | every field is non-empty, trimmed and free of the delimiter it was split at |
| CatalogProperties.FieldsTrailingDelimiter | macro.js:107-109 | splitting at a one-character delimiter: a trailing delimiter adds no field |
| CatalogProperties.LightTrailingDelimiter | macro.js:75-109 | a trimmed light-mode line that does not end in a comma stays light with one more `,` at its end and gives the same fields |
| CatalogProperties.FieldsTrailingDoubleComma | macro.js:107-109 | splitting at `,,`: a trailing `,,` after a text that does not end in a comma adds no field |
| CatalogProperties.HeavyTrailingDelimiter | macro.js:76-109 | a trimmed heavy-mode line that does not end in a comma stays heavy with the record-ending `,,` appended and gives the same fields (after a comma, `,,` would add a field `,`) |
| CatalogProperties.DoubledAliasDelimiterWarns | macro.js:122-129 | aliases are split with no filter, so a doubled one-character alias delimiter in a name field gives an empty alias, and that field warns exactly once more, with its line number |
| CatalogProperties.EmptyAliasWarns | macro.js:125-129 | an empty alias among the aliases of a name field adds exactly one warning, the line number |
| CatalogProperties.BlankCountConcat | macro.js:125-129 | the blank aliases of two lists of aliases add up |
| CatalogProperties.FieldsRepeatedDoubleComma | macro.js:107-109 | splitting at `,,`: `,,,,` after a text that holds no `,,` and does not end in a comma gives the same fields as `,,` |
| CatalogProperties.HeavyRepeatedDelimiter | macro.js:100-109 | a heavy-mode line whose first `,,` is doubled to `,,,,` is still trimmed and heavy and gives the same fields |
| Substitution.WordRun | macro.js:56 | `\w+` taken greedily: the run length fits the text and stops at a non-word character or at the end |
| Substitution.StripBv | macro.js:56 | removing the tokens never lengthens the text; `StripConcat`, `InnerTokenRemoved` and `StripTokenPrefix` state that each token goes while the text around it stays |
| Substitution.StripNoToken | macro.js:56 | after the removal no `BV\w+` token is left; removal never joins two pieces into a new token |
| Substitution.StripWithoutToken | macro.js:56 | a text without a token is unchanged |
| Substitution.StripIdempotent | macro.js:56 | removing the tokens twice is removing them once |
| Substitution.StripTokenPrefix | macro.js:56 | a token followed by a non-word character is removed whole |
| Substitution.WordRunConcat | macro.js:56 | `\w+` stops at a non-word character: text after one does not lengthen the run |
| Substitution.StripConcat | macro.js:56 | at a boundary before a non-word character the removal works on each side separately: `StripBv(a + b) == StripBv(a) + StripBv(b)` |
| Substitution.InnerTokenRemoved | macro.js:56 | a token between two spaces is removed and the text on both sides is kept exactly |
| Substitution.TrailingTokenIgnored | macro.js:56-57 | a BV number written after the song name does not change the looked-up key |
| Substitution.StaleTokenIgnored | macro.js:56-57 | a BV number written before the song name does not change the looked-up key |
| Substitution.RewriteIsStable | macro.js:54-65 | a line the callback has already rewritten is left alone when the macro runs again |
| Substitution.SongKey | macro.js:56-57 | the looked-up key; `StripNoToken`, `StripIdempotent`, `StaleTokenIgnored` and `TrailingTokenIgnored` state what it keeps |
| Substitution.ReplaceWithBV | macro.js:54-65 | the callback; `RewriteIsStable` and `ReplaceWithBVFromList` state its result |
| Substitution.ReplaceWithBVFromList | macro.js:54-65 | against a catalog read from a song list: the line becomes `lineStart + timePart + " " + ids.join(" ")` exactly when some line files identifiers under the cleaned, lower-cased song name; otherwise the match is returned unchanged |
| MusicVideos.SanitizeFilename | get_music_videos.py:9-11 | sanitising never lengthens the name |
| MusicVideos.SanitizeIsClean | get_music_videos.py:11 | the result holds none of `\ / : * ? " < > \|` |
| MusicVideos.SanitizeCounts | get_music_videos.py:11 | every legal character keeps its number of occurrences |
| MusicVideos.SanitizeSubsequence | get_music_videos.py:11 | the kept characters stay in their order |
| MusicVideos.SanitizeConcat | get_music_videos.py:11 | sanitising a concatenation sanitises each part |
| MusicVideos.SanitizeFixedIffClean | get_music_videos.py:9-11 | a name is left unchanged exactly when it has no illegal character |
| MusicVideos.SanitizeIdempotent | get_music_videos.py:9-11 | `sanitize_filename(sanitize_filename(x)) == sanitize_filename(x)` |
| MusicVideos.OutputFilename | get_music_videos.py:97-98 | the file name is the sanitised name followed by `.txt` and holds no illegal character |
| MusicVideos.RecordHasNoDoubleComma | get_music_videos.py:103 | when neither field holds a comma, a record line never contains `,,`, so it is read in light mode |
| MusicVideos.RecordLine | get_music_videos.py:103 | the record line; `RecordReadsBack` and `RecordHasNoDoubleComma` state how the song list reads it |
| MusicVideos.RecordReadsBack | get_music_videos.py:103 | `f"{bvid}, {title}\n"` ends in its newline and, without it, is a light-mode song-list line that is not skipped and whose fields are exactly `[bvid, title]`. This holds for comma-free, trimmed, non-empty fields whose identifier does not start with `#` |

## Left out

- `searchAndReplace`, `input`, the `macroCommands` registry, `showQuickPick`, the directory listing and the early-return messages of both macros: editor host glue with no computation of its own.
- The `null` check after `parseTimeAdjustment` (macro.js line 162) can never succeed. `ParseTimeAdjustment` returns a `real` on every input, so this branch has no counterpart in the model.
- `fs.createReadStream`, `readline`, the asynchronous line iteration and the error rethrow: the file is given as its sequence of lines. Splitting the file into lines (CRLF or LF) is not part of this model.
- `showWarningMessage`: each warning is modelled as the line number it reports, in the order the warnings are shown. The file path in the message is not modelled.
- The global-replace scanning of `/(\d+):(\d+):(\d+(\.\d+)?)/g` and `/(^.*)(\d{2}:\d{2}:\d{2})\s+(.+)/gm`: the callbacks take the captured groups as parameters. For `adjustTime`, the seconds group is modelled as its whole digits plus the optional fraction of group 4. The time-shift pattern of `parseTimeAdjustment` is modelled in full.
- IEEE double arithmetic in `parseFloat`, `*`, `%` and `Math.round`: every computation is exact over `real`. Rounding errors of doubles, which could change a floored field at an exact boundary, are not modelled.
- Timestamp.Rem: models the JavaScript `%` only for a non-negative dividend. That is the only case the callback and the formatter use, after `Math.max(0, …)` and `Math.abs`.
- Strings.ToLower: lowers only the ASCII letters `A`–`Z`. The full Unicode case mapping of `toLowerCase` is not modelled.
- Substitution.ReplaceWithBV: `\w` is the ASCII word class, as in JavaScript without the `u` flag. The lookup relies on `Strings.ToLower`'s ASCII-only lowering.
- All of `main` in get_music_videos.py: argument parsing, the interactive `input` loop, the bilibili API calls, paging with `asyncio.sleep` and the file writing. Only the name and line formats it writes are modelled.

## Findings

| source | as written | input that shows it | evidently intended | confidence | as-written member | corrected member |
|---|---|---|---|---|---|---|
| macro.js:227-234 | the milliseconds are `Math.round` of the fractional second on its own, so a fraction of 0.9995 or more rounds to 1000. That prints four millisecond digits and does not carry into the seconds | `formatSecondsToHMS(0.9996)` prints `00:00:00.1000` | round `\|t\|` to whole milliseconds first, then split into fields (`FormatSecondsToHMSRounded`), giving `00:00:01.000` | not executed | Timestamp.FormatMillisecondOverflow | Timestamp.HmsFieldsRoundedSpec |
