/**
 * The `replaceWithBV` replacement callback (macro.js): for a line
 * `lineStart HH:MM:SS song`, the song part is looked up in the catalog once
 * every `BV\w+` token is removed from it; a known song has its part replaced
 * by the song's identifiers, an unknown one leaves the line as it was.
 *
 * The callback receives the groups of `/(^.*)(\d{2}:\d{2}:\d{2})\s+(.+)/gm`;
 * here they are its parameters, with the white space between the time and
 * the song part as `gap`, so that the whole match is the concatenation of
 * the four.
 */
module Substitution {
  import opened Strings
  import opened Catalog
  import opened CatalogProperties

  /** `\w` in a JavaScript regular expression: ASCII letters, digits and `_`. */
  predicate IsWordChar(c: char) {
    ('a' <= c <= 'z') || ('A' <= c <= 'Z') || ('0' <= c <= '9') || c == '_'
  }

  /** The number of word characters `t` starts with (`\w+` taken greedily). */
  function WordRun(t: string): (n: nat)
    ensures n <= |t|
    ensures n == |t| || !IsWordChar(t[n])
  {
    if t != [] && IsWordChar(t[0]) then 1 + WordRun(t[1..]) else 0
  }

  /** `BV\w+` matches at index `i`. */
  predicate TokenAt(s: string, i: nat) {
    i + 2 < |s| && s[i] == 'B' && s[i + 1] == 'V' && IsWordChar(s[i + 2])
  }

  /** `s.replace(/BV\w+/g, '')`: every token, leftmost first and each as long as possible, removed. */
  function StripBv(s: string): (r: string)
    ensures |r| <= |s|
    decreases |s|
  {
    if TokenAt(s, 0) then StripBv(s[2 + WordRun(s[2..])..])
    else if s == [] then []
    else [s[0]] + StripBv(s[1..])
  }

  /** No `BV\w+` token anywhere in `s`. */
  predicate NoToken(s: string) {
    forall i :: 0 <= i < |s| ==> !TokenAt(s, i)
  }

  /** What the catalog is searched for: `songPart.replace(/BV\w+/g, '').trim().toLowerCase()`. */
  function SongKey(songPart: string): string {
    ToLower(Trim(StripBv(songPart)))
  }

  /** The callback: the line rewritten to list the song's identifiers, or the match itself. */
  function ReplaceWithBV(songs: SongMap, lineStart: string, timePart: string, gap: string, songPart: string): string {
    var lowerSongName := SongKey(songPart);
    if lowerSongName in songs then lineStart + timePart + " " + Join(songs[lowerSongName], " ")
    else lineStart + timePart + gap + songPart
  }

  /**
   * The first character of the stripped text is either the first character
   * of the text, where no token starts, or a non-word character.
   */
  lemma {:induction false} StripFirst(t: string)
    ensures StripBv(t) == [] || (!TokenAt(t, 0) && StripBv(t)[0] == t[0]) || !IsWordChar(StripBv(t)[0])
  {
    if TokenAt(t, 0) {
      var u := t[2 + WordRun(t[2..])..];
      if u != [] {
        assert u[0] == t[2..][WordRun(t[2..])];
        assert !TokenAt(u, 0);
      }
    }
  }

  /** After the tokens are removed none is left: the removal never joins pieces into a new token. */
  lemma {:induction false} StripNoToken(s: string)
    ensures NoToken(StripBv(s))
    decreases |s|
  {
    if TokenAt(s, 0) {
      StripNoToken(s[2 + WordRun(s[2..])..]);
    } else if s != [] {
      var r := StripBv(s);
      var rest := StripBv(s[1..]);
      StripNoToken(s[1..]);
      assert r == [s[0]] + rest;
      forall i | 0 <= i < |r| ensures !TokenAt(r, i) {
        if i > 0 {
          assert !TokenAt(rest, i - 1);
        } else if TokenAt(r, 0) {
          StripAfterLeadingV(s);
        }
      }
    }
  }

  /** The case that would make a new token: `B`, then a kept `V`, then a word character. */
  lemma {:induction false} StripAfterLeadingV(s: string)
    requires s != [] && !TokenAt(s, 0)
    ensures !TokenAt(StripBv(s), 0)
  {
    var r := StripBv(s);
    var rest := StripBv(s[1..]);
    if TokenAt(r, 0) {
      assert rest[0] == 'V';
      StripFirst(s[1..]);
      assert s[1..][1..] == s[2..];
      StripFirst(s[2..]);
      assert false;
    }
  }

  /** A text without tokens is left as it is. */
  lemma {:induction false} StripWithoutToken(s: string)
    requires NoToken(s)
    ensures StripBv(s) == s
    decreases |s|
  {
    if s != [] {
      assert !TokenAt(s, 0);
      forall i | 0 <= i < |s[1..]| ensures !TokenAt(s[1..], i) {
        assert !TokenAt(s, i + 1);
      }
      StripWithoutToken(s[1..]);
    }
  }

  /** Removing the tokens twice is removing them once. */
  lemma {:induction false} StripIdempotent(s: string)
    ensures StripBv(StripBv(s)) == StripBv(s)
  {
    StripNoToken(s);
    StripWithoutToken(StripBv(s));
  }

  /** A BV number as the catalog files it: `BV` followed by word characters. */
  predicate IsBvToken(t: string) {
    |t| > 2 && t[0] == 'B' && t[1] == 'V' && forall k :: 2 <= k < |t| ==> IsWordChar(t[k])
  }

  lemma {:induction false} WordRunOfWords(w: string, rest: string)
    requires forall k :: 0 <= k < |w| ==> IsWordChar(w[k])
    requires rest == [] || !IsWordChar(rest[0])
    ensures WordRun(w + rest) == |w|
    decreases |w|
  {
    if w != [] {
      assert (w + rest)[1..] == w[1..] + rest;
      WordRunOfWords(w[1..], rest);
    }
  }

  /** A token followed by a non-word character is removed whole. */
  lemma {:induction false} StripTokenPrefix(tok: string, rest: string)
    requires IsBvToken(tok)
    requires rest == [] || !IsWordChar(rest[0])
    ensures StripBv(tok + rest) == StripBv(rest)
  {
    var s := tok + rest;
    assert s[2..] == tok[2..] + rest;
    WordRunOfWords(tok[2..], rest);
    assert TokenAt(s, 0);
    assert s[|tok|..] == rest;
  }

  /** A run of word characters stops where a non-word character follows. */
  lemma {:induction false} WordRunConcat(a: string, b: string)
    requires b == [] || !IsWordChar(b[0])
    ensures WordRun(a + b) == WordRun(a)
    decreases |a|
  {
    if a == [] {
      assert a + b == b;
    } else {
      ConcatParts(a, b);
      if IsWordChar(a[0]) {
        WordRunConcat(a[1..], b);
      }
    }
  }

  lemma {:induction false} ConcatParts(a: string, b: string)
    ensures a == [] ==> a + b == b
    ensures a != [] ==> (a + b)[0] == a[0] && (a + b)[1..] == a[1..] + b
  {
  }

  /**
   * Removing the tokens from two texts joined at a non-word character
   * removes them from each: no token reaches across the join, and the text
   * around every token is kept as it is.
   */
  lemma {:induction false} StripConcat(a: string, b: string)
    requires b == [] || !IsWordChar(b[0])
    ensures StripBv(a + b) == StripBv(a) + StripBv(b)
    decreases |a|
  {
    TokenAtConcat(a, b);
    if a == [] {
      ConcatParts(a, b);
    } else if TokenAt(a, 0) {
      StripTokenStep(a, b);
      StripConcat(a[2 + WordRun(a[2..])..], b);
    } else {
      StripKeepStep(a, b);
      StripConcat(a[1..], b);
      StringAssoc([a[0]], StripBv(a[1..]), StripBv(b));
    }
  }

  /** Whether a token starts `a + b`, where `b` starts with a non-word character, is decided by `a` alone. */
  lemma {:induction false} TokenAtConcat(a: string, b: string)
    requires b == [] || !IsWordChar(b[0])
    ensures TokenAt(a + b, 0) == TokenAt(a, 0)
  {
    var s := a + b;
    if |a| <= 2 {
      if |s| > |a| {
        assert s[|a|] == b[0];
      }
    } else {
      assert s[0] == a[0] && s[1] == a[1] && s[2] == a[2];
    }
  }

  /** Where no token starts, the first character is kept in `a` and in `a + b` alike. */
  lemma {:induction false} StripKeepStep(a: string, b: string)
    requires a != [] && !TokenAt(a, 0) && !TokenAt(a + b, 0)
    ensures StripBv(a + b) == [a[0]] + StripBv(a[1..] + b)
    ensures StripBv(a) == [a[0]] + StripBv(a[1..])
  {
    ConcatParts(a, b);
  }

  lemma {:induction false} StringAssoc(x: string, y: string, z: string)
    ensures x + (y + z) == (x + y) + z
  {
  }

  /** A token at the start of `a` is the same token, and is removed the same way, in `a + b`. */
  lemma {:induction false} StripTokenStep(a: string, b: string)
    requires b == [] || !IsWordChar(b[0])
    requires TokenAt(a, 0)
    ensures 2 + WordRun(a[2..]) <= |a|
    ensures StripBv(a + b) == StripBv(a[2 + WordRun(a[2..])..] + b)
    ensures StripBv(a) == StripBv(a[2 + WordRun(a[2..])..])
  {
    var s := a + b;
    assert s[2..] == a[2..] + b;
    WordRunConcat(a[2..], b);
    var n := 2 + WordRun(a[2..]);
    assert TokenAt(s, 0);
    assert s[n..] == a[n..] + b;
  }

  /** The identifiers joined by spaces strip down to nothing but spaces. */
  lemma {:induction false} StripJoinedTokens(ids: seq<string>)
    requires forall id <- ids :: IsBvToken(id)
    ensures forall k :: 0 <= k < |StripBv(Join(ids, " "))| ==> StripBv(Join(ids, " "))[k] == ' '
    decreases |ids|
  {
    if |ids| == 1 {
      StripTokenPrefix(ids[0], []);
      assert ids[0] + [] == ids[0];
    } else if |ids| > 1 {
      var rest := Join(ids[1..], " ");
      StripJoinedTokens(ids[1..]);
      assert Join(ids, " ") == ids[0] + (" " + rest);
      StripTokenPrefix(ids[0], " " + rest);
      assert !TokenAt(" " + rest, 0);
      assert (" " + rest)[1..] == rest;
    }
  }

  /** A BV number written in front of the song name does not change what is looked up. */
  lemma {:induction false} StaleTokenIgnored(tok: string, name: string)
    requires IsBvToken(tok)
    ensures SongKey(tok + " " + name) == SongKey(name)
  {
    assert tok + " " + name == tok + (" " + name);
    StripTokenPrefix(tok, " " + name);
    assert !TokenAt(" " + name, 0);
    assert (" " + name)[1..] == name;
    assert StripBv(" " + name) == [' '] + StripBv(name);
    TrimLeadingSpace(' ', StripBv(name));
  }

  /** A BV number written after the song name, past a space, does not change what is looked up either. */
  lemma {:induction false} TrailingTokenIgnored(name: string, tok: string)
    requires IsBvToken(tok)
    ensures SongKey(name + " " + tok) == SongKey(name)
  {
    var rest := " " + tok;
    assert name + " " + tok == name + rest;
    StripConcat(name, rest);
    assert !TokenAt(rest, 0) && rest[1..] == tok;
    StripTokenPrefix(tok, []);
    assert tok + [] == tok;
    assert StripBv(rest) == [' '];
    TrimTrailingSpace(StripBv(name), ' ');
  }

  /** A BV number between two words is removed, and the words and the spaces around it are kept. */
  lemma {:induction false} InnerTokenRemoved(a: string, tok: string, b: string)
    requires IsBvToken(tok)
    ensures StripBv(a + " " + tok + " " + b) == StripBv(a) + "  " + StripBv(b)
  {
    var rest := " " + (tok + (" " + b));
    assert a + " " + tok + " " + b == a + rest;
    StripConcat(a, rest);
    SpacedToken(tok, b);
    StringAssoc(StripBv(a), "  ", StripBv(b));
  }

  lemma {:induction false} SpacedToken(tok: string, b: string)
    requires IsBvToken(tok)
    ensures StripBv(" " + (tok + (" " + b))) == "  " + StripBv(b)
  {
    var tail := " " + b;
    var rest := " " + (tok + tail);
    assert !TokenAt(rest, 0) && rest[1..] == tok + tail;
    StripTokenPrefix(tok, tail);
    assert !TokenAt(tail, 0) && tail[1..] == b;
    assert StripBv(tail) == " " + StripBv(b);
  }

  /**
   * A line the callback has already rewritten is left alone when the macro
   * runs again: its song part is only BV numbers, which strip to the empty
   * name, and no key is empty.
   */
  lemma {:induction false} RewriteIsStable(songs: SongMap, lineStart: string, timePart: string, key: string)
    requires WellFormedSongs(songs) && key in songs
    requires forall id <- songs[key] :: IsBvToken(id)
    ensures ReplaceWithBV(songs, lineStart, timePart, " ", Join(songs[key], " "))
         == lineStart + timePart + " " + Join(songs[key], " ")
  {
    var joined := Join(songs[key], " ");
    StripJoinedTokens(songs[key]);
    TrimEmptyIffBlank(StripBv(joined));
    assert SongKey(joined) == [];
  }

  /**
   * Against a catalog read from a song list: the line is rewritten exactly
   * when some line of the list files an identifier under the cleaned song
   * name, and then it lists all of those identifiers in file order.
   */
  lemma {:induction false} ReplaceWithBVFromList(lines: seq<string>, lineStart: string, timePart: string, gap: string, songPart: string)
    ensures ReplaceWithBV(BuildCatalog(lines).songs, lineStart, timePart, gap, songPart)
         == if IdsFor(lines, SongKey(songPart)) != []
            then lineStart + timePart + " " + Join(IdsFor(lines, SongKey(songPart)), " ")
            else lineStart + timePart + gap + songPart
  {
    CatalogHasKey(lines, SongKey(songPart));
    CatalogLookup(lines, SongKey(songPart));
  }
}
