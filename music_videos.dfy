/**
 * The pure helpers of get_music_videos.py: `sanitize_filename`, the output
 * file name and the record line written for each video. A record line,
 * once the line reader has dropped its `\n`, is a light-mode line of the
 * song-list format the macros read back.
 */
module MusicVideos {
  import opened Strings
  import opened Catalog
  import opened CatalogProperties

  /** The characters of the class `[\\/:*?"<>|]`. */
  predicate IsIllegal(c: char) {
    c == '\\' || c == '/' || c == ':' || c == '*' || c == '?' || c == '"' || c == '<' || c == '>' || c == '|'
  }

  /** No character of `s` is illegal in a file name. */
  predicate IsClean(s: string) {
    forall k :: 0 <= k < |s| ==> !IsIllegal(s[k])
  }

  /** `re.sub(r'[\\/:*?"<>|]', "", filename)`: every illegal character deleted. */
  function SanitizeFilename(filename: string): (r: string)
    ensures |r| <= |filename|
  {
    if filename == [] then []
    else (if IsIllegal(filename[0]) then [] else [filename[0]]) + SanitizeFilename(filename[1..])
  }

  /** No illegal character is left. */
  lemma {:induction false} SanitizeIsClean(s: string)
    ensures IsClean(SanitizeFilename(s))
    decreases |s|
  {
    if s != [] {
      var head := if IsIllegal(s[0]) then [] else [s[0]];
      var rest := SanitizeFilename(s[1..]);
      SanitizeIsClean(s[1..]);
      forall k | 0 <= k < |head + rest| ensures !IsIllegal((head + rest)[k]) {
        if k >= |head| {
          assert (head + rest)[k] == rest[k - |head|];
        }
      }
    }
  }

  /** Sanitising a concatenation sanitises each part. */
  lemma {:induction false} SanitizeConcat(a: string, b: string)
    ensures SanitizeFilename(a + b) == SanitizeFilename(a) + SanitizeFilename(b)
    decreases |a|
  {
    if a == [] {
      assert a + b == b;
    } else {
      var head := if IsIllegal(a[0]) then [] else [a[0]];
      assert SanitizeFilename(a + b) == head + SanitizeFilename(a[1..] + b) by {
        assert (a + b)[0] == a[0];
        assert (a + b)[1..] == a[1..] + b;
      }
      assert SanitizeFilename(a[1..] + b) == SanitizeFilename(a[1..]) + SanitizeFilename(b) by {
        SanitizeConcat(a[1..], b);
      }
      assert SanitizeFilename(a) == head + SanitizeFilename(a[1..]);
      var x, y := SanitizeFilename(a[1..]), SanitizeFilename(b);
      assert head + (x + y) == (head + x) + y;
    }
  }

  /** Every legal character keeps its number of occurrences; no illegal one is left. */
  lemma {:induction false} SanitizeCounts(s: string, c: char)
    ensures multiset(SanitizeFilename(s))[c] == if IsIllegal(c) then 0 else multiset(s)[c]
    decreases |s|
  {
    if s != [] {
      SanitizeCounts(s[1..], c);
      assert s == [s[0]] + s[1..];
    }
  }

  /** The kept characters stay in their order. */
  lemma {:induction false} SanitizeSubsequence(s: string)
    ensures IsSubsequence(SanitizeFilename(s), s)
    decreases |s|
  {
    if s != [] {
      SanitizeSubsequence(s[1..]);
      var r := SanitizeFilename(s);
      SanitizeIsClean(s[1..]);
      if !IsIllegal(s[0]) {
        assert r[0] == s[0] && r[1..] == SanitizeFilename(s[1..]);
      } else {
        assert r == [] + SanitizeFilename(s[1..]);
        assert r == SanitizeFilename(s[1..]);
        if r != [] {
          assert !IsIllegal(r[0]) && r[0] != s[0];
          assert IsSubsequence(r, s) == IsSubsequence(r, s[1..]);
        }
      }
    }
  }

  /** A name without illegal characters is left as it is, and only such a name is. */
  lemma {:induction false} SanitizeFixedIffClean(s: string)
    ensures SanitizeFilename(s) == s <==> IsClean(s)
    decreases |s|
  {
    if s != [] {
      SanitizeFixedIffClean(s[1..]);
      if IsIllegal(s[0]) {
        assert |SanitizeFilename(s)| <= |s[1..]|;
      } else if IsClean(s) {
        assert IsClean(s[1..]) by {
          forall k | 0 <= k < |s[1..]| ensures !IsIllegal(s[1..][k]) {
            assert s[1..][k] == s[k + 1];
          }
        }
      }
    }
  }

  /** Sanitising twice is sanitising once. */
  lemma {:induction false} SanitizeIdempotent(s: string)
    ensures SanitizeFilename(SanitizeFilename(s)) == SanitizeFilename(s)
  {
    SanitizeIsClean(s);
    SanitizeFixedIffClean(SanitizeFilename(s));
  }

  /** `f"{safe_up_name}.txt"` with `safe_up_name = sanitize_filename(up_name)`. */
  function OutputFilename(upName: string): (r: string)
    ensures IsClean(r)
    ensures |r| >= 4 && r[|r| - 4..] == ".txt" && r[..|r| - 4] == SanitizeFilename(upName)
  {
    SanitizeIsClean(upName);
    SanitizeFilename(upName) + ".txt"
  }

  /** `f"{bvid}, {title}\n"`, one record per video. */
  function RecordLine(bvid: string, title: string): string {
    bvid + ", " + title + "\n"
  }

  /** A record line contains no `,,`. */
  lemma {:induction false} RecordHasNoDoubleComma(bvid: string, title: string)
    requires !Contains(bvid, [',']) && !Contains(title, [','])
    ensures !Contains(bvid + ", " + title, ",,")
  {
    var line := bvid + ", " + title;
    if Contains(line, ",,") {
      var k := IndexOf(line, ",,", 0).value;
      assert line[k] == ',' && line[k + 1] == ',' by {
        assert line[k..k + 2] == ",,";
      }
      CommaOnlyAt(bvid, title, k);
      assert false;
    }
  }

  lemma {:induction false} CommaOnlyAt(bvid: string, title: string, k: nat)
    requires !Contains(bvid, [',']) && !Contains(title, [','])
    requires k < |bvid + ", " + title| && (bvid + ", " + title)[k] == ','
    ensures k == |bvid|
  {
    var line := bvid + ", " + title;
    if k < |bvid| {
      assert bvid[k] == line[k];
      OccursAtChar(bvid, ',', k);
      assert false;
    } else if k > |bvid| + 1 {
      assert title[k - |bvid| - 2] == line[k];
      OccursAtChar(title, ',', k - |bvid| - 2);
      assert false;
    }
  }

  /**
   * A record written for a video reads back, without its `\n`, as a
   * light-mode song-list line whose two fields are the identifier and the
   * title, provided neither holds a comma, both are trimmed and non-empty,
   * and the identifier does not start with the comment mark `#`.
   */
  lemma {:induction false} RecordReadsBack(bvid: string, title: string)
    requires bvid != [] && title != [] && IsTrimmed(bvid) && IsTrimmed(title)
    requires !Contains(bvid, [',']) && !Contains(title, [',']) && bvid[0] != '#'
    ensures |RecordLine(bvid, title)| > 0 && RecordLine(bvid, title)[|RecordLine(bvid, title)| - 1] == '\n'
    ensures var line := RecordLine(bvid, title)[..|RecordLine(bvid, title)| - 1];
      !IsSkipped(line) && !IsHeavy(Trim(line)) && LineFields(line) == [bvid, title]
  {
    var line := bvid + ", " + title;
    assert RecordLine(bvid, title) == line + "\n";
    assert (line + "\n")[..|line|] == line;
    RecordIsTrimmed(bvid, title);
    RecordHasNoDoubleComma(bvid, title);
    RecordSplit(bvid, title);
    RecordFields(bvid, title);
  }

  lemma {:induction false} RecordIsTrimmed(bvid: string, title: string)
    requires bvid != [] && title != [] && IsTrimmed(bvid) && IsTrimmed(title) && bvid[0] != '#'
    ensures Trim(bvid + ", " + title) == bvid + ", " + title
    ensures !IsSkipped(bvid + ", " + title)
  {
    var line := bvid + ", " + title;
    assert line[0] == bvid[0] && line[|line| - 1] == title[|title| - 1];
    TrimmedIsFixed(line);
  }

  lemma {:induction false} RecordSplit(bvid: string, title: string)
    requires !Contains(bvid, [',']) && !Contains(title, [','])
    ensures Split(bvid + ", " + title, ",") == [bvid, " " + title]
  {
    assert bvid + ", " + title == bvid + [','] + (" " + title);
    SplitAtFirst(bvid, ',', " " + title);
    assert !Contains(" " + title, [',']) by {
      forall k | 0 <= k < |" " + title| ensures (" " + title)[k] != ',' {
        if k > 0 {
          assert (" " + title)[k] == title[k - 1];
          OccursAtChar(title, ',', k - 1);
        }
      }
      NotContainsChar(" " + title, ',');
    }
    SplitWithoutSeparator(" " + title, ",");
  }

  lemma {:induction false} RecordFields(bvid: string, title: string)
    requires bvid != [] && title != [] && IsTrimmed(bvid) && IsTrimmed(title)
    ensures DropEmpty(TrimAll([bvid, " " + title])) == [bvid, title]
  {
    TrimAfterSpace(title);
    TrimmedIsFixed(bvid);
    TrimAllPair(bvid, " " + title);
    DropEmptyPair(bvid, title);
  }

  lemma {:induction false} TrimAfterSpace(title: string)
    requires IsTrimmed(title)
    ensures Trim(" " + title) == title
  {
    TrimLeadingSpace(' ', title);
    assert [' '] + title == " " + title;
    TrimmedIsFixed(title);
  }

  lemma {:induction false} TrimAllPair(a: string, b: string)
    ensures TrimAll([a, b]) == [Trim(a), Trim(b)]
  {
    var ps := [a, b];
    var r := TrimAll(ps);
    assert |r| == 2 && r[0] == Trim(ps[0]) && r[1] == Trim(ps[1]);
  }

  lemma {:induction false} DropEmptyPair(a: string, b: string)
    requires a != [] && b != []
    ensures DropEmpty([a, b]) == [a, b]
  {
    assert [a, b][1..] == [b];
    assert [b][1..] == [];
  }
}
