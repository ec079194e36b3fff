/**
 The two string routines of modules/utils.js: `loadBannedWords`, which turns a
 block-list file into a list of normalised phrases, and `splitResponse`, which
 cuts a reply into length-bounded segments for speech synthesis.
 */
module Utils {
  import opened JsString

  datatype Option<T> = None | Some(value: T)

  // ===========================================================================
  // loadBannedWords
  // ===========================================================================

  /** A block-list entry as the loader produces it: non-empty, trimmed, lower-case. */
  predicate IsNormalized(w: string) {
    && w != []
    && !IsSpace(w[0])
    && !IsSpace(w[|w| - 1])
    && (forall i :: 0 <= i < |w| ==> !IsUpper(w[i]))
  }

  /** `word.trim().toLowerCase()`: empty exactly for blank lines, normalised otherwise. */
  function NormalizeWord(line: string): (w: string)
    ensures w == [] <==> AllSpace(line)
    ensures w != [] ==> IsNormalized(w)
    ensures '\n' !in line ==> '\n' !in w
  {
    var t := Trim(line);
    var w := ToLower(t);
    TrimBlank(line);
    assert t == [] || (!IsSpace(t[0]) && !IsSpace(t[|t| - 1])) by {
      var lead, trail := TrimParts(line);
    }
    assert '\n' !in line ==> '\n' !in w by {
      var lead, trail := TrimParts(line);
      forall i | 0 <= i < |w| && w[i] == '\n' ensures '\n' in line {
        assert IsSpace(t[i]) && !IsUpper(t[i]);
        assert line[|lead| + i] == t[i];
      }
    }
    w
  }

  /** `.map(word => word.trim().toLowerCase()).filter(word => word.length > 0)`. */
  function NormalizeLines(lines: seq<string>): (ws: seq<string>)
    ensures |ws| <= |lines|
    ensures forall i :: 0 <= i < |ws| ==> IsNormalized(ws[i])
    ensures (forall i :: 0 <= i < |lines| ==> '\n' !in lines[i]) ==>
              forall i :: 0 <= i < |ws| ==> '\n' !in ws[i]
  {
    if lines == [] then []
    else
      var w := NormalizeWord(lines[0]);
      (if w != [] then [w] else []) + NormalizeLines(lines[1..])
  }

  /**
   The parsing half of `loadBannedWords`: one entry per non-blank line of
   `text`, never more entries than lines, each normalised and free of line
   breaks.
   */
  function ParseBannedWords(text: string): (ws: seq<string>)
    ensures |ws| <= |Split(text, '\n')|
    ensures forall i :: 0 <= i < |ws| ==> IsNormalized(ws[i]) && '\n' !in ws[i]
  {
    NormalizeLines(Split(text, '\n'))
  }

  /**
   `loadBannedWords(filePath)`. `filePath` is `None` when no path is given;
   `files` maps each existing path to its contents, so `p in files` is
   `existsSync(p)` and `files[p]` is `readFileSync(p, 'utf-8')`. A falsy
   (absent or empty) path or a missing file gives the empty list.
   */
  function LoadBannedWords(filePath: Option<string>, files: map<string, string>): (ws: seq<string>)
    ensures (filePath.None? || filePath.value == [] || filePath.value !in files) ==> ws == []
    ensures forall i :: 0 <= i < |ws| ==> IsNormalized(ws[i]) && '\n' !in ws[i]
  {
    if filePath.Some? && filePath.value != [] && filePath.value in files then
      ParseBannedWords(files[filePath.value])
    else
      []
  }

  /**
   `ws` lists, in order, the normalisations of some of `lines`: each entry
   comes from a later line than the entry before it.
   */
  ghost predicate KeepsInOrder(ws: seq<string>, lines: seq<string>)
    decreases |lines|
  {
    || ws == []
    || (&& lines != []
        && (|| (ws[0] == NormalizeWord(lines[0]) && KeepsInOrder(ws[1..], lines[1..]))
            || KeepsInOrder(ws, lines[1..])))
  }

  /** The number of lines that are not blank. */
  function NonBlankCount(lines: seq<string>): (n: nat)
    ensures n <= |lines|
  {
    if lines == [] then 0
    else (if AllSpace(lines[0]) then 0 else 1) + NonBlankCount(lines[1..])
  }

  /** There is exactly one entry per non-blank line. */
  lemma {:induction false} NormalizeLinesCount(lines: seq<string>)
    ensures |NormalizeLines(lines)| == NonBlankCount(lines)
  {
    if lines != [] {
      NormalizeLinesCount(lines[1..]);
    }
  }

  /**
   The entries follow the order of their source lines, and every line that is
   not blank contributes its normalisation: there is one entry per non-blank
   line, so duplicates are kept.
   */
  lemma {:induction false} NormalizeLinesOrder(lines: seq<string>)
    ensures KeepsInOrder(NormalizeLines(lines), lines)
    ensures |NormalizeLines(lines)| == NonBlankCount(lines)
    ensures forall i :: 0 <= i < |lines| && !AllSpace(lines[i]) ==>
              NormalizeWord(lines[i]) in NormalizeLines(lines)
  {
    NormalizeLinesCount(lines);
    if lines != [] {
      NormalizeLinesOrder(lines[1..]);
      var w := NormalizeWord(lines[0]);
      var ws := NormalizeLines(lines);
      var tail := NormalizeLines(lines[1..]);
      if w != [] {
        assert ws == [w] + tail;
        assert ws[1..] == tail;
      } else {
        assert ws == tail;
      }
      forall i | 0 <= i < |lines| && !AllSpace(lines[i])
        ensures NormalizeWord(lines[i]) in ws
      {
        if i > 0 {
          assert lines[i] == lines[1..][i - 1];
        }
      }
    }
  }

  /** Parsing keeps the order of the file's lines and drops only blank ones. */
  lemma ParseBannedWordsOrder(text: string)
    ensures KeepsInOrder(ParseBannedWords(text), Split(text, '\n'))
    ensures |ParseBannedWords(text)| == NonBlankCount(Split(text, '\n'))
    ensures var lines := Split(text, '\n');
      forall i :: 0 <= i < |lines| && !AllSpace(lines[i]) ==>
        NormalizeWord(lines[i]) in ParseBannedWords(text)
  {
    NormalizeLinesOrder(Split(text, '\n'));
  }

  lemma ToLowerOfLower(s: string)
    requires forall i :: 0 <= i < |s| ==> !IsUpper(s[i])
    ensures ToLower(s) == s
  {
  }

  /** Normalised entries are left alone by a second normalisation. */
  lemma {:induction false} NormalizeLinesOfNormalized(ws: seq<string>)
    requires forall i :: 0 <= i < |ws| ==> IsNormalized(ws[i])
    ensures NormalizeLines(ws) == ws
  {
    if ws != [] {
      TrimTrimmed(ws[0]);
      ToLowerOfLower(ws[0]);
      assert NormalizeWord(ws[0]) == ws[0];
      NormalizeLinesOfNormalized(ws[1..]);
      assert [ws[0]] + ws[1..] == ws;
    }
  }

  /**
   Writing a loaded block-list back out, one entry per line, and loading it
   again gives the same list.
   */
  lemma SaveAndReload(text: string)
    ensures var ws := ParseBannedWords(text); ParseBannedWords(Join(ws, '\n')) == ws
  {
    var ws := ParseBannedWords(text);
    if ws == [] {
      assert Join(ws, '\n') == [];
      assert Split([], '\n') == [[]];
      assert NormalizeWord([]) == [];
    } else {
      SplitJoin(ws, '\n');
      NormalizeLinesOfNormalized(ws);
    }
  }

  /** The lines of the block-list file written by `tests/utils.test.js`. */
  lemma SampleLines()
    ensures Split(" Foo \nBar\n\nbaz ", '\n') == [" Foo ", "Bar", "", "baz "]
  {
    var lines := [" Foo ", "Bar", "", "baz "];
    SplitJoin(lines, '\n');
    assert Join(lines[2..], '\n') == "\nbaz ";
    assert Join(lines, '\n') == " Foo \nBar\n\nbaz ";
  }

  lemma SampleFoo()
    ensures NormalizeWord(" Foo ") == "foo"
  {
    assert " Foo " == " " + "Foo" + " ";
    TrimSurrounded(" ", "Foo", " ");
  }

  lemma SampleBar()
    ensures NormalizeWord("Bar") == "bar"
  {
    TrimTrimmed("Bar");
  }

  lemma SampleBaz()
    ensures NormalizeWord("baz ") == "baz"
  {
    assert "baz " == "" + "baz" + " ";
    TrimSurrounded("", "baz", " ");
    ToLowerOfLower("baz");
  }

  /** Those lines, trimmed, lower-cased and with the blank one dropped. */
  lemma SampleNormalized()
    ensures NormalizeLines([" Foo ", "Bar", "", "baz "]) == ["foo", "bar", "baz"]
  {
    var lines := [" Foo ", "Bar", "", "baz "];
    SampleFoo();
    SampleBar();
    SampleBaz();
    assert NormalizeWord("") == "";
    assert lines[1..] == ["Bar", "", "baz "];
    assert lines[1..][1..] == ["", "baz "];
    assert lines[1..][1..][1..] == ["baz "];
  }

  /** A block-list file whose lines need trimming, lower-casing and skipping. */
  lemma ParseSample()
    ensures ParseBannedWords(" Foo \nBar\n\nbaz ") == ["foo", "bar", "baz"]
  {
    SampleLines();
    SampleNormalized();
  }

  // ===========================================================================
  // splitResponse
  // ===========================================================================

  /** The default `max_length` of `splitResponse`. */
  const DefaultMaxLength: nat := 200

  /**
   Where one round of the loop cuts `s`: the last space at an index no larger
   than `maxLength`, or a hard cut at `maxLength` when there is no such space.
   */
  function SplitIndex(s: string, maxLength: nat): (k: nat)
    requires maxLength < |s|
    ensures k <= maxLength
    ensures || (s[k] == ' ' && forall j :: k < j <= maxLength ==> s[j] != ' ')
            || (k == maxLength && forall j :: 0 <= j <= maxLength ==> s[j] != ' ')
  {
    var i := LastIndexOf(s, ' ', maxLength);
    if i == -1 then maxLength else i
  }

  /**
   What is left to split after one round: strictly shorter than `s` once
   `maxLength >= 1`, either because the cut is past index 0 or because the
   cut is at the space at index 0, which `trim` removes.
   */
  lemma RemainderShrinks(s: string, maxLength: nat)
    requires 1 <= maxLength < |s|
    ensures |Trim(s[SplitIndex(s, maxLength)..])| < |s|
  {
    var k := SplitIndex(s, maxLength);
    if k == 0 {
      assert s[k..] == s;
      assert IsSpace(s[0]);
      assert TrimStart(s) == TrimStart(s[1..]);
    }
  }

  /**
   The segments `splitResponse` produces, one loop round per step: the cut
   prefix, then the segments of the trimmed remainder; text that already
   fits is the only segment. There is always one, and none is longer than
   `maxLength`.
   */
  function Segments(s: string, maxLength: nat): (parts: seq<string>)
    requires maxLength >= 1
    ensures |parts| >= 1
    ensures forall i :: 0 <= i < |parts| ==> |parts[i]| <= maxLength
    decreases |s|
  {
    if |s| <= maxLength then [s]
    else
      var k := SplitIndex(s, maxLength);
      var rest := Trim(s[k..]);
      RemainderShrinks(s, maxLength);
      [s[..k]] + Segments(rest, maxLength)
  }

  /** One round of the loop, as `Segments` takes it. */
  lemma SegmentsStep(s: string, maxLength: nat)
    requires 1 <= maxLength < |s|
    ensures var k := SplitIndex(s, maxLength);
      && |Trim(s[k..])| < |s|
      && Segments(s, maxLength) == [s[..k]] + Segments(Trim(s[k..]), maxLength)
  {
    RemainderShrinks(s, maxLength);
  }

  lemma AppendAssoc(a: seq<string>, x: string, c: seq<string>)
    ensures (a + [x]) + c == a + ([x] + c)
  {
  }

  /** The segments joined with nothing in between. */
  function Concat(parts: seq<string>): string {
    if parts == [] then [] else parts[0] + Concat(parts[1..])
  }

  /** `parts[0] + gaps[0] + parts[1] + gaps[1] + ...`. */
  function Weave(parts: seq<string>, gaps: seq<string>): string
    requires |gaps| == |parts|
  {
    if parts == [] then [] else parts[0] + gaps[0] + Weave(parts[1..], gaps[1..])
  }

  /**
   `parts` are contiguous pieces of `s`, in order, and what lies between and
   after them is whitespace.
   */
  ghost predicate Covers(s: string, parts: seq<string>) {
    exists gaps: seq<string> ::
      && |gaps| == |parts|
      && (forall i :: 0 <= i < |gaps| ==> AllSpace(gaps[i]))
      && s == Weave(parts, gaps)
  }

  /** Whitespace appended at the end of a weave joins its last gap. */
  lemma {:induction false} WeaveExtendLastGap(parts: seq<string>, gaps: seq<string>, w: string)
    requires |parts| == |gaps| >= 1
    ensures Weave(parts, gaps[..|gaps| - 1] + [gaps[|gaps| - 1] + w]) == Weave(parts, gaps) + w
  {
    var gaps' := gaps[..|gaps| - 1] + [gaps[|gaps| - 1] + w];
    if |parts| == 1 {
      assert gaps' == [gaps[0] + w];
    } else {
      WeaveExtendLastGap(parts[1..], gaps[1..], w);
      assert gaps'[1..] == gaps[1..][..|gaps| - 2] + [gaps[1..][|gaps| - 2] + w];
      assert gaps'[0] == gaps[0];
    }
  }

  /** Whitespace after the last piece belongs to the last gap. */
  lemma CoversExtend(s: string, parts: seq<string>, w: string)
    requires |parts| >= 1 && Covers(s, parts) && AllSpace(w)
    ensures Covers(s + w, parts)
  {
    var gaps :| |gaps| == |parts| && (forall i :: 0 <= i < |gaps| ==> AllSpace(gaps[i]))
                && s == Weave(parts, gaps);
    var n := |gaps|;
    var gaps' := gaps[..n - 1] + [gaps[n - 1] + w];
    WeaveExtendLastGap(parts, gaps, w);
    assert AllSpace(gaps[n - 1] + w);
    assert forall i :: 0 <= i < n - 1 ==> gaps'[i] == gaps[i];
  }

  /** A piece followed by whitespace can go in front of a covering. */
  lemma CoversPrepend(head: string, lead: string, s: string, parts: seq<string>)
    requires Covers(s, parts) && AllSpace(lead)
    ensures Covers(head + lead + s, [head] + parts)
  {
    var gaps :| |gaps| == |parts| && (forall i :: 0 <= i < |gaps| ==> AllSpace(gaps[i]))
                && s == Weave(parts, gaps);
    var parts', gaps' := [head] + parts, [lead] + gaps;
    assert parts'[1..] == parts && gaps'[1..] == gaps;
    assert Weave(parts', gaps') == head + lead + s;
    assert forall i :: 1 <= i < |gaps'| ==> gaps'[i] == gaps[i - 1];
  }

  /** A cut prefix in front of the trimmed remainder keeps the covering. */
  lemma CoversCons(head: string, t: string, parts: seq<string>)
    requires |parts| >= 1 && Covers(Trim(t), parts)
    ensures Covers(head + t, [head] + parts)
  {
    var rest := Trim(t);
    var lead, trail := TrimParts(t);
    assert t == lead + (rest + trail);
    CoversExtend(rest, parts, trail);
    CoversPrepend(head, lead, rest + trail, parts);
    assert head + t == head + lead + (rest + trail);
  }

  /** A cut at `k` in front of the segments of the trimmed remainder keeps the covering. */
  lemma CoversCut(s: string, k: nat, parts: seq<string>)
    requires k <= |s| && |parts| >= 1 && Covers(Trim(s[k..]), parts)
    ensures Covers(s, [s[..k]] + parts)
  {
    CoversCons(s[..k], s[k..], parts);
    assert s[..k] + s[k..] == s;
  }

  /** Every segment lies in the text, in order, with only whitespace around them. */
  lemma {:induction false} SegmentsCover(s: string, maxLength: nat)
    requires maxLength >= 1
    ensures Covers(s, Segments(s, maxLength))
    decreases |s|
  {
    if |s| <= maxLength {
      assert s == Weave([s], [[]]);
    } else {
      var k := SplitIndex(s, maxLength);
      SegmentsStep(s, maxLength);
      var parts := Segments(Trim(s[k..]), maxLength);
      assert Segments(s, maxLength) == [s[..k]] + parts;
      SegmentsCover(Trim(s[k..]), maxLength);
      CoversCut(s, k, parts);
    }
  }

  /** Deleting whitespace from a weave with whitespace gaps deletes the gaps. */
  lemma {:induction false} WeaveNonSpace(parts: seq<string>, gaps: seq<string>)
    requires |gaps| == |parts|
    requires forall i :: 0 <= i < |gaps| ==> AllSpace(gaps[i])
    ensures NonSpace(Weave(parts, gaps)) == NonSpace(Concat(parts))
  {
    if parts != [] {
      WeaveNonSpace(parts[1..], gaps[1..]);
      NonSpaceAppend(parts[0] + gaps[0], Weave(parts[1..], gaps[1..]));
      NonSpaceAppend(parts[0], gaps[0]);
      NonSpaceAllSpace(gaps[0]);
      NonSpaceAppend(parts[0], Concat(parts[1..]));
    }
  }

  /** Splitting drops nothing but whitespace. */
  lemma SegmentsKeepText(s: string, maxLength: nat)
    requires maxLength >= 1
    ensures NonSpace(Concat(Segments(s, maxLength))) == NonSpace(s)
  {
    var parts := Segments(s, maxLength);
    SegmentsCover(s, maxLength);
    var gaps :| |gaps| == |parts| && (forall i :: 0 <= i < |gaps| ==> AllSpace(gaps[i]))
                && s == Weave(parts, gaps);
    WeaveNonSpace(parts, gaps);
  }

  /**
   `splitResponse(response, maxLength)`. With `max_length` 0 the JavaScript
   loop never ends on text that is not all whitespace, so `maxLength >= 1`
   is required.
   */
  method SplitResponse(response: string, maxLength: nat) returns (parts: seq<string>)
    requires maxLength >= 1
    ensures parts == Segments(response, maxLength)
    ensures |response| <= maxLength ==> parts == [response]
    ensures |parts| >= 1 && forall i :: 0 <= i < |parts| ==> |parts[i]| <= maxLength
    ensures Covers(response, parts)
    ensures NonSpace(Concat(parts)) == NonSpace(response)
  {
    parts := [];
    var rest := response;
    while |rest| > maxLength
      invariant parts + Segments(rest, maxLength) == Segments(response, maxLength)
      decreases |rest|
    {
      var splitAt := LastIndexOf(rest, ' ', maxLength);
      if splitAt == -1 {
        splitAt := maxLength;
      }
      SegmentsStep(rest, maxLength);
      AppendAssoc(parts, rest[..splitAt], Segments(Trim(rest[splitAt..]), maxLength));
      parts := parts + [rest[..splitAt]];
      rest := Trim(rest[splitAt..]);
    }
    parts := parts + [rest];
    SegmentsCover(response, maxLength);
    SegmentsKeepText(response, maxLength);
  }

  /** `splitResponse(response)`, with the default `max_length` of 200. */
  method SplitResponseDefault(response: string) returns (parts: seq<string>)
    ensures parts == Segments(response, DefaultMaxLength)
    ensures |response| <= 200 ==> parts == [response]
    ensures forall i :: 0 <= i < |parts| ==> |parts[i]| <= 200
  {
    parts := SplitResponse(response, DefaultMaxLength);
  }

  /** A round that cuts at the space at index `k`. */
  lemma CutAtSpace(s: string, maxLength: nat, k: nat)
    requires 1 <= maxLength < |s| && k <= maxLength && s[k] == ' '
    requires forall j :: k < j <= maxLength ==> s[j] != ' '
    ensures Segments(s, maxLength) == [s[..k]] + Segments(Trim(s[k..]), maxLength)
  {
    assert SplitIndex(s, maxLength) == k;
    SegmentsStep(s, maxLength);
  }

  /** A round that finds no space and cuts at `maxLength`. */
  lemma HardCut(s: string, maxLength: nat)
    requires 1 <= maxLength < |s|
    requires forall j :: 0 <= j <= maxLength ==> s[j] != ' '
    ensures Segments(s, maxLength) == [s[..maxLength]] + Segments(Trim(s[maxLength..]), maxLength)
  {
    assert SplitIndex(s, maxLength) == maxLength;
    SegmentsStep(s, maxLength);
  }

  /**
   A round on `a + " " + b` that cuts at the space after `a`: the space is
   within the limit and no later one is.
   */
  lemma CutBeforeWord(a: string, b: string, maxLength: nat)
    requires 1 <= maxLength && |a| <= maxLength < |a| + 1 + |b|
    requires forall j :: 0 <= j < maxLength - |a| ==> b[j] != ' '
    requires b == [] || (!IsSpace(b[0]) && !IsSpace(b[|b| - 1]))
    ensures Segments(a + " " + b, maxLength) == [a] + Segments(b, maxLength)
  {
    var s := a + " " + b;
    SpaceJoinSlices(a, b);
    forall j | |a| < j <= maxLength ensures s[j] != ' ' {
      assert s[j] == b[j - |a| - 1];
    }
    CutAtSpace(s, maxLength, |a|);
    TrimSurrounded(" ", b, "");
  }

  lemma SpaceJoinSlices(a: string, b: string)
    ensures (a + " " + b)[..|a|] == a
    ensures (a + " " + b)[|a|..] == " " + b + ""
  {
    assert " " + b + "" == " " + b;
  }

  /**
   `chunks` is what greedy wrapping at `maxLength` makes: every piece is
   non-empty, fits, has no surrounding whitespace, and could not have taken
   the first word of the piece after it.
   */
  predicate GreedyChunks(chunks: seq<string>, maxLength: nat)
    decreases |chunks|
  {
    && |chunks| >= 1
    && 0 < |chunks[0]| <= maxLength
    && !IsSpace(chunks[0][0])
    && !IsSpace(chunks[0][|chunks[0]| - 1])
    && (|chunks| > 1 ==>
          && maxLength < |chunks[0]| + 1 + |chunks[1]|
          && (forall j :: 0 <= j < maxLength - |chunks[0]| ==> chunks[1][j] != ' ')
          && GreedyChunks(chunks[1..], maxLength))
  }

  lemma {:induction false} GreedyLastChunk(chunks: seq<string>, maxLength: nat)
    requires GreedyChunks(chunks, maxLength)
    ensures var last := chunks[|chunks| - 1]; last != [] && !IsSpace(last[|last| - 1])
  {
    if |chunks| > 1 {
      GreedyLastChunk(chunks[1..], maxLength);
    }
  }

  /**
   Greedy wrapping is undone by joining: greedily wrapped pieces, joined with
   single spaces, split back into exactly those pieces.
   */
  lemma {:induction false} SegmentsOfJoin(chunks: seq<string>, maxLength: nat)
    requires maxLength >= 1 && GreedyChunks(chunks, maxLength)
    ensures Segments(Join(chunks, ' '), maxLength) == chunks
  {
    if |chunks| > 1 {
      var c, rest := chunks[0], chunks[1..];
      assert chunks == [c] + rest;
      SegmentsOfJoin(rest, maxLength);
      var b := Join(rest, ' ');
      assert Join(chunks, ' ') == c + " " + b;
      assert rest[0] == chunks[1];
      GreedyLastChunk(rest, maxLength);
      JoinEndsWithLast(rest, ' ');
      assert forall j :: 0 <= j < maxLength - |c| ==> b[j] == rest[0][j];
      CutBeforeWord(c, b, maxLength);
    }
  }

  /** The pieces of the sentence in `tests/utils.test.js`, at a limit of ten. */
  lemma QuickBrownFoxChunks()
    ensures GreedyChunks(["The quick", "brown fox", "jumps over", "the lazy", "dog"], 10)
  {
  }

  lemma QuickBrownFoxJoinTail()
    ensures Join(["jumps over", "the lazy", "dog"], ' ') == "jumps over the lazy dog"
  {
    var tail := ["jumps over", "the lazy", "dog"];
    assert Join(tail[1..], ' ') == "the lazy dog";
  }

  lemma QuickBrownFoxJoinTail2()
    ensures Join(["brown fox", "jumps over", "the lazy", "dog"], ' ') == "brown fox jumps over the lazy dog"
  {
    var tail := ["brown fox", "jumps over", "the lazy", "dog"];
    QuickBrownFoxJoinTail();
    assert tail[1..] == ["jumps over", "the lazy", "dog"];
    assert Join(tail, ' ') == "brown fox" + " " + "jumps over the lazy dog";
  }

  lemma QuickBrownFoxJoin()
    ensures Join(["The quick", "brown fox", "jumps over", "the lazy", "dog"], ' ')
         == "The quick brown fox jumps over the lazy dog"
  {
    var chunks := ["The quick", "brown fox", "jumps over", "the lazy", "dog"];
    QuickBrownFoxJoinTail2();
    assert chunks[1..] == ["brown fox", "jumps over", "the lazy", "dog"];
    assert Join(chunks, ' ') == "The quick" + " " + "brown fox jumps over the lazy dog";
  }

  /** The sentence from `tests/utils.test.js`, split at a limit of ten. */
  lemma QuickBrownFox()
    ensures Segments("The quick brown fox jumps over the lazy dog", 10)
         == ["The quick", "brown fox", "jumps over", "the lazy", "dog"]
  {
    QuickBrownFoxChunks();
    SegmentsOfJoin(["The quick", "brown fox", "jumps over", "the lazy", "dog"], 10);
    QuickBrownFoxJoin();
  }

  /** When everything after the last cut is whitespace, the last segment is empty. */
  lemma TrailingSpaceGivesEmptySegment()
    ensures Segments("abc   ", 3) == ["abc", ""]
  {
    var s := "abc   ";
    CutAtSpace(s, 3, 3);
    assert s[3..] == "   " + "" + "" && s[..3] == "abc";
    TrimSurrounded("   ", "", "");
  }

  /** Text with no space within the limit is cut hard at the limit. */
  lemma HardCutSample()
    ensures Segments("abcd", 3) == ["abc", "d"]
  {
    HardCut("abcd", 3);
    assert "abcd"[3..] == "" + "d" + "" && "abcd"[..3] == "abc";
    TrimSurrounded("", "d", "");
  }

  lemma LeadingSpaceStep()
    ensures Segments(" abcd", 3) == [""] + Segments("abcd", 3)
  {
    var s := " abcd";
    CutAtSpace(s, 3, 0);
    assert s[0..] == " " + "abcd" + "" && s[..0] == "";
    TrimSurrounded(" ", "abcd", "");
  }

  /** A leading space with no other space within the limit gives an empty first segment. */
  lemma LeadingSpaceGivesEmptySegment()
    ensures Segments(" abcd", 3) == ["", "abc", "d"]
  {
    LeadingSpaceStep();
    HardCutSample();
  }
}
