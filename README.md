# Project-Raven text utilities, modelled in Dafny

Project-Raven is a Discord voice-support bot. When a user joins the voice
channel configured as the help channel, the bot joins it and is meant to
greet, record and transcribe the user. `modules/utils.js` holds two string
routines:

- `loadBannedWords(filePath)` reads a block-list file of banned words. It
  splits the file into lines, trims each line, lower-cases it and drops the
  blank ones. A missing or falsy path gives the empty list.
- `splitResponse(response, max_length = 200)` cuts a text into segments no
  longer than a limit. While the text is longer than the limit, each round
  cuts at the last space at an index no larger than the limit, or cuts hard
  at the limit when there is no such space. The cut prefix becomes a
  segment, and the rest is trimmed and carried on. The remaining text is the
  last segment.

The project has two modules:

- `JsString` (`js_string.dfy`) models the JavaScript string built-ins these
  routines call:
  - `trim`, using ECMAScript's WhiteSpace and LineTerminator characters;
  - `toLowerCase`;
  - `lastIndexOf(c, from)`;
  - `split` on one character, with `Join` as its inverse.
  Each one comes with the lemmas that characterise it.
- `Utils` (`utils.dfy`) models the two routines.
  - `loadBannedWords` is pure, so it is a chain of functions:
    `NormalizeWord` → `NormalizeLines` → `ParseBannedWords` →
    `LoadBannedWords`. The filesystem is a map from existing paths to their
    contents.
  - `splitResponse` is a loop, so it is the method `SplitResponse`. The
    method is proved equal to the recursive specification `Segments`, and
    the properties of the segmentation are proved about `Segments`:
    - every segment fits the limit;
    - the segments and the whitespace dropped between them rebuild the
      input (`Covers`);
    - no non-whitespace character is lost;
    - greedy word wrapping is inverted exactly (`SegmentsOfJoin`).

Neither routine has a caller in the other source files; both are exercised
by `tests/utils.test.js`.

One could expect a segmenter to trim every segment, never to emit an empty
segment, and to give segments that rejoin with single spaces to the trimmed
text. `splitResponse` does none of these, and the model follows the code:
- The code trims only the remainder after each cut. So when everything
  after the last cut is whitespace, the last segment is empty (`"abc   "`
  with limit 3 gives `["abc", ""]`, `TrailingSpaceGivesEmptySegment`). A
  leading space that is the only space within the limit gives an empty first
  segment (`LeadingSpaceGivesEmptySegment`).
- What the model proves is the code's actual guarantee: the segments, with
  whitespace-only gaps between them, are the input (`Covers`).

## Model

| member | source | states |
|---|---|---|
| JsString.Trim | modules/utils.js:9 | `trim` never lengthens the text, and its result is empty or starts and ends with a non-whitespace character |
| JsString.TrimParts | modules/utils.js:9 | `trim` removes a whitespace-only prefix and suffix, and the result is empty or starts and ends with a non-whitespace character |
| JsString.TrimBlank | modules/utils.js:9-10 | a trimmed line is empty exactly when the line is all whitespace |
| JsString.TrimSurrounded | modules/utils.js:21 | trimming whitespace wrapped around text that has no whitespace at either end gives back that text |
| JsString.NonSpaceTrim | modules/utils.js:21 | `trim` removes only whitespace: the non-whitespace characters are unchanged |
| JsString.LowerChar | modules/utils.js:9 | an upper-case letter `A`–`Z` becomes the matching lower-case letter; every other character is unchanged; the result is never upper-case |
| JsString.ToLower | modules/utils.js:9 | `toLowerCase` maps every character by `LowerChar`: it keeps the length, leaves no upper-case letter, changes no other character, and keeps whitespace as whitespace |
| JsString.LastIndexOf | modules/utils.js:18 | `lastIndexOf(' ', from)` is -1 or an index no larger than `from` holding the character, and no index between it and `from` holds it |
| JsString.Split | modules/utils.js:8 | `split('\n')` gives at least one piece, and no piece contains the separator |
| JsString.JoinSplit | modules/utils.js:8 | joining the pieces of a split with the separator gives back the text |
| JsString.SplitJoin | modules/utils.js:8 | splitting the join of separator-free pieces gives back the pieces |
| Utils.NormalizeWord | modules/utils.js:9-10 | a line's normalised form is empty exactly when the line is blank; otherwise it is trimmed, non-empty and has no upper-case letter; it contains no line break if the line had none |
| Utils.NormalizeLines | modules/utils.js:9-10 | the kept entries are never more than the lines, and every entry is normalised |
| Utils.ParseBannedWords | modules/utils.js:7-10 | the entries of a file's text are never more than its lines, and each is normalised and free of line breaks |
| Utils.LoadBannedWords | modules/utils.js:4-13 | an absent path, an empty path or a path that does not exist gives the empty list; otherwise the entries are well formed |
| Utils.NormalizeLinesCount | modules/utils.js:9-10 | there is exactly one entry per non-blank line, so duplicate lines are kept |
| Utils.NormalizeLinesOrder | modules/utils.js:9-10 | the entries are the normalised forms of the non-blank lines, one per line, in line order: they keep the order, their number is the number of non-blank lines, and every non-blank line's normalised form is among them |
| Utils.ParseBannedWordsOrder | modules/utils.js:7-10 | the entries of a file are the normalised forms of its non-blank lines, one per line, in line order |
| Utils.NormalizeLinesOfNormalized | modules/utils.js:9-10 | normalising lines that are already normalised changes nothing |
| Utils.SaveAndReload | modules/utils.js:7-10 | writing the loaded list back one entry per line and loading it again gives the same list |
| Utils.SampleLines | tests/utils.test.js:13 | the sample block-list text splits into the lines `" Foo "`, `"Bar"`, `""` and `"baz "` |
| Utils.SampleNormalized | tests/utils.test.js:11-17 | those lines normalise to `["foo", "bar", "baz"]`, and the blank line is dropped |
| Utils.ParseSample | tests/utils.test.js:11-17 | the file `" Foo \nBar\n\nbaz "` loads to `["foo", "bar", "baz"]` |
| Utils.SplitIndex | modules/utils.js:18-19 | a round cuts at the last space at or before the limit, or at the limit itself when no space lies in `[0, limit]` |
| Utils.RemainderShrinks | modules/utils.js:17-21 | with a limit of at least 1, the trimmed remainder is strictly shorter than the text, so the loop terminates |
| Utils.Segments | modules/utils.js:15-25 | the segmentation always has at least one segment, and no segment is longer than the limit |
| Utils.SegmentsStep | modules/utils.js:18-21 | one round of the loop emits the cut prefix and goes on with the trimmed rest, which is shorter |
| Utils.SplitResponse | modules/utils.js:15-25 | the loop computes `Segments`; text within the limit is returned as the only segment; there is at least one segment and every segment fits the limit; they cover the input up to whitespace gaps; no non-whitespace text is lost |
| Utils.SplitResponseDefault | modules/utils.js:15 | called without a limit, `splitResponse` segments at 200: text of at most 200 characters is the only segment, and no segment is longer than 200 |
| Utils.SegmentsCover | modules/utils.js:20-23 | the segments, in order, with whitespace-only gaps after them, are exactly the input: only whitespace is dropped, and the segments are contiguous and in order |
| Utils.SegmentsKeepText | modules/utils.js:20-23 | the segments, joined, have the same non-whitespace characters as the input, in the same order |
| Utils.CutAtSpace | modules/utils.js:18-21 | when the last space within the limit is at `k`, the segments are the text before `k` followed by the segments of the trimmed rest |
| Utils.HardCut | modules/utils.js:18-21 | with no space within the limit, the first segment is the first `limit` characters |
| Utils.CutBeforeWord | modules/utils.js:18-21 | when the next word does not fit after `a`, the text `a + " " + b` splits into `a` followed by the segments of `b` |
| Utils.SegmentsOfJoin | modules/utils.js:15-25 | segmenting the space-join of greedily wrapped lines gives back exactly those lines |
| Utils.QuickBrownFox | tests/utils.test.js:26-30 | the sentence about the quick brown fox with limit 10 gives `["The quick", "brown fox", "jumps over", "the lazy", "dog"]` |
| Utils.TrailingSpaceGivesEmptySegment | modules/utils.js:21-23 | when everything after the last cut is whitespace, the last segment is empty: `"abc   "` with limit 3 gives `["abc", ""]` |
| Utils.HardCutSample | modules/utils.js:19-21 | a word with no space within the limit is cut at the limit: `"abcd"` with limit 3 gives `["abc", "d"]` |
| Utils.LeadingSpaceGivesEmptySegment | modules/utils.js:18-21 | a leading space that is the only space within the limit yields an empty first segment: `" abcd"` with limit 3 gives `["", "abc", "d"]` |

## Left out

- Filesystem access (`fs.existsSync`, `fs.readFileSync`) is modelled as a map from existing paths to their contents. Reading errors other than a missing file are not modelled, and neither is UTF-8 decoding.
- `require` of `fs` and `path`, and the module export, are module plumbing with no behaviour.
- The other source files are not part of this model: `bot.js`, `commands/handleCommands.js`, `modules/handleVoiceStateUpdate.js`, `transcription.js` and `tts.js`. They are event wiring and calls to Discord and to hosted speech services, and none of them calls `loadBannedWords` or `splitResponse`. No code for a content filter, a dialogue engine or ticket escalation is in the source files.
- JsString.LowerChar, JsString.ToLower: lowercase ASCII `A`–`Z` only. JavaScript's `toLowerCase` follows the full Unicode case mapping, which can also change the length of a string; that mapping is not modelled.
- Lengths and indices count Unicode scalar values. JavaScript counts UTF-16 code units, so the two differ for characters outside the Basic Multilingual Plane.
- Utils.SplitResponse: requires `maxLength >= 1`. With `max_length` 0 the JavaScript loop never terminates on text that is not all whitespace, because every round cuts at index 0 and trimming then leaves the text unchanged. Non-integer or negative limits are not modelled.
- Utils.SplitResponse: Dafny has no default parameters, so the call without a limit is the separate method `SplitResponseDefault`, which uses the constant `DefaultMaxLength` (200).
- Utils.Segments: does not promise that segments are trimmed, that none is empty, or that they rejoin with single spaces to the trimmed input, because the code does not guarantee any of these (see the empty-segment lemmas above). The proved guarantee is `Covers`.
