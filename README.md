# Subtitle writer of video-transcription, modelled in Dafny

The repository transcribes the audio of video files and writes the
transcript as an SRT subtitle file. This project models the part that turns
a transcript into SRT text:

- `format_time` (`src/utils.py`) turns an offset in seconds into a
  timecode `HH:MM:SS,mmm`;
- `generate_subtitles` (`src/subtitle_generator.py`) copies the list of
  `(start, end, text)` spans, in order;
- `format_srt` (`src/subtitle_generator.py`) writes one numbered cue block
  per span, `"<index>\n<start> --> <end>\n<text>\n\n"`, indices from 1.

Files and modules:

- `int_format.dfy`, module `IntFormat`: Python's `str(n)` for the cue index
  (`Digits`) and the zero-padded format spec `{n:0W}` (`Field`: sign first,
  then the digits zero-padded so that sign and digits fill at least W
  characters, never truncated). It also has `ParseDecimal` and `ParseSigned`,
  readers that the renderings are proved against.
- `utils.dfy`, module `TimeFormat`: `format_time` as written
  (`Decompose` for lines 7-10, `Render` for line 11, `FormatTime` for both).
  The input is an exact real. Python's float `//` and `%` with a positive
  divisor are floor division and floor remainder, and `int()` of a
  non-negative value is its floor, so the model covers negative offsets with
  the same rules. `ParseTimecode` reads a timecode back: a signed hour field of
  any width, then the fixed `:MM:SS,mmm` tail. `FormatTimeRounded` is the
  corrected millisecond computation (see Findings). It is kept separate from
  `FormatTime`.
- `subtitle_generator.dfy`, module `SubtitleGenerator`: `GenerateSubtitles`
  and `FormatSrt` are methods with the source's loops. `FormatSrt` is proved
  against `SrtDocument`: the concatenation of the cue blocks, where the block
  at position i is numbered i + 1. The document functions take the timecode
  renderer as a parameter (`Document(timecode, spans)`). The structural laws
  therefore hold for the written formatter and for the corrected one alike.

## Model

| member | source | states |
|---|---|---|
| IntFormat.Digits | src/subtitle_generator.py:24 | `str(idx + 1)`: at least one character; its properties are stated by DigitsRoundTrip, DigitsFit and BlockIndexLine |
| IntFormat.Field | src/utils.py:11 | the `{n:02}` and `{n:03}` format specs: sign, then zero-padded digits; its properties are stated by FieldRoundTrip, FieldWidth, FieldAtLeastWidth, TwoDigitField and ThreeDigitField |
| IntFormat.FieldAtLeastWidth | src/utils.py:11 | a `{n:0W}` field is never narrower than W, negative numbers included |
| IntFormat.DigitsRoundTrip | src/subtitle_generator.py:24 | the index text `str(idx + 1)` is all digits, reads back as the number, and starts with '0' only for 0 |
| IntFormat.DigitsFit | src/utils.py:11 | a number has at most k decimal digits exactly when it is below 10^k |
| IntFormat.PaddedDigits | src/utils.py:11 | the zero-padded digits of a non-negative number are all digits and read back as that number |
| IntFormat.FieldRoundTrip | src/utils.py:11 | reading a `{n:0W}` field back gives n, negative numbers included |
| IntFormat.FieldWidth | src/utils.py:11 | a `{n:0W}` field is exactly W characters while n < 10^W and is the full digit string, longer than W, from 10^W on (it widens, never truncates) |
| TimeFormat.Decompose | src/utils.py:7-10 | lines 7-10 as written on an exact real; its properties are stated by DecomposeFields |
| TimeFormat.Render | src/utils.py:11 | the f-string of line 11; its properties are stated by RenderLayout, RenderDigits and RenderRoundTrip |
| TimeFormat.FormatTime | src/utils.py:1-11 | format_time as written; its properties are stated by FormatTimeRoundTrip, FormatTimeShape, FormatTimeWholeSeconds, SameSecondSameTimecode and WrittenDropsMillis |
| TimeFormat.FloorDiv | src/utils.py:7-8 | `x // m` for a positive integer m is floor(x) divided by m |
| TimeFormat.RealMod | src/utils.py:8-9 | `x % m` for a positive integer m lies in [0, m), its whole part is floor(x) mod m and its fraction is the fraction of x |
| TimeFormat.DecomposeFields | src/utils.py:7-10 | hours is floor(t) div 3600; minutes and seconds lie in 0..59 and recombine with the hours to floor(t); milliseconds are always 0 |
| TimeFormat.RenderRoundTrip | src/utils.py:11 | parsing the rendered timecode of a clock with in-range minutes, seconds and milliseconds gives back every field |
| TimeFormat.RenderLayout | src/utils.py:11 | for an in-range clock: the hour field, ':', the minute field, ':', the second field, ',', the millisecond field, at fixed places counted from the end; the hour field is everything before the last ten characters |
| TimeFormat.RenderDigits | src/utils.py:11 | the minute, second and millisecond fields of an in-range clock are decimal digits, and so is the hour field when the hours are not negative |
| TimeFormat.FormatTimeWholeSeconds | src/utils.py:7-11 | the timecode depends only on the whole-second part of the offset |
| TimeFormat.SameSecondSameTimecode | src/utils.py:7-11 | two offsets in the same whole second give identical timecodes |
| TimeFormat.FormatTimeRoundTrip | src/utils.py:1-11 | the timecode always parses; the hours are floor(t) div 3600, minutes and seconds are in 0..59 and recombine to floor(t), and the milliseconds read 0 |
| TimeFormat.HourFieldWidth | src/utils.py:7-11 | the hour field has two characters for offsets in [0, 100 hours) and more from 100 hours on |
| TimeFormat.FormatTimeShape | src/utils.py:7-11 | the text before the last ten characters is `{t.Floor // 3600:02}`, all digits for t >= 0; then ':', two digits, ':', two digits, ',', "000"; 12 characters for 0 <= t < 360000, longer from 360000 on |
| TimeFormat.SplitSeconds | src/utils.py:7-9 | splitting a whole number of seconds into hours, minutes and seconds keeps minutes and seconds in 0..59 and recombines to the number |
| TimeFormat.TwoDigitField | src/utils.py:11 | `{n:02}` of n < 100 is its tens digit then its units digit |
| TimeFormat.ThreeDigitField | src/utils.py:11 | `{n:03}` of n < 1000 is its hundreds, tens and units digits |
| TimeFormat.WrittenUnderMinute | src/utils.py:7-11 | below one minute the timecode is "00:00:", the two digits of the whole seconds, and ",000" |
| TimeFormat.WrittenFirstSecond | src/utils.py:7-11 | every offset in [0, 1) gives "00:00:00,000" |
| TimeFormat.WrittenUnderTenSeconds | src/utils.py:7-11 | below ten seconds the timecode is "00:00:0", the single digit of the whole seconds, and ",000" |
| TimeFormat.WrittenDropsMillis | src/utils.py:9-10 | as written, 3661.5 gives "01:01:01,000": the half second is lost |
| TimeFormat.FormatTimeRounded | src/utils.py:7-11 | the corrected timecode; its properties are stated by FormatTimeRoundedRoundTrip, RoundedAgreesOnWholeSeconds, RoundedKeepsHalfSecond and RoundedKeepsLastMillis |
| TimeFormat.DecomposeRounded | src/utils.py:7-10 | corrected split: fields in range, and the total in milliseconds is within half a millisecond of t |
| TimeFormat.FormatTimeRoundedRoundTrip | src/utils.py:7-11 | the corrected timecode parses back to the millisecond nearest to t |
| TimeFormat.RoundedAgreesOnWholeSeconds | src/utils.py:7-11 | on whole seconds the corrected timecode equals the written one |
| TimeFormat.RoundedKeepsHalfSecond | src/utils.py:10 | the corrected timecode of 3661.5 is "01:01:01,500" |
| TimeFormat.RoundedKeepsLastMillis | src/utils.py:10 | the corrected timecode of 59.999 is "00:00:59,999", with no carry into the seconds |
| SubtitleGenerator.GenerateSubtitles | src/subtitle_generator.py:3-12 | the returned list holds the same spans as the transcript, in the same order |
| SubtitleGenerator.CueBlock | src/subtitle_generator.py:24 | the text one loop step appends, `"<index>\n<start> --> <end>\n<text>\n\n"`; its properties are stated by BlockIndexLine |
| SubtitleGenerator.Document | src/subtitle_generator.py:20-25 | the blocks of all spans in order, block i numbered i + 1; its properties are stated by DocumentAppend, DocumentStep, DocumentEnding, DocumentPrefix and SameTimecodesSameDocument |
| SubtitleGenerator.SrtDocument | src/subtitle_generator.py:14-25 | the document format_srt writes, with timecodes from format_time as written; FormatSrt is proved equal to it |
| SubtitleGenerator.FormatSrt | src/subtitle_generator.py:14-25 | the result is the document of all spans: block i is numbered i + 1 and holds the timecodes of span i and its text; an empty list gives "" |
| SubtitleGenerator.ConcatAppend | src/subtitle_generator.py:24 | concatenating one more part appends it at the end |
| SubtitleGenerator.DocumentAppend | src/subtitle_generator.py:21-24 | the document of s + [x] is the document of s followed by the block of x numbered \|s\| + 1 |
| SubtitleGenerator.DocumentStep | src/subtitle_generator.py:22-24 | one loop step: the accumulator for the first k spans plus the block text of span k is the document of the first k + 1 spans |
| SubtitleGenerator.DocumentEnding | src/subtitle_generator.py:24 | a document of at least one span ends with "\n\n" |
| SubtitleGenerator.BlockIndexLine | src/subtitle_generator.py:24 | a block starts with the digits of its index, which read back as the index, followed by a newline |
| SubtitleGenerator.DocumentPrefix | src/subtitle_generator.py:20-25 | the document of the first k spans is a prefix of the whole document: blocks are only appended, never reordered or rewritten |
| SubtitleGenerator.SameTimecodesSameDocument | src/subtitle_generator.py:22-24 | two renderers that agree on every offset of the spans write the same document |
| SubtitleGenerator.CorrectedAgreesOnWholeSeconds | src/subtitle_generator.py:22-23 | when every offset is a whole second, the document written with the corrected timecode equals the one format_srt writes |

## Left out

- `src/main.py`: argument parsing, listing the video directory, audio extraction, the speech-recognition model and the call that writes the file. These are I/O and calls into libraries that are not part of this model.
- `write_srt_file` (`src/subtitle_generator.py:27-34`): it only writes the string to a file, which is I/O.
- FormatTime: offsets are exact reals, not IEEE doubles. Rounding inside float `//` and `%`, and `int()` of infinity or NaN (which raises), are not modelled.
- GenerateSubtitles: the model returns a value equal to the input. It does not model that Python builds a new list object, or any aliasing.
- GenerateSubtitles, FormatSrt: a transcript element is a `Span` with a real start, a real end and a string text. Elements that do not unpack into three values (an error in Python), and texts that are not strings (formatted with `str()`), are excluded by the types.
- The text of a span is inserted verbatim. Like the source, the model does not escape newlines or blank lines inside it.

## Findings

| source | as written | input that shows it | evidently intended | confidence | as-written member | corrected member |
|---|---|---|---|---|---|---|
| src/utils.py:9-10 | line 9 rebinds `seconds` to the truncated whole seconds, so `seconds % 1` on line 10 is always 0 and the millisecond field is always "000" | 3661.5 gives "01:01:01,000" | "01:01:01,500": the fraction of the original offset in milliseconds | high; not executed | TimeFormat.WrittenDropsMillis | TimeFormat.FormatTimeRounded |

`FormatTimeRounded` rounds the offset to the nearest millisecond (halves up)
and splits that total into fields. A fraction of 999.5 ms or more therefore
carries into the seconds and never writes "1000". `DecomposeRounded`,
`FormatTimeRoundedRoundTrip`, `RoundedKeepsHalfSecond` and
`RoundedKeepsLastMillis` state its properties. `RoundedAgreesOnWholeSeconds`
and `CorrectedAgreesOnWholeSeconds` show that the correction changes nothing
for whole-second offsets.

The smallest edit to line 10 would truncate the fraction of the original
offset instead of rounding it. Rounding was chosen because the offsets
arrive as binary floats. Truncating them loses a millisecond whenever the
float lies just below the decimal value: 1.001 is stored as
1.000999999…, and truncation writes `,000` for it. Rounding writes `,001`.
The two also differ just below a whole second: 0.9996 rounds to
`00:00:01,000` and truncates to `00:00:00,999`.

An SRT timecode for 2.5 seconds is `00:00:02,500`. The code writes
`00:00:02,000`, and `FormatSrt` follows the code.
`Document(FormatTimeRounded, spans)` is the document with the corrected
timecodes.
