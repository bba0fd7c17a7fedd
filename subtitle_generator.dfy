/** generate_subtitles and format_srt (src/subtitle_generator.py): the
    transcript's (start, end, text) spans are copied, then written out as an
    SRT document with one numbered cue block per span, in the given order. */
module SubtitleGenerator {
  import opened IntFormat
  import opened TimeFormat

  /** One transcript span: start and end offsets in seconds and the text. */
  datatype Span = Span(start: real, end: real, text: string)

  /** generate_subtitles: rebuilds the list span by span, in order. */
  method GenerateSubtitles(transcript: seq<Span>) returns (subtitles: seq<Span>)
    ensures subtitles == transcript
  {
    subtitles := [];
    for idx := 0 to |transcript|
      invariant subtitles == transcript[..idx]
    {
      subtitles := subtitles + [transcript[idx]];
    }
  }

  /** The cue block for the span at 1-based position index, its offsets
      rendered by timecode: `"<index>\n<start> --> <end>\n<text>\n\n"`. */
  function CueBlock(timecode: real -> string, index: nat, s: Span): string
  {
    Digits(index) + "\n" + timecode(s.start) + " --> " + timecode(s.end) + "\n" + s.text + "\n\n"
  }

  /** Concatenation of a sequence of strings, in order. */
  function Concat(parts: seq<string>): string
  {
    if parts == [] then "" else parts[0] + Concat(parts[1..])
  }

  lemma {:induction false} ConcatAppend(parts: seq<string>, last: string)
    ensures Concat(parts + [last]) == Concat(parts) + last
    decreases |parts|
  {
    if parts == [] {
      assert [last][1..] == [];
    } else {
      assert (parts + [last])[1..] == parts[1..] + [last];
      ConcatAppend(parts[1..], last);
    }
  }

  /** One block per span, in the given order; the block at position i is
      numbered i + 1, whatever the span holds. */
  function CueBlocks(timecode: real -> string, spans: seq<Span>): seq<string>
  {
    seq(|spans|, i requires 0 <= i < |spans| => CueBlock(timecode, i + 1, spans[i]))
  }

  /** A subtitle document: the blocks of all spans, concatenated. */
  function Document(timecode: real -> string, spans: seq<Span>): string
  {
    Concat(CueBlocks(timecode, spans))
  }

  /** The document format_srt produces. */
  function SrtDocument(spans: seq<Span>): string
  {
    Document(FormatTime, spans)
  }

  /** Append law: the document of s + [x] is the document of s followed by
      the block of x numbered |s| + 1. */
  lemma DocumentAppend(timecode: real -> string, spans: seq<Span>, x: Span)
    ensures Document(timecode, spans + [x]) == Document(timecode, spans) + CueBlock(timecode, |spans| + 1, x)
  {
    assert CueBlocks(timecode, spans + [x]) == CueBlocks(timecode, spans) + [CueBlock(timecode, |spans| + 1, x)];
    ConcatAppend(CueBlocks(timecode, spans), CueBlock(timecode, |spans| + 1, x));
  }

  /** One step of the accumulator: appending the text of the block for
      spans[k] to the document of the first k spans gives the document of the
      first k + 1 spans. */
  lemma DocumentStep(timecode: real -> string, spans: seq<Span>, k: nat, acc: string, st: string, et: string)
    requires k < |spans|
    requires acc == Document(timecode, spans[..k])
    requires st == timecode(spans[k].start) && et == timecode(spans[k].end)
    ensures acc + (Digits(k + 1) + "\n" + st + " --> " + et + "\n" + spans[k].text + "\n\n")
      == Document(timecode, spans[..k + 1])
  {
    assert spans[..k + 1] == spans[..k] + [spans[k]];
    DocumentAppend(timecode, spans[..k], spans[k]);
  }

  /** format_srt: the accumulator grows by one block per span. */
  method FormatSrt(subtitles: seq<Span>) returns (srtContent: string)
    ensures srtContent == SrtDocument(subtitles)
    ensures subtitles == [] ==> srtContent == ""
  {
    srtContent := "";
    for idx := 0 to |subtitles|
      invariant srtContent == SrtDocument(subtitles[..idx])
    {
      var span := subtitles[idx];
      var startTime := FormatTime(span.start);
      var endTime := FormatTime(span.end);
      DocumentStep(FormatTime, subtitles, idx, srtContent, startTime, endTime);
      srtContent := srtContent + (Digits(idx + 1) + "\n" + startTime + " --> " + endTime + "\n" + span.text + "\n\n");
    }
    assert subtitles[..|subtitles|] == subtitles;
  }

  /** A non-empty document ends with the blank line closing its last block. */
  lemma DocumentEnding(timecode: real -> string, spans: seq<Span>)
    requires spans != []
    ensures var d := Document(timecode, spans); |d| >= 2 && d[|d| - 2..] == "\n\n"
  {
    var n := |spans| - 1;
    assert spans == spans[..n] + [spans[n]];
    DocumentAppend(timecode, spans[..n], spans[n]);
  }

  lemma {:induction false} LeadingLine(d: string, st: string, et: string, text: string)
    ensures var b := d + "\n" + st + " --> " + et + "\n" + text + "\n\n";
      |b| > |d| && b[..|d|] == d && b[|d|] == '\n'
  {
    var b := d + "\n" + st + " --> " + et + "\n" + text + "\n\n";
    assert b == d + ("\n" + st + " --> " + et + "\n" + text + "\n\n");
  }

  /** The first line of a block is its index: the digits of the number it
      was given, which read back as that number. */
  lemma BlockIndexLine(timecode: real -> string, index: nat, s: Span)
    ensures var b, d := CueBlock(timecode, index, s), Digits(index);
      && |b| > |d| && b[..|d|] == d && b[|d|] == '\n'
      && AllDigits(d) && ParseDecimal(d) == index
  {
    LeadingLine(Digits(index), timecode(s.start), timecode(s.end), s.text);
    DigitsRoundTrip(index);
  }

  /** Blocks are only ever appended: the document of the first k spans is a
      prefix of the document of all of them (no block is reordered or rewritten). */
  lemma {:induction false} DocumentPrefix(timecode: real -> string, spans: seq<Span>, k: nat)
    requires k <= |spans|
    ensures Document(timecode, spans[..k]) <= Document(timecode, spans)
    decreases |spans|
  {
    if k < |spans| {
      var n := |spans| - 1;
      assert spans == spans[..n] + [spans[n]];
      assert spans[..n][..k] == spans[..k];
      DocumentPrefix(timecode, spans[..n], k);
      DocumentAppend(timecode, spans[..n], spans[n]);
    } else {
      assert spans[..k] == spans;
    }
  }

  /** Offsets that are whole numbers of seconds. */
  predicate WholeSecondOffsets(spans: seq<Span>)
  {
    forall i :: 0 <= i < |spans| ==>
      spans[i].start == spans[i].start.Floor as real && spans[i].end == spans[i].end.Floor as real
  }

  /** Two timecode renderings that agree on every offset of the spans give
      the same document. */
  lemma SameTimecodesSameDocument(tc1: real -> string, tc2: real -> string, spans: seq<Span>)
    requires forall i :: 0 <= i < |spans| ==>
      tc1(spans[i].start) == tc2(spans[i].start) && tc1(spans[i].end) == tc2(spans[i].end)
    ensures Document(tc1, spans) == Document(tc2, spans)
  {
    assert CueBlocks(tc1, spans) == CueBlocks(tc2, spans);
  }

  /** Where every offset is a whole second, the document written with the
      corrected timecode equals the one format_srt writes. */
  lemma CorrectedAgreesOnWholeSeconds(spans: seq<Span>)
    requires WholeSecondOffsets(spans)
    ensures Document(FormatTimeRounded, spans) == SrtDocument(spans)
  {
    forall i | 0 <= i < |spans|
      ensures FormatTimeRounded(spans[i].start) == FormatTime(spans[i].start)
      ensures FormatTimeRounded(spans[i].end) == FormatTime(spans[i].end)
    {
      RoundedAgreesOnWholeSeconds(spans[i].start.Floor);
      RoundedAgreesOnWholeSeconds(spans[i].end.Floor);
    }
    SameTimecodesSameDocument(FormatTimeRounded, FormatTime, spans);
  }
}
