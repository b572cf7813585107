/**
 * The formatting layer of the frontend: the bracketed subtitle listing
 * (`format_timestamps_as_subtitles`), the SubRip document
 * (`generate_srt_content`) and the contents offered for download
 * (`get_subtitle_download_buttons`).  Each formatter is a loop over the
 * segments, proved equal to a specification function; the lemmas say what
 * those functions produce.
 */
module Subtitles {

  import opened Wrappers
  import opened Text
  import opened Timestamps
  import opened Transcription

  // ---------------------------------------------------------------------
  // Bracketed subtitle listing
  // ---------------------------------------------------------------------

  /** The listing line of one complete segment: both times as `MM:SS.mmm`,
      then two spaces and the stripped text. */
  function SubtitleLine(seg: Segment): string
    requires Complete(seg)
  {
    "[" + FormatTime(seg.start.value) + " --> " + FormatTime(seg.end.value) + "]  " + Strip(seg.text.value)
  }

  /** The listing entry of a complete segment; its position plays no part. */
  function SubtitleEntry(position: nat, seg: Segment): seq<string>
    requires Complete(seg)
  {
    [SubtitleLine(seg)]
  }

  /** One line per complete segment, in input order; incomplete segments
      contribute nothing. */
  function SubtitleListing(segs: seq<Segment>): (lines: seq<string>)
    ensures |lines| == CountComplete(segs)
  {
    RenderCompleteLength(segs, SubtitleEntry, 1);
    RenderComplete(segs, SubtitleEntry)
  }

  /** `format_timestamps_as_subtitles`. */
  method FormatTimestampsAsSubtitles(result: TranscriptionResult) returns (formattedLines: seq<string>)
    ensures formattedLines == SubtitleListing(SegmentList(result))
  {
    formattedLines := [];
    if result.segments.None? || result.segments.value == [] {
      return;
    }
    var segments := result.segments.value;
    for i := 0 to |segments|
      invariant formattedLines == SubtitleListing(segments[..i])
    {
      var segment := segments[i];
      assert segments[..i + 1][..i] == segments[..i];
      if segment.start.None? || segment.end.None? || segment.text.None? {
        continue;
      }
      var startFormatted := FormatTime(segment.start.value);
      var endFormatted := FormatTime(segment.end.value);
      var line := "[" + startFormatted + " --> " + endFormatted + "]  " + Strip(segment.text.value);
      formattedLines := formattedLines + [line];
    }
    assert segments[..|segments|] == segments;
  }

  /** The complete segment at position `j` yields the listing line at its
      rank among the complete segments. */
  lemma SubtitleListingAt(segs: seq<Segment>, j: nat)
    requires j < |segs| && Complete(segs[j])
    ensures CountComplete(segs[..j]) < |SubtitleListing(segs)|
    ensures SubtitleListing(segs)[CountComplete(segs[..j])] == SubtitleLine(segs[j])
  {
    var k := |SubtitleListing(segs[..j])|;
    RenderCompleteAt(segs, SubtitleEntry, j);
    assert SubtitleListing(segs)[k..k + 1] == [SubtitleLine(segs[j])];
  }

  /** A listing line read back: the two times and the text after the two
      spaces. */
  datatype Cue = Cue(start: nat, end: nat, text: string)

  function ParseSubtitleLine(line: string): Option<Cue>
  {
    if |line| == 0 || line[0] != '[' then None
    else
      var close := IndexOf(line, ']');
      if close + 3 > |line| || line[close..close + 3] != "]  " then None
      else
        var inner := line[1..close];
        var arrow := IndexOf(inner, ' ');
        if arrow + 5 > |inner| || inner[arrow..arrow + 5] != " --> " then None
        else
          match (ParseTime(inner[..arrow]), ParseTime(inner[arrow + 5..]))
          case (Some(a), Some(b)) => Some(Cue(a, b, line[close + 3..]))
          case _ => None
  }

  /** A timestamp contains neither a space nor a closing bracket. */
  lemma CompactLayoutChars(s: string)
    requires IsCompactLayout(s)
    ensures ' ' !in s && ']' !in s
  {
    forall k | 0 <= k < |s|
      ensures s[k] != ' ' && s[k] != ']'
    {
      if k < |s| - 7 {
        assert s[k] == s[..|s| - 7][k];
      } else if |s| - 7 < k < |s| - 4 {
        assert s[k] == s[|s| - 6..|s| - 4][k - (|s| - 6)];
      } else if |s| - 4 < k {
        assert s[k] == s[|s| - 3..][k - (|s| - 3)];
      }
    }
  }

  /** The first `]` of `[inner]  t` closes `inner` when `inner` has none. */
  lemma BracketSplit(inner: string, t: string)
    requires ']' !in inner
    ensures var line := "[" + inner + "]  " + t;
            var close := IndexOf(line, ']');
            && close == |inner| + 1 && close + 3 <= |line|
            && line[close..close + 3] == "]  " && line[1..close] == inner && line[close + 3..] == t
  {
    var line := "[" + inner + "]  " + t;
    var pre := "[" + inner;
    assert line == pre + [']'] + ("  " + t);
    IndexOfFirst(pre, ']', "  " + t);
  }

  /** The first space of `a --> b` opens the arrow when `a` has none. */
  lemma ArrowSplit(a: string, b: string)
    requires ' ' !in a
    ensures var inner := a + " --> " + b;
            var arrow := IndexOf(inner, ' ');
            && arrow == |a| && arrow + 5 <= |inner|
            && inner[arrow..arrow + 5] == " --> " && inner[..arrow] == a && inner[arrow + 5..] == b
  {
    var inner := a + " --> " + b;
    assert inner == a + [' '] + ("--> " + b);
    IndexOfFirst(a, ' ', "--> " + b);
  }

  /** Reading a line built from two timestamps free of spaces and brackets
      splits it back into those timestamps and the text. */
  lemma ParseSubtitleLineOf(a: string, b: string, t: string)
    requires ' ' !in a && ']' !in a && ']' !in b
    ensures ParseSubtitleLine("[" + a + " --> " + b + "]  " + t)
         == match (ParseTime(a), ParseTime(b))
            case (Some(x), Some(y)) => Some(Cue(x, y, t))
            case _ => None
  {
    var inner := a + " --> " + b;
    assert "[" + a + " --> " + b + "]  " + t == "[" + inner + "]  " + t;
    assert ']' !in " --> ";
    BracketSplit(inner, t);
    ArrowSplit(a, b);
  }

  /** Every listing line gives back its segment's times and stripped text. */
  lemma SubtitleLineRoundTrip(seg: Segment)
    requires Complete(seg)
    ensures ParseSubtitleLine(SubtitleLine(seg)) == Some(Cue(seg.start.value, seg.end.value, Strip(seg.text.value)))
  {
    var a, b := FormatTime(seg.start.value), FormatTime(seg.end.value);
    FormatTimeLayout(seg.start.value);
    FormatTimeLayout(seg.end.value);
    CompactLayoutChars(a);
    CompactLayoutChars(b);
    ParseSubtitleLineOf(a, b, Strip(seg.text.value));
    FormatTimeRoundTrip(seg.start.value);
    FormatTimeRoundTrip(seg.end.value);
  }

  // ---------------------------------------------------------------------
  // SubRip document
  // ---------------------------------------------------------------------

  /** The four lines of one SubRip block: the index, the time range with
      `HH:MM:SS,mmm` times, the stripped text and an empty line. */
  function SrtBlock(index: nat, seg: Segment): seq<string>
    requires Complete(seg)
  {
    [NatToString(index),
     FormatSrtTime(seg.start.value) + " --> " + FormatSrtTime(seg.end.value),
     Strip(seg.text.value),
     ""]
  }

  /** The lines `generate_srt_content` collects: a block per complete
      segment, numbered by the segment's 1-based position in the input. */
  function SrtLines(segs: seq<Segment>): (lines: seq<string>)
    ensures |lines| == 4 * CountComplete(segs)
  {
    RenderCompleteLength(segs, SrtBlock, 4);
    RenderComplete(segs, SrtBlock)
  }

  /** `generate_srt_content`. */
  method GenerateSrtContent(result: TranscriptionResult) returns (content: string)
    ensures content == Join(SrtLines(SegmentList(result)), "\n")
  {
    var srtLines: seq<string> := [];
    if result.segments.None? || result.segments.value == [] {
      return "";
    }
    var segments := result.segments.value;
    for position := 0 to |segments|
      invariant srtLines == SrtLines(segments[..position])
    {
      var i := position + 1;
      var segment := segments[position];
      assert segments[..position + 1][..position] == segments[..position];
      if segment.start.None? || segment.end.None? || segment.text.None? {
        continue;
      }
      srtLines := srtLines + [NatToString(i)];
      var startFormatted := FormatSrtTime(segment.start.value);
      var endFormatted := FormatSrtTime(segment.end.value);
      srtLines := srtLines + [startFormatted + " --> " + endFormatted];
      srtLines := srtLines + [Strip(segment.text.value)];
      srtLines := srtLines + [""];
    }
    assert segments[..|segments|] == segments;
    content := Join(srtLines, "\n");
  }

  /** The complete segment at input position `j` yields the block numbered
      `j + 1`, placed after the blocks of the complete segments before it. */
  lemma SrtLinesAt(segs: seq<Segment>, j: nat)
    requires j < |segs| && Complete(segs[j])
    ensures 4 * CountComplete(segs[..j]) + 4 <= |SrtLines(segs)|
    ensures var k := 4 * CountComplete(segs[..j]);
            SrtLines(segs)[k..k + 4] == SrtBlock(j + 1, segs[j])
  {
    assert |SrtLines(segs[..j])| == 4 * CountComplete(segs[..j]);
    RenderCompleteAt(segs, SrtBlock, j);
  }

  /** The document is empty exactly when no segment is complete. */
  lemma SrtDocumentEmpty(segs: seq<Segment>)
    ensures Join(SrtLines(segs), "\n") == "" <==> CountComplete(segs) == 0
  {
    var lines := SrtLines(segs);
    if CountComplete(segs) > 0 {
      assert |Join(lines, "\n")| >= 1;
    }
  }

  /** A non-empty document ends with the stripped text of the last complete
      segment followed by one newline: the empty fourth line of the last
      block leaves exactly that newline behind. */
  lemma SrtDocumentEnding(segs: seq<Segment>, j: nat)
    requires j < |segs| && Complete(segs[j])
    requires forall k :: j < k < |segs| ==> !Complete(segs[k])
    ensures var doc := Join(SrtLines(segs), "\n");
            var tail := Strip(segs[j].text.value) + "\n";
            |tail| <= |doc| && doc[|doc| - |tail|..] == tail
  {
    RenderCompleteIncompleteTail(segs, SrtBlock, j + 1);
    var p := segs[..j + 1];
    assert p[..j] == segs[..j] && p[|p| - 1] == segs[j];
    var block := SrtBlock(j + 1, segs[j]);
    var lines := RenderComplete(segs[..j], SrtBlock) + block;
    assert SrtLines(segs) == lines;
    assert lines[|lines| - 2] == block[2] && lines[|lines| - 1] == block[3];
    JoinEndsWithEmpty(lines, Strip(segs[j].text.value), "\n");
  }

  /** Numbering follows input positions: with an incomplete first segment,
      the only block is numbered 2. */
  lemma SrtNumberingSkipsIncomplete(a: Segment, b: Segment)
    requires !Complete(a) && Complete(b)
    ensures SrtLines([a, b])[0] == "2"
  {
    assert [a, b][..1] == [a];
    assert [a][..0] == [];
    assert RenderComplete([a], SrtBlock) == [];
    assert SrtLines([a, b]) == SrtBlock(2, b);
  }

  // ---------------------------------------------------------------------
  // Download contents
  // ---------------------------------------------------------------------

  /** What `get_subtitle_download_buttons` returns (as text, before UTF-8
      encoding): the transcript, the SubRip document or `None`, the listing
      joined by newlines or `None`, and the result that is serialised as JSON. */
  datatype DownloadContents = DownloadContents(
    transcript: string,
    srt: Option<string>,
    subtitles: Option<string>,
    json: TranscriptionResult)

  /** `get_subtitle_download_buttons`. */
  method GetSubtitleDownloadButtons(result: TranscriptionResult) returns (d: DownloadContents)
    ensures d.transcript == result.text
    ensures d.srt.None? <==> CountComplete(SegmentList(result)) == 0
    ensures d.srt.Some? ==> d.srt.value == Join(SrtLines(SegmentList(result)), "\n")
    ensures d.subtitles.None? <==> CountComplete(SegmentList(result)) == 0
    ensures d.subtitles.Some? ==> d.subtitles.value == Join(SubtitleListing(SegmentList(result)), "\n")
    ensures d.json == result
  {
    var transcript := result.text;
    var srtContent := GenerateSrtContent(result);
    SrtDocumentEmpty(SegmentList(result));
    var srt := if srtContent != "" then Some(srtContent) else None;
    var formattedLines := FormatTimestampsAsSubtitles(result);
    var subtitles := if formattedLines != [] then Some(Join(formattedLines, "\n")) else None;
    d := DownloadContents(transcript, srt, subtitles, result);
  }
}
