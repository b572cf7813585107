/**
 * The transcription result the backend returns and the frontend formats:
 * `text`, `language` and an optional list of segments (the response schema
 * of the backend).  Segments arrive as dictionaries, so each field may be
 * missing; times are non-negative millisecond counts.
 */
module Transcription {

  import opened Wrappers

  /** One entry of a segment's `words` list. */
  datatype Word = Word(word: string, start: nat, end: nat)

  /** A segment dictionary.  `Some` marks a key that is present, `None` a
      key that is absent (a key present with value `null` is not modelled).
      `otherKeys` counts the keys the formatters never read (`id`, `seek`,
      `tokens`, ...); it matters only for the dictionary's truth value. */
  datatype Segment = Segment(
    start: Option<nat>,
    end: Option<nat>,
    text: Option<string>,
    words: Option<seq<Word>>,
    otherKeys: nat)

  datatype TranscriptionResult = TranscriptionResult(
    text: string,
    language: string,
    segments: Option<seq<Segment>>)

  /** A segment carries all of `start`, `end` and `text`; only those reach
      the subtitle listing and the SubRip document. */
  predicate Complete(seg: Segment) {
    seg.start.Some? && seg.end.Some? && seg.text.Some?
  }

  /** Python's truth value of the segment dictionary: it has some key. */
  predicate Truthy(seg: Segment) {
    seg.start.Some? || seg.end.Some? || seg.text.Some? || seg.words.Some? || seg.otherKeys > 0
  }

  /** The segments the formatters iterate over: none when the key is absent,
      `None` or an empty list (`"segments" not in result or not result["segments"]`). */
  function SegmentList(r: TranscriptionResult): seq<Segment> {
    if r.segments.Some? then r.segments.value else []
  }

  /** The number of complete segments. */
  function CountComplete(segs: seq<Segment>): (n: nat)
    ensures n <= |segs|
  {
    if segs == [] then 0
    else CountComplete(segs[..|segs| - 1]) + (if Complete(segs[|segs| - 1]) then 1 else 0)
  }

  /** A complete segment at position `j` is preceded by fewer complete
      segments than there are in all: its rank is a valid position. */
  lemma {:induction false} RankBelowCount(segs: seq<Segment>, j: nat)
    requires j < |segs| && Complete(segs[j])
    ensures CountComplete(segs[..j]) < CountComplete(segs)
    decreases |segs|
  {
    var n := |segs| - 1;
    if j < n {
      assert segs[..n][..j] == segs[..j];
      RankBelowCount(segs[..n], j);
    } else {
      assert segs[..n] == segs[..j];
    }
  }

  /** Ranks of complete segments increase strictly with their position, so
      every listing indexed by rank keeps the input order. */
  lemma {:induction false} RankIncreasing(segs: seq<Segment>, i: nat, j: nat)
    requires i < j < |segs| && Complete(segs[i])
    ensures CountComplete(segs[..i]) < CountComplete(segs[..j])
  {
    assert segs[..j][..i] == segs[..i];
    RankBelowCount(segs[..j], i);
  }

  /** The concatenation, in input order, of `render(p, seg)` for every
      complete segment `seg`, where `p` is its 1-based position in `segs`;
      incomplete segments render nothing.  Both formatters have this shape. */
  function RenderComplete<T>(segs: seq<Segment>, render: (nat, Segment) --> seq<T>): seq<T>
    requires forall p: nat, seg: Segment | Complete(seg) :: render.requires(p, seg)
  {
    if segs == [] then []
    else
      var last := segs[|segs| - 1];
      RenderComplete(segs[..|segs| - 1], render) + (if Complete(last) then render(|segs|, last) else [])
  }

  /** When every rendering has `w` elements, there are `w` per complete segment. */
  lemma {:induction false} RenderCompleteLength<T>(segs: seq<Segment>, render: (nat, Segment) --> seq<T>, w: nat)
    requires forall p: nat, seg: Segment | Complete(seg) :: render.requires(p, seg)
    requires forall p: nat, seg: Segment | Complete(seg) :: |render(p, seg)| == w
    ensures |RenderComplete(segs, render)| == w * CountComplete(segs)
  {
    if segs != [] {
      var n := |segs| - 1;
      var c := CountComplete(segs[..n]);
      RenderCompleteLength(segs[..n], render, w);
      var added := if Complete(segs[n]) then render(|segs|, segs[n]) else [];
      assert RenderComplete(segs, render) == RenderComplete(segs[..n], render) + added;
      if Complete(segs[n]) {
        assert |added| == w;
        assert CountComplete(segs) == c + 1;
        MulSucc(w, c);
      } else {
        assert CountComplete(segs) == c;
      }
    }
  }

  lemma MulSucc(w: nat, c: nat)
    ensures w * (c + 1) == w * c + w
  {
  }

  /** The complete segment at position `j` renders, as `render(j + 1, segs[j])`,
      right after what the segments before it render. */
  lemma {:induction false} RenderCompleteAt<T>(segs: seq<Segment>, render: (nat, Segment) --> seq<T>, j: nat)
    requires forall p: nat, seg: Segment | Complete(seg) :: render.requires(p, seg)
    requires j < |segs| && Complete(segs[j])
    ensures var offset := |RenderComplete(segs[..j], render)|;
            var piece := render(j + 1, segs[j]);
            && offset + |piece| <= |RenderComplete(segs, render)|
            && RenderComplete(segs, render)[offset..offset + |piece|] == piece
    decreases |segs|
  {
    var n := |segs| - 1;
    var before := RenderComplete(segs[..n], render);
    var added := if Complete(segs[n]) then render(|segs|, segs[n]) else [];
    assert RenderComplete(segs, render) == before + added;
    var offset := |RenderComplete(segs[..j], render)|;
    var piece := render(j + 1, segs[j]);
    if j < n {
      assert segs[..n][..j] == segs[..j];
      RenderCompleteAt(segs[..n], render, j);
      assert (before + added)[offset..offset + |piece|] == before[offset..offset + |piece|];
    } else {
      assert segs[..n] == segs[..j];
      assert (before + added)[offset..offset + |piece|] == added;
    }
  }

  /** Incomplete segments after position `m` render nothing. */
  lemma {:induction false} RenderCompleteIncompleteTail<T>(segs: seq<Segment>, render: (nat, Segment) --> seq<T>, m: nat)
    requires forall p: nat, seg: Segment | Complete(seg) :: render.requires(p, seg)
    requires m <= |segs|
    requires forall k :: m <= k < |segs| ==> !Complete(segs[k])
    ensures RenderComplete(segs, render) == RenderComplete(segs[..m], render)
    decreases |segs|
  {
    if m < |segs| {
      var n := |segs| - 1;
      assert segs[..n][..m] == segs[..m];
      RenderCompleteIncompleteTail(segs[..n], render, m);
    } else {
      assert segs[..m] == segs;
    }
  }
}
