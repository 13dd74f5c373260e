/**
 * SegmentGenerator.segments: the accepted line texts are cut into segments of a
 * fixed size. Each segment carries a raw source span (line-granular where a cut
 * falls mid-line) and a span in the filtered text.
 */
module Segmenter {
  import opened PyStrings
  import opened SourceStream

  /** (dataSourceStartOffset, dataSourceEndOffset, filteredSequenceStartOffset, filteredSequenceEndOffset, segmentData) */
  datatype Segment = Segment(srcStart: int, srcEnd: int, fStart: int, fEnd: int, data: string)

  /** The segment texts, concatenated. */
  function Data(segs: seq<Segment>): string
  {
    if |segs| == 0 then [] else Data(segs[..|segs| - 1]) + segs[|segs| - 1].data
  }

  lemma DataSnoc(segs: seq<Segment>, s: Segment)
    ensures Data(segs + [s]) == Data(segs) + s.data
  {
    assert (segs + [s])[..|segs|] == segs;
  }

  lemma CutData(d: string, buf: string, size: int)
    requires 0 <= size <= |buf|
    ensures (d + buf[..size]) + buf[size..] == d + buf
  {
    assert buf[..size] + buf[size..] == buf;
  }

  lemma TextSnoc(ps: seq<Piece>, i: int)
    requires 0 <= i < |ps|
    ensures Text(ps[..i + 1]) == Text(ps[..i]) + ps[i].text
  {
    assert ps[..i + 1][..i] == ps[..i];
  }

  /**
   * The raw end reported for a cut at filtered offset pos: the piece j whose text
   * holds that offset, and its raw end less the accepted text after the offset.
   */
  predicate CutEnd(ps: seq<Piece>, pos: int, e: int) {
    exists j {:trigger ps[j]} :: 0 <= j < |ps| && |Text(ps[..j])| <= pos < |Text(ps[..j])| + |ps[j].text|
      && e == ps[j].end - (|Text(ps[..j])| + |ps[j].text| - pos)
  }

  lemma CutIn(ps: seq<Piece>, j: int, pos: int, e: int)
    requires 0 <= j < |ps| && |Text(ps[..j])| <= pos < |Text(ps[..j])| + |ps[j].text|
    requires e == ps[j].end - (|Text(ps[..j])| + |ps[j].text| - pos)
    ensures CutEnd(ps, pos, e)
  {
  }

  /** Every segment so far is a full one. */
  predicate Full(segs: seq<Segment>, size: int) {
    forall k :: 0 <= k < |segs| ==> |segs[k].data| == size
  }

  /** The filtered spans tile the filtered text from offset 0, each as long as its data. */
  predicate Tiled(segs: seq<Segment>) {
    && (|segs| > 0 ==> segs[0].fStart == 0)
    && (forall k :: 0 <= k < |segs| ==> segs[k].fEnd == segs[k].fStart + |segs[k].data|)
    && (forall k :: 0 <= k < |segs| - 1 ==> segs[k + 1].fStart == segs[k].fEnd)
  }

  /** Each segment's raw span starts where the previous one's ended. */
  predicate Chained(segs: seq<Segment>) {
    forall k :: 0 <= k < |segs| - 1 ==> segs[k + 1].srcStart == segs[k].srcEnd
  }

  /** Every full segment ends at the raw position of the cut at its filtered end. */
  predicate Cuts(ps: seq<Piece>, segs: seq<Segment>) {
    forall k :: 0 <= k < |segs| ==> CutEnd(ps, segs[k].fEnd, segs[k].srcEnd)
  }

  /** Every segment's raw span is at least as long as its filtered span. */
  predicate Covering(segs: seq<Segment>) {
    forall k :: 0 <= k < |segs| ==> segs[k].srcEnd - segs[k].srcStart >= |segs[k].data|
  }

  /** One more segment, cut from the buffer, keeps the segment list's shape. */
  lemma AppendCut(ps: seq<Piece>, segs: seq<Segment>, s: Segment, size: int)
    requires Full(segs, size) && Tiled(segs) && Chained(segs) && Cuts(ps, segs)
    requires |s.data| == size && s.fEnd == s.fStart + size && CutEnd(ps, s.fEnd, s.srcEnd)
    requires s.fStart == if |segs| == 0 then 0 else segs[|segs| - 1].fEnd
    requires |segs| > 0 ==> s.srcStart == segs[|segs| - 1].srcEnd
    ensures Full(segs + [s], size) && Tiled(segs + [s]) && Chained(segs + [s]) && Cuts(ps, segs + [s])
  {
    AppendFull(segs, s, size);
    AppendCuts(ps, segs, s);
    AppendLast(segs, s);
  }

  lemma AppendFull(segs: seq<Segment>, s: Segment, size: int)
    requires Full(segs, size) && |s.data| == size
    ensures Full(segs + [s], size)
  {
    var t := segs + [s];
    forall k | 0 <= k < |t| ensures |t[k].data| == size {
      if k < |segs| {
        assert t[k] == segs[k];
      }
    }
  }

  lemma AppendCuts(ps: seq<Piece>, segs: seq<Segment>, s: Segment)
    requires Cuts(ps, segs) && CutEnd(ps, s.fEnd, s.srcEnd)
    ensures Cuts(ps, segs + [s])
  {
    var t := segs + [s];
    forall k | 0 <= k < |t| ensures CutEnd(ps, t[k].fEnd, t[k].srcEnd) {
      if k < |segs| {
        assert t[k] == segs[k];
      }
    }
  }

  /** The last segment keeps the shape of the list too, except that it may be short. */
  lemma AppendLast(segs: seq<Segment>, s: Segment)
    requires Tiled(segs) && Chained(segs)
    requires s.fEnd == s.fStart + |s.data|
    requires s.fStart == if |segs| == 0 then 0 else segs[|segs| - 1].fEnd
    requires |segs| > 0 ==> s.srcStart == segs[|segs| - 1].srcEnd
    ensures Tiled(segs + [s]) && Chained(segs + [s]) && (segs + [s])[..|segs|] == segs
  {
  }

  lemma AppendCovering(segs: seq<Segment>, s: Segment)
    requires Covering(segs) && s.srcEnd - s.srcStart >= |s.data|
    ensures Covering(segs + [s])
  {
  }

  /**
   * The generator's state after the first n pieces: the segments yielded so far
   * and the buffer hold the accepted text in order, the filtered offset counts
   * what was yielded, and the raw span of the buffer starts where the last
   * yielded segment ended.
   */
  predicate Emitted(ps: seq<Piece>, n: int, size: int, segs: seq<Segment>, buf: string,
                    segStart: int, segEnd: int, filteredStart: int)
    requires 0 <= n <= |ps|
  {
    && Data(segs) + buf == Text(ps[..n])
    && filteredStart == |Data(segs)|
    && filteredStart == (if |segs| == 0 then 0 else segs[|segs| - 1].fEnd)
    && Full(segs, size) && Tiled(segs) && Chained(segs) && Cuts(ps, segs)
    && (buf == [] ==> segs == [])
    && (|segs| > 0 ==> segStart == segs[|segs| - 1].srcEnd)
    && (WellFormed(ps) ==> segEnd - segStart >= |buf| && Covering(segs))
    && (WellFormed(ps) && n > 0 ==>
          buf != [] && (if |segs| > 0 then segs[0].srcStart else segStart) == ps[0].start)
  }

  /** SegmentGenerator.segments over the pieces the line filter yielded. */
  method Segments(ps: seq<Piece>, size: int) returns (segs: seq<Segment>)
    requires size >= 1
    ensures |segs| >= 1
    ensures Full(segs[..|segs| - 1], size) && Tiled(segs)
    ensures var last := segs[|segs| - 1];
      |last.data| <= size && (|Text(ps)| > 0 ==> |last.data| >= 1)
    ensures Data(segs) == Text(ps)
    ensures ps == [] ==> segs == [Segment(0, 0, 0, 0, "")]
    ensures Chained(segs)
    ensures Cuts(ps, segs[..|segs| - 1])
    ensures |ps| > 0 ==> segs[|segs| - 1].srcEnd == ps[|ps| - 1].end
    ensures WellFormed(ps) && |ps| > 0 ==> segs[0].srcStart == ps[0].start
    ensures WellFormed(ps) ==> Covering(segs)
  {
    segs := [];
    var filteredStart := 0;
    var segStart, segEnd := 0, 0;
    var buf := "";
    for i := 0 to |ps|
      invariant Emitted(ps, i, size, segs, buf, segStart, segEnd, filteredStart)
      invariant |buf| <= size
      invariant i == 0 ==> segStart == 0 && segEnd == 0
      invariant i > 0 ==> segEnd == ps[i - 1].end
    {
      var p := ps[i];
      if buf == "" {
        FeedFirst(ps, i, size, segs, buf, segStart, segEnd, filteredStart);
        segStart := p.start;
        buf := p.text;
        segEnd := p.end;
      } else {
        FeedNext(ps, i, size, segs, buf, segStart, segEnd, filteredStart);
        buf := buf + p.text;
        segEnd := p.end;
      }
      segs, buf, segStart, filteredStart := CutFull(ps, i + 1, size, segs, buf, segStart, segEnd, filteredStart);
    }
    var s := Segment(segStart, segEnd, filteredStart, filteredStart + |buf|, buf);
    FinishText(ps, size, segs, s);
    FinishRaw(ps, size, segs, s);
    segs := segs + [s];
    assert |segs[|segs| - 1].data| <= size;
    assert |ps| > 0 ==> segs[|segs| - 1].srcEnd == ps[|ps| - 1].end;
  }

  /** The buffer left after the last piece becomes the last segment: the texts and filtered spans. */
  lemma FinishText(ps: seq<Piece>, size: int, segs: seq<Segment>, s: Segment)
    requires size >= 1 && |s.data| <= size
    requires Emitted(ps, |ps|, size, segs, s.data, s.srcStart, s.srcEnd, s.fStart)
    requires s.fEnd == s.fStart + |s.data|
    requires |ps| == 0 ==> s.srcStart == 0 && s.srcEnd == 0
    ensures var r := segs + [s];
      && Full(r[..|r| - 1], size) && Tiled(r) && Data(r) == Text(ps)
      && |r[|r| - 1].data| <= size && (|Text(ps)| > 0 ==> |r[|r| - 1].data| >= 1)
      && (ps == [] ==> r == [Segment(0, 0, 0, 0, "")])
  {
    assert ps[..|ps|] == ps;
    DataSnoc(segs, s);
    AppendLast(segs, s);
  }

  /** The last segment's raw span: it follows the previous one and ends with the last piece. */
  lemma FinishRaw(ps: seq<Piece>, size: int, segs: seq<Segment>, s: Segment)
    requires size >= 1 && |s.data| <= size
    requires Emitted(ps, |ps|, size, segs, s.data, s.srcStart, s.srcEnd, s.fStart)
    requires s.fEnd == s.fStart + |s.data|
    requires |ps| == 0 ==> s.srcStart == 0 && s.srcEnd == 0
    requires |ps| > 0 ==> s.srcEnd == ps[|ps| - 1].end
    ensures var r := segs + [s];
      && Chained(r) && Cuts(ps, r[..|r| - 1])
      && (|ps| > 0 ==> r[|r| - 1].srcEnd == ps[|ps| - 1].end)
      && (WellFormed(ps) && |ps| > 0 ==> r[0].srcStart == ps[0].start)
      && (WellFormed(ps) ==> Covering(r))
  {
    AppendLast(segs, s);
    if WellFormed(ps) {
      AppendCovering(segs, s);
    }
  }

  /** The inner loop of SegmentGenerator.segments: yield full segments while the buffer holds more than size characters. */
  method CutFull(ps: seq<Piece>, n: int, size: int, segs0: seq<Segment>, buf0: string,
                 segStart0: int, segEnd: int, filteredStart0: int)
    returns (segs: seq<Segment>, buf: string, segStart: int, filteredStart: int)
    requires 1 <= n <= |ps| && size >= 1 && segEnd == ps[n - 1].end
    requires Emitted(ps, n, size, segs0, buf0, segStart0, segEnd, filteredStart0)
    requires |Text(ps[..n - 1])| <= filteredStart0 + size
    ensures Emitted(ps, n, size, segs, buf, segStart, segEnd, filteredStart)
    ensures |buf| <= size
  {
    segs, buf, segStart, filteredStart := segs0, buf0, segStart0, filteredStart0;
    while |buf| > size
      invariant Emitted(ps, n, size, segs, buf, segStart, segEnd, filteredStart)
      invariant |Text(ps[..n - 1])| <= filteredStart + size
      decreases |buf|
    {
      CutStep(ps, n, size, segs, buf, segStart, segEnd, filteredStart);
      var s := Segment(segStart, segEnd - (|buf| - size), filteredStart, filteredStart + size, buf[..size]);
      segs := segs + [s];
      segStart := segEnd - (|buf| - size);
      buf := buf[size..];
      filteredStart := filteredStart + size;
    }
  }

  /** The generator's first step on piece i with an empty buffer: the buffer becomes the piece's text and its raw span. */
  lemma FeedFirst(ps: seq<Piece>, i: int, size: int, segs: seq<Segment>, buf: string,
                  segStart: int, segEnd: int, filteredStart: int)
    requires 0 <= i < |ps| && size >= 1 && buf == ""
    requires Emitted(ps, i, size, segs, buf, segStart, segEnd, filteredStart)
    ensures Emitted(ps, i + 1, size, segs, ps[i].text, ps[i].start, ps[i].end, filteredStart)
    ensures |Text(ps[..i])| <= filteredStart + size
  {
    TextSnoc(ps, i);
  }

  /** The generator's step on piece i with a non-empty buffer: the piece's text is appended and the raw span extended. */
  lemma FeedNext(ps: seq<Piece>, i: int, size: int, segs: seq<Segment>, buf: string,
                 segStart: int, segEnd: int, filteredStart: int)
    requires 0 <= i < |ps| && buf != "" && |buf| <= size
    requires Emitted(ps, i, size, segs, buf, segStart, segEnd, filteredStart)
    requires i > 0 ==> segEnd == ps[i - 1].end
    ensures Emitted(ps, i + 1, size, segs, buf + ps[i].text, segStart, ps[i].end, filteredStart)
    ensures |Text(ps[..i])| <= filteredStart + size
  {
    TextSnoc(ps, i);
    assert Data(segs) + (buf + ps[i].text) == (Data(segs) + buf) + ps[i].text;
  }

  /** One turn of the inner loop: a full segment is cut from the buffer's front. */
  lemma CutStep(ps: seq<Piece>, n: int, size: int, segs: seq<Segment>, buf: string,
                segStart: int, segEnd: int, filteredStart: int)
    requires 1 <= n <= |ps| && size >= 1 && segEnd == ps[n - 1].end && |buf| > size
    requires Emitted(ps, n, size, segs, buf, segStart, segEnd, filteredStart)
    requires |Text(ps[..n - 1])| <= filteredStart + size
    ensures var s := Segment(segStart, segEnd - (|buf| - size), filteredStart, filteredStart + size, buf[..size]);
      Emitted(ps, n, size, segs + [s], buf[size..], segEnd - (|buf| - size), segEnd, filteredStart + size)
    ensures |Text(ps[..n - 1])| <= filteredStart + size + size
  {
    var s := Segment(segStart, segEnd - (|buf| - size), filteredStart, filteredStart + size, buf[..size]);
    TextSnoc(ps, n - 1);
    assert ps[..n - 1 + 1] == ps[..n];
    CutIn(ps, n - 1, filteredStart + size, s.srcEnd);
    AppendCut(ps, segs, s, size);
    DataSnoc(segs, s);
    CutData(Data(segs), buf, size);
    if WellFormed(ps) {
      AppendCovering(segs, s);
    }
  }

  /** Segment k's filtered span starts at k * size: all segments before it are full. */
  lemma {:induction false} SegmentStart(segs: seq<Segment>, size: int, k: int)
    requires 0 <= k < |segs| && Tiled(segs) && Full(segs[..|segs| - 1], size)
    ensures segs[k].fStart == k * size
    decreases k
  {
    if k > 0 {
      SegmentStart(segs, size, k - 1);
      assert segs[..|segs| - 1][k - 1] == segs[k - 1];
    }
  }

  /** The filtered spans tile the filtered text: the last one ends at its total length. */
  lemma {:induction false} TiledEnd(segs: seq<Segment>)
    requires |segs| > 0 && Tiled(segs)
    ensures segs[|segs| - 1].fEnd == |Data(segs)|
  {
    var prefix := segs[..|segs| - 1];
    if |prefix| > 0 {
      assert Tiled(prefix);
      TiledEnd(prefix);
    }
  }

  /**
   * The segments of an accepted text: every full segment is the slice
   * [k * size, (k + 1) * size) of the filtered text and the last one is its tail.
   */
  lemma SegmentsSliceText(ps: seq<Piece>, segs: seq<Segment>, size: int, k: int)
    requires |segs| >= 1 && Tiled(segs) && Full(segs[..|segs| - 1], size) && Data(segs) == Text(ps)
    requires 0 <= k < |segs|
    ensures segs[k].fStart == k * size && segs[k].fEnd <= |Text(ps)|
    ensures Text(ps)[segs[k].fStart..segs[k].fEnd] == segs[k].data
  {
    SegmentStart(segs, size, k);
    DataSlice(segs, k);
  }

  /** Each segment's data sits at its filtered span inside the concatenated data. */
  lemma {:induction false} DataSlice(segs: seq<Segment>, k: int)
    requires Tiled(segs) && 0 <= k < |segs|
    ensures 0 <= segs[k].fStart <= segs[k].fEnd <= |Data(segs)|
    ensures Data(segs)[segs[k].fStart..segs[k].fEnd] == segs[k].data
  {
    var n := |segs|;
    var prefix := segs[..n - 1];
    assert Data(segs) == Data(prefix) + segs[n - 1].data;
    TiledEnd(segs);
    if n > 1 {
      assert Tiled(prefix);
      TiledEnd(prefix);
      assert segs[n - 1].fStart == |Data(prefix)|;
    }
    if k < n - 1 {
      DataSlice(prefix, k);
      assert prefix[k] == segs[k];
      assert Data(segs)[segs[k].fStart..segs[k].fEnd] == Data(prefix)[segs[k].fStart..segs[k].fEnd];
    }
  }
}
