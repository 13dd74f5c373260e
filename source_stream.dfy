/**
 * The line filter of the segmentation pipeline (DataSourceFilter): raw lines in,
 * (raw start, raw end, stripped text) out for each accepted line, with a raw
 * offset that advances by the full length of every line, accepted or not.
 */
module SourceStream {
  import opened PyStrings

  /** One accepted line: the raw offset of the line, end = start + length of the stripped text, and the stripped text. */
  datatype Piece = Piece(start: int, end: int, text: string)

  /** The default header marker: lines starting with it are FASTA headers. */
  const HEADER_MARK: string := ">"

  /** excludeLinesStartingWith(mark): a line is accepted when it is not blank and does not start with mark. */
  predicate Accept(mark: string, line: string) {
    |Strip(line)| > 0 && !StartsWith(line, mark)
  }

  /** With the default marker: accepted exactly when some character is not blank and the first is not '>'. */
  lemma AcceptDefault(line: string)
    ensures Accept(HEADER_MARK, line) <==> !AllSpace(line) && line[0] != '>'
  {
    StripEmptyIffBlank(line);
  }

  /** Total raw length of the lines: the raw offset after reading them. */
  function RawLength(lines: seq<string>): (n: nat)
  {
    if |lines| == 0 then 0 else RawLength(lines[..|lines| - 1]) + |lines[|lines| - 1]|
  }

  /** What DataSourceFilter.sequences yields for these lines, read from the start of the source. */
  function Filtered(mark: string, lines: seq<string>): seq<Piece>
  {
    if |lines| == 0 then []
    else
      var prefix, line := lines[..|lines| - 1], lines[|lines| - 1];
      var offset := RawLength(prefix);
      Filtered(mark, prefix)
        + if Accept(mark, line) then [Piece(offset, offset + |Strip(line)|, Strip(line))] else []
  }

  /** DataSourceFilter.sequences over the lines of the (already opened) source. */
  method Sequences(mark: string, lines: seq<string>) returns (pieces: seq<Piece>)
    ensures pieces == Filtered(mark, lines)
  {
    pieces := [];
    var dataOffset := 0;
    for i := 0 to |lines|
      invariant pieces == Filtered(mark, lines[..i])
      invariant dataOffset == RawLength(lines[..i])
    {
      var line := lines[i];
      assert lines[..i + 1][..i] == lines[..i] && lines[..i + 1][i] == line;
      if Accept(mark, line) {
        var stripped := Strip(line);
        pieces := pieces + [Piece(dataOffset, dataOffset + |stripped|, stripped)];
      } else {
        assert Filtered(mark, lines[..i + 1]) == pieces by {
          assert Filtered(mark, lines[..i + 1]) == pieces + [];
        }
      }
      dataOffset := dataOffset + |line|;
    }
    assert lines[..|lines|] == lines;
  }

  /** The stream shape the segmenter relies on: spans as long as their non-empty texts, in order, not overlapping. */
  predicate WellFormed(ps: seq<Piece>) {
    && (forall k :: 0 <= k < |ps| ==> 0 <= ps[k].start && ps[k].end - ps[k].start == |ps[k].text| > 0)
    && (forall k :: 0 <= k < |ps| - 1 ==> ps[k].end <= ps[k + 1].start)
  }

  /** The filtered sequence: the accepted texts, concatenated. */
  function Text(ps: seq<Piece>): string
  {
    if |ps| == 0 then [] else Text(ps[..|ps| - 1]) + ps[|ps| - 1].text
  }

  /** Reference definition: the stripped accepted lines, in file order. */
  function AcceptedLines(mark: string, lines: seq<string>): seq<string>
  {
    if |lines| == 0 then []
    else
      var prefix, line := lines[..|lines| - 1], lines[|lines| - 1];
      AcceptedLines(mark, prefix) + if Accept(mark, line) then [Strip(line)] else []
  }

  /** The filter yields one piece per accepted line, carrying exactly its stripped text, in file order. */
  lemma {:induction false} FilteredTexts(mark: string, lines: seq<string>)
    ensures var ps := Filtered(mark, lines);
      && |ps| == |AcceptedLines(mark, lines)|
      && (forall k :: 0 <= k < |ps| ==> ps[k].text == AcceptedLines(mark, lines)[k])
  {
    if |lines| > 0 {
      var prefix, line := lines[..|lines| - 1], lines[|lines| - 1];
      FilteredTexts(mark, prefix);
      var ps0, as0 := Filtered(mark, prefix), AcceptedLines(mark, prefix);
      if Accept(mark, line) {
        var p := Piece(RawLength(prefix), RawLength(prefix) + |Strip(line)|, Strip(line));
        TextsExtend(ps0, as0, p, Strip(line));
      } else {
        assert Filtered(mark, lines) == ps0 + [];
        assert AcceptedLines(mark, lines) == as0 + [];
      }
    }
  }

  lemma TextsExtend(ps: seq<Piece>, ws: seq<string>, p: Piece, w: string)
    requires |ps| == |ws| && forall k :: 0 <= k < |ps| ==> ps[k].text == ws[k]
    requires p.text == w
    ensures |ps + [p]| == |ws + [w]| && forall k :: 0 <= k < |ps| + 1 ==> (ps + [p])[k].text == (ws + [w])[k]
  {
  }

  /** Well formed, starts strictly increasing, every piece ending by bound. */
  predicate Shaped(ps: seq<Piece>, bound: int) {
    && WellFormed(ps)
    && (forall j, k :: 0 <= j < k < |ps| ==> ps[j].start < ps[k].start)
    && (forall k :: 0 <= k < |ps| ==> ps[k].end <= bound)
  }

  lemma ShapedExtend(ps: seq<Piece>, bound: int, p: Piece, bound': int)
    requires Shaped(ps, bound) && 0 <= bound <= p.start
    requires p.end - p.start == |p.text| > 0 && p.end <= bound'
    ensures Shaped(ps + [p], bound')
  {
    assert forall k :: 0 <= k < |ps| ==> ps[k].start < ps[k].end;
  }

  /** The pieces are well formed, their starts strictly increase, and they end within the source. */
  lemma {:induction false} FilteredShape(mark: string, lines: seq<string>)
    ensures Shaped(Filtered(mark, lines), RawLength(lines))
  {
    if |lines| > 0 {
      FilteredShape(mark, lines[..|lines| - 1]);
      if Accept(mark, lines[|lines| - 1]) {
        ShapeAccepted(mark, lines);
      } else {
        ShapeRejected(mark, lines);
      }
    }
  }

  /** FilteredShape's step for an accepted last line: its piece starts at the old offset and ends within the line. */
  lemma ShapeAccepted(mark: string, lines: seq<string>)
    requires |lines| > 0 && Accept(mark, lines[|lines| - 1])
    requires Shaped(Filtered(mark, lines[..|lines| - 1]), RawLength(lines[..|lines| - 1]))
    ensures Shaped(Filtered(mark, lines), RawLength(lines))
  {
    var prefix, line := lines[..|lines| - 1], lines[|lines| - 1];
    var offset := RawLength(prefix);
    var text := Strip(line);
    StripShorter(line);
    assert Filtered(mark, lines) == Filtered(mark, prefix) + [Piece(offset, offset + |text|, text)];
    ShapedExtend(Filtered(mark, prefix), offset, Piece(offset, offset + |text|, text), offset + |line|);
  }

  /** FilteredShape's step for a rejected last line: only the offset moves. */
  lemma ShapeRejected(mark: string, lines: seq<string>)
    requires |lines| > 0 && !Accept(mark, lines[|lines| - 1])
    requires Shaped(Filtered(mark, lines[..|lines| - 1]), RawLength(lines[..|lines| - 1]))
    ensures Shaped(Filtered(mark, lines), RawLength(lines))
  {
    var prefix := lines[..|lines| - 1];
    assert Filtered(mark, lines) == Filtered(mark, prefix) by {
      assert Filtered(mark, lines) == Filtered(mark, prefix) + [];
    }
    ShapedWeaken(Filtered(mark, prefix), RawLength(prefix), RawLength(lines));
  }

  lemma ShapedWeaken(ps: seq<Piece>, bound: int, bound': int)
    requires Shaped(ps, bound) && bound <= bound'
    ensures Shaped(ps, bound')
  {
  }

  /** Every raw line moves the offset by its full length, whether or not it was accepted. */
  lemma RawLengthAppend(lines: seq<string>, line: string)
    ensures RawLength(lines + [line]) == RawLength(lines) + |line|
  {
    assert (lines + [line])[..|lines|] == lines;
  }

  // ---------------------------------------------------------------- gzip detection

  /** open_datasource: the source is read through gzip when its last '.'-separated part is "gz". */
  predicate IsGzipPath(path: string) {
    var parts := SplitStr(path, ".");
    parts[|parts| - 1] == "gz"
  }

  /** The last '.'-separated part is whatever follows the last '.' (the whole name when there is none). */
  lemma LastPart(path: string)
    ensures var parts, j := SplitStr(path, "."), LastIndexOf(path, '.');
      parts[|parts| - 1] == path[j + 1..]
  {
    var j := LastIndexOf(path, '.');
    if j < 0 {
      SplitCharAbsent(path, '.');
    } else {
      LastPartFound(path, j);
    }
  }

  lemma LastPartFound(path: string, j: int)
    requires 0 <= j < |path| && path[j] == '.'
    requires forall i :: j < i < |path| ==> path[i] != '.'
    ensures var parts := SplitStr(path, "."); parts[|parts| - 1] == path[j + 1..]
  {
    var a, b := path[..j], path[j + 1..];
    assert '.' !in b by {
      forall i | 0 <= i < |b| ensures b[i] != '.' {
        assert b[i] == path[j + 1 + i];
      }
    }
    LastPartAt(a, b);
    assert path == a + ['.'] + b;
  }

  lemma LastPartAt(a: string, b: string)
    requires '.' !in b
    ensures var parts := SplitStr(a + ['.'] + b, "."); parts[|parts| - 1] == b
  {
    SplitCharAt(a, '.', b);
    SplitCharAbsent(b, '.');
    var pa := SplitStr(a, ".");
    assert SplitStr(a + ['.'] + b, ".") == pa + [b];
  }

  /** The split-based test is a suffix test, with one edge case: the bare name "gz". */
  lemma GzipIffSuffix(path: string)
    ensures IsGzipPath(path) <==> path == "gz" || EndsWith(path, ".gz")
  {
    LastPart(path);
    var j := LastIndexOf(path, '.');
    assert IsGzipPath(path) <==> path[j + 1..] == "gz";
    LastDotGz(path, j);
  }

  lemma LastDotGz(path: string, j: int)
    requires -1 <= j < |path| && (j >= 0 ==> path[j] == '.')
    requires forall i :: j < i < |path| ==> path[i] != '.'
    ensures path[j + 1..] == "gz" <==> path == "gz" || EndsWith(path, ".gz")
  {
    if EndsWith(path, ".gz") {
      SuffixGz(path, j);
    }
    if path[j + 1..] == "gz" && j >= 0 {
      GzSuffix(path, j);
    }
    if path == "gz" {
      assert path[0] == 'g' && path[1] == 'z';
      assert j == -1;
    }
    if j == -1 {
      assert path[j + 1..] == path;
    }
  }

  lemma SuffixGz(path: string, j: int)
    requires -1 <= j < |path| && (j >= 0 ==> path[j] == '.')
    requires forall i :: j < i < |path| ==> path[i] != '.'
    requires EndsWith(path, ".gz")
    ensures path[j + 1..] == "gz"
  {
    var n := |path|;
    assert path[n - 3..][0] == path[n - 3] == '.';
    assert path[n - 3..][1] == path[n - 2] == 'g';
    assert path[n - 3..][2] == path[n - 1] == 'z';
    assert j == n - 3;
  }

  lemma GzSuffix(path: string, j: int)
    requires 0 <= j < |path| && path[j] == '.' && path[j + 1..] == "gz"
    ensures EndsWith(path, ".gz")
  {
    assert path[|path| - 3..] == [path[j]] + path[j + 1..];
  }
}
