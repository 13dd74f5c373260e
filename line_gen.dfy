/**
 * linegen: strip every input line, keep the ones the user's filter does not
 * reject, and re-cut their concatenation into output lines of exactly linelen
 * characters, followed by whatever remains (possibly nothing).
 *
 * The filter is a Python expression evaluated with `line` bound to the
 * stripped line; here it is a predicate on that line. The output file is the
 * list of chunks, each of which is written followed by '\n'.
 */
module LineGen {
  import opened PyStrings

  /** The text linegen keeps: the stripped lines the filter does not reject, concatenated. */
  function Kept(lines: seq<string>, rejects: string -> bool): string
  {
    if |lines| == 0 then [] else Kept(lines[..|lines| - 1], rejects) + KeptOf(lines[|lines| - 1], rejects)
  }

  /** What one raw line adds: its stripped text, unless the filter rejects that stripped text. */
  function KeptOf(line: string, rejects: string -> bool): string
  {
    var stripped := Strip(line);
    if rejects(stripped) then [] else stripped
  }

  /** Every chunk has exactly width characters. */
  predicate AllWidth(chunks: seq<string>, width: int) {
    forall k :: 0 <= k < |chunks| ==> |chunks[k]| == width
  }

  /** The text of the output file: every chunk followed by a newline. */
  function OutputText(chunks: seq<string>): string
  {
    if |chunks| == 0 then [] else OutputText(chunks[..|chunks| - 1]) + chunks[|chunks| - 1] + "\n"
  }

  /** linegen's buffer loop over the (already opened) source's lines; the chunks it writes, in order. */
  method Chunks(lines: seq<string>, linelen: int, rejects: string -> bool) returns (chunks: seq<string>)
    requires linelen >= 1
    ensures |chunks| >= 1
    ensures AllWidth(chunks[..|chunks| - 1], linelen)
    ensures |chunks[|chunks| - 1]| <= linelen
    ensures Flatten(chunks) == Kept(lines, rejects)
    ensures chunks[|chunks| - 1] == [] <==> Kept(lines, rejects) == []
  {
    chunks := [];
    var buffer: string := [];
    ghost var kept: string := [];
    for i := 0 to |lines|
      invariant kept == Kept(lines[..i], rejects)
      invariant Flatten(chunks) + buffer == kept
      invariant AllWidth(chunks, linelen)
      invariant |buffer| <= linelen
      invariant |chunks| > 0 ==> |buffer| > 0
    {
      KeptStep(lines, i, rejects);
      chunks, buffer := Feed(chunks, buffer, lines[i], linelen, rejects);
      kept := kept + KeptOf(lines[i], rejects);
    }
    assert lines[..|lines|] == lines;
    LastChunk(chunks, buffer, linelen);
    chunks := chunks + [buffer];
  }

  lemma KeptStep(lines: seq<string>, i: nat, rejects: string -> bool)
    requires i < |lines|
    ensures Kept(lines[..i + 1], rejects) == Kept(lines[..i], rejects) + KeptOf(lines[i], rejects)
  {
    assert lines[..i + 1][..i] == lines[..i];
  }

  /** Writing the remainder after the loop: every chunk but the new last one is full, and the last is empty only when all are. */
  lemma LastChunk(chunks: seq<string>, buffer: string, linelen: int)
    requires AllWidth(chunks, linelen) && |buffer| <= linelen && (|chunks| > 0 ==> |buffer| > 0)
    ensures var all := chunks + [buffer];
      && AllWidth(all[..|all| - 1], linelen) && |all[|all| - 1]| <= linelen
      && Flatten(all) == Flatten(chunks) + buffer
      && (all[|all| - 1] == [] <==> Flatten(chunks) + buffer == [])
  {
    FlattenSnoc(chunks, buffer);
    assert (chunks + [buffer])[..|chunks|] == chunks;
  }

  /** One iteration of the for loop: strip the line, and unless the filter rejects it, buffer it and cut. */
  method Feed(chunks: seq<string>, buffer: string, rawLine: string, linelen: int, rejects: string -> bool)
    returns (chunks': seq<string>, buffer': string)
    requires linelen >= 1 && AllWidth(chunks, linelen) && |buffer| <= linelen
    requires |chunks| > 0 ==> |buffer| > 0
    ensures Flatten(chunks') + buffer' == Flatten(chunks) + buffer + KeptOf(rawLine, rejects)
    ensures AllWidth(chunks', linelen) && |buffer'| <= linelen
    ensures |chunks'| > 0 ==> |buffer'| > 0
  {
    var line := Strip(rawLine);
    if !rejects(line) {
      assert KeptOf(rawLine, rejects) == line;
      ConcatAssoc(Flatten(chunks), buffer, line);
      chunks', buffer' := CutFull(chunks, buffer + line, linelen);
    } else {
      chunks', buffer' := chunks, buffer;
      assert KeptOf(rawLine, rejects) == [];
      assert Flatten(chunks) + buffer + [] == Flatten(chunks) + buffer;
    }
  }

  /** The inner while loop: write linelen characters from the front of the buffer while it holds more than that. */
  method CutFull(chunks: seq<string>, buffer: string, linelen: int) returns (chunks': seq<string>, buffer': string)
    requires linelen >= 1 && AllWidth(chunks, linelen)
    requires |chunks| > 0 ==> |buffer| > 0
    ensures Flatten(chunks') + buffer' == Flatten(chunks) + buffer
    ensures AllWidth(chunks', linelen) && |buffer'| <= linelen
    ensures |chunks'| > 0 ==> |buffer'| > 0
  {
    chunks', buffer' := chunks, buffer;
    while |buffer'| > linelen
      invariant Flatten(chunks') + buffer' == Flatten(chunks) + buffer
      invariant AllWidth(chunks', linelen)
      invariant |chunks'| > 0 ==> |buffer'| > 0
      decreases |buffer'|
    {
      FlattenSnoc(chunks', buffer'[..linelen]);
      assert buffer'[..linelen] + buffer'[linelen..] == buffer';
      chunks' := chunks' + [buffer'[..linelen]];
      buffer' := buffer'[linelen..];
    }
  }

  lemma FlattenSnoc(chunks: seq<string>, c: string)
    ensures Flatten(chunks + [c]) == Flatten(chunks) + c
  {
    assert (chunks + [c])[..|chunks|] == chunks;
  }

  /** Chunks of a common width laid end to end: the text is that width times their number long. */
  lemma {:induction false} FlattenWidth(chunks: seq<string>, width: nat)
    requires AllWidth(chunks, width)
    ensures |Flatten(chunks)| == |chunks| * width
  {
    if |chunks| > 0 {
      FlattenWidth(chunks[..|chunks| - 1], width);
    }
  }

  /** Chunk k is the slice [k * linelen, k * linelen + its length) of the kept text. */
  lemma {:induction false} ChunkIsSlice(chunks: seq<string>, width: nat, k: nat)
    requires |chunks| >= 1 && AllWidth(chunks[..|chunks| - 1], width) && k < |chunks|
    ensures k * width + |chunks[k]| <= |Flatten(chunks)|
    ensures Flatten(chunks)[k * width..k * width + |chunks[k]|] == chunks[k]
  {
    var init := chunks[..|chunks| - 1];
    FlattenWidth(init, width);
    assert Flatten(chunks) == Flatten(init) + chunks[|chunks| - 1];
    if k < |chunks| - 1 {
      assert init[..|init| - 1] == chunks[..|chunks| - 2];
      ChunkIsSlice(init, width, k);
      assert init[k] == chunks[k];
    }
  }

  /** Chunks of a common width, each followed by '\n': the file text is width + 1 times their number long. */
  lemma {:induction false} OutputLength(chunks: seq<string>, width: nat)
    requires AllWidth(chunks, width)
    ensures |OutputText(chunks)| == |chunks| * (width + 1)
  {
    if |chunks| > 0 {
      OutputLength(chunks[..|chunks| - 1], width);
    }
  }

  /** The text written for the first m chunks is the start of the text written for all of them. */
  lemma {:induction false} OutputPrefix(chunks: seq<string>, m: nat)
    requires m <= |chunks|
    ensures |OutputText(chunks[..m])| <= |OutputText(chunks)|
    ensures OutputText(chunks)[..|OutputText(chunks[..m])|] == OutputText(chunks[..m])
    decreases |chunks|
  {
    if m < |chunks| {
      var init := chunks[..|chunks| - 1];
      assert init[..m] == chunks[..m];
      OutputPrefix(init, m);
    } else {
      assert chunks[..m] == chunks;
    }
  }

  /**
   * Line k of the output file: when the chunks before it are full, chunk k is
   * written at k * (linelen + 1) and followed by '\n'.
   */
  lemma OutputLine(chunks: seq<string>, width: nat, k: nat)
    requires k < |chunks| && AllWidth(chunks[..k], width)
    ensures var t, p, c := OutputText(chunks), k * (width + 1), chunks[k];
      && p + |c| < |t| && t[p..p + |c|] == c && t[p + |c|] == '\n'
  {
    var t, p, c := OutputText(chunks), k * (width + 1), chunks[k];
    var u := OutputText(chunks[..k + 1]);
    assert u == OutputText(chunks[..k]) + c + "\n" by {
      assert chunks[..k + 1][..k] == chunks[..k];
    }
    OutputLength(chunks[..k], width);
    OutputPrefix(chunks, k + 1);
    assert t[..|u|] == u;
    assert t[p..p + |c|] == u[p..p + |c|];
  }

  /**
   * The file linegen writes, read through Chunks' result: its line k is the
   * kept text from k * linelen on, up to linelen characters, and ends in '\n'.
   */
  lemma FileLine(chunks: seq<string>, linelen: nat, k: nat)
    requires |chunks| >= 1 && AllWidth(chunks[..|chunks| - 1], linelen) && k < |chunks|
    ensures var t, p, c := OutputText(chunks), k * (linelen + 1), chunks[k];
      && |c| <= |Flatten(chunks)| - k * linelen
      && p + |c| < |t|
      && t[p..p + |c|] == Flatten(chunks)[k * linelen..k * linelen + |c|]
      && t[p + |c|] == '\n'
  {
    assert AllWidth(chunks[..k], linelen) by {
      assert forall j :: 0 <= j < k ==> chunks[..k][j] == chunks[..|chunks| - 1][j];
    }
    OutputLine(chunks, linelen, k);
    ChunkIsSlice(chunks, linelen, k);
  }

  /** Input that is empty or entirely rejected gives a file holding one empty line. */
  lemma NothingKept(lines: seq<string>, rejects: string -> bool)
    requires forall i :: 0 <= i < |lines| ==> rejects(Strip(lines[i]))
    ensures Kept(lines, rejects) == []
  {
    if |lines| > 0 {
      NothingKept(lines[..|lines| - 1], rejects);
    }
  }

  /** A line the filter rejects contributes nothing; one it keeps contributes its stripped text, never its blanks. */
  lemma KeptSnoc(lines: seq<string>, line: string, rejects: string -> bool)
    ensures Kept(lines + [line], rejects) == Kept(lines, rejects) + KeptOf(line, rejects)
  {
    assert (lines + [line])[..|lines|] == lines;
  }
}
