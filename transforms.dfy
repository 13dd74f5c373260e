/**
 * The segment-data transforms of the pipeline: the reverse complement, the
 * deleter, the AT/CG word splitter (and its earlier variant without
 * upper-casing), the minimum-length word filter, and SegmentProcessor, which
 * applies one of them to every segment's data.
 */
module Transforms {
  import opened Wrappers
  import opened PyStrings
  import opened Segmenter

  // ---------------------------------------------------------------- revcomp

  /** COMPLEMENT: the four bases and the blank; any other character is missing. */
  function Complement(c: char): Option<char> {
    match c
    case 'A' => Some('T')
    case 'C' => Some('G')
    case 'G' => Some('C')
    case 'T' => Some('A')
    case ' ' => Some(' ')
    case _ => None
  }

  predicate InTable(c: char) { Complement(c).Some? }

  predicate OverTable(s: string) {
    forall i :: 0 <= i < |s| ==> InTable(s[i])
  }

  /**
   * revcomp: the complement of each character, read from the end. The lookups run
   * from the last character backwards, so a KeyError names the last character
   * that is not in the table.
   */
  function RevComp(s: string): (r: Result<string>)
    ensures r.Ok? <==> OverTable(s)
    ensures r.Ok? ==> |r.value| == |s|
    ensures r.Ok? ==> forall i :: 0 <= i < |s| ==> Complement(s[|s| - 1 - i]) == Some(r.value[i])
    ensures r.Err? ==> exists j :: 0 <= j < |s| && !InTable(s[j]) && r.error == KeyError(s[j])
                               && (forall i :: j < i < |s| ==> InTable(s[i]))
  {
    if |s| == 0 then Ok([])
    else
      var last := s[|s| - 1];
      match Complement(last)
      case None => Err(KeyError(last))
      case Some(c) =>
        match RevComp(s[..|s| - 1])
        case Ok(t) => Ok([c] + t)
        case Err(e) => Err(e)
  }

  /** On the table's characters, revcomp undoes itself. */
  lemma RevCompInvolution(s: string)
    requires OverTable(s)
    ensures RevComp(s).Ok? && RevComp(RevComp(s).value) == Ok(s)
  {
    var t := RevComp(s).value;
    RevCompInTable(s);
    ComplementedBack(s, t, RevComp(t).value);
  }

  /** Complementing a reversed complement, read from the end, gives the original. */
  lemma ComplementedBack(s: string, t: string, u: string)
    requires |t| == |s| && |u| == |t| && OverTable(s)
    requires forall i :: 0 <= i < |s| ==> Complement(s[|s| - 1 - i]) == Some(t[i])
    requires forall i :: 0 <= i < |t| ==> Complement(t[|t| - 1 - i]) == Some(u[i])
    ensures u == s
  {
    forall i | 0 <= i < |s| ensures u[i] == s[i] {
      var j := |t| - 1 - i;
      assert Complement(t[j]) == Some(u[i]);
      assert Complement(s[i]) == Some(t[j]);
      ComplementTwice(s[i]);
    }
  }

  /** revcomp stays inside the table. */
  lemma RevCompInTable(s: string)
    requires OverTable(s)
    ensures OverTable(RevComp(s).value)
  {
    var t := RevComp(s).value;
    forall i | 0 <= i < |t| ensures InTable(t[i]) {
      ComplementInTable(s[|s| - 1 - i]);
    }
  }

  lemma ComplementInTable(c: char)
    requires InTable(c)
    ensures InTable(Complement(c).value)
  {
  }

  lemma ComplementTwice(c: char)
    requires InTable(c)
    ensures Complement(Complement(c).value) == Some(c)
  {
  }

  /** The four bases: what the deleter draws its strings from. */
  predicate IsBases(s: string) {
    forall i :: 0 <= i < |s| ==> s[i] in "ACGT"
  }

  /** The reverse complement of a bases-only string is again bases only. */
  lemma RevCompBases(s: string)
    requires IsBases(s)
    ensures OverTable(s) && IsBases(RevComp(s).value)
  {
    var t := RevComp(s).value;
    forall i | 0 <= i < |t| ensures t[i] in "ACGT" {
      assert Complement(s[|s| - 1 - i]) == Some(t[i]);
    }
  }

  // ---------------------------------------------------------------- ordered replacement

  /** Apply str.replace for each (pattern, replacement) pair, in order. */
  function ReplaceEach(s: string, pairs: seq<(string, string)>): string
    decreases |pairs|
  {
    if |pairs| == 0 then s else ReplaceEach(Replace(s, pairs[0].0, pairs[0].1), pairs[1..])
  }

  /** A character absent from the input and from every replacement stays absent. */
  lemma {:induction false} ReplaceEachChars(s: string, pairs: seq<(string, string)>, c: char)
    requires c !in s
    requires forall k :: 0 <= k < |pairs| ==> |pairs[k].0| > 0 && c !in pairs[k].1
    ensures c !in ReplaceEach(s, pairs)
    decreases |pairs|
  {
    if |pairs| > 0 {
      ReplaceChars(s, pairs[0].0, pairs[0].1, c);
      ReplaceEachChars(Replace(s, pairs[0].0, pairs[0].1), pairs[1..], c);
    }
  }

  /** Replacing a one-character pattern by text without it removes that character. */
  lemma {:induction false} ReplaceRemovesChar(s: string, c: char, rep: string)
    requires c !in rep
    ensures c !in Replace(s, [c], rep)
    decreases |s|
  {
    if |s| >= 1 {
      if s[..1] == [c] {
        ReplaceMatchStep(s, [c], rep);
      } else {
        ReplaceSkipStep(s, [c], rep);
        assert s[0] != c;
      }
      ReplaceRemovesChar(s[1..], c, rep);
    }
  }

  // ---------------------------------------------------------------- the word splitter

  /** AT_CG_SPLIT, in the order its entries are applied. */
  const AT_CG_SPLIT: seq<(string, string)> :=
    [("CG", "C G"), ("GC", "G C"), ("AT", "A T"), ("TA", "T A"), ("N", "")]

  /** wordSplitterFactory(AT_CG_SPLIT): upper-case, then apply the replacements in order. */
  function WordSplitter(s: string): string {
    ReplaceEach(Upper(s), AT_CG_SPLIT)
  }

  /** The earlier splitter: the same replacements, without upper-casing. */
  function VariantSplitter(s: string): string {
    ReplaceEach(s, AT_CG_SPLIT)
  }

  /** The text with blanks and 'N's dropped: what the splitter must not change. */
  function Bases(s: string): (r: string)
    ensures |r| <= |s|
  {
    if |s| == 0 then []
    else (if s[0] == ' ' || s[0] == 'N' then [] else [s[0]]) + Bases(s[1..])
  }

  lemma {:induction false} BasesAppend(a: string, b: string)
    ensures Bases(a + b) == Bases(a) + Bases(b)
    decreases |a|
  {
    if |a| > 0 {
      assert (a + b)[1..] == a[1..] + b;
      BasesAppend(a[1..], b);
    } else {
      assert a + b == b;
    }
  }

  /** A replacement whose pattern and replacement agree on their bases keeps the bases of the text. */
  lemma {:induction false} ReplaceKeepsBases(s: string, pat: string, rep: string)
    requires |pat| > 0 && Bases(pat) == Bases(rep)
    ensures Bases(Replace(s, pat, rep)) == Bases(s)
    decreases |s|
  {
    if |s| < |pat| {
      ShortReplace(s, pat, rep);
    } else if s[..|pat|] == pat {
      ReplaceMatchStep(s, pat, rep);
      ReplaceKeepsBases(s[|pat|..], pat, rep);
      BasesAppend(rep, Replace(s[|pat|..], pat, rep));
      BasesAppend(pat, s[|pat|..]);
      assert s == pat + s[|pat|..];
    } else {
      ReplaceSkipStep(s, pat, rep);
      ReplaceKeepsBases(s[1..], pat, rep);
      BasesAppend([s[0]], Replace(s[1..], pat, rep));
      BasesAppend([s[0]], s[1..]);
      assert s == [s[0]] + s[1..];
    }
  }

  lemma {:induction false} ReplaceEachKeepsBases(s: string, pairs: seq<(string, string)>)
    requires forall k :: 0 <= k < |pairs| ==> |pairs[k].0| > 0 && Bases(pairs[k].0) == Bases(pairs[k].1)
    ensures Bases(ReplaceEach(s, pairs)) == Bases(s)
    decreases |pairs|
  {
    if |pairs| > 0 {
      ReplaceKeepsBases(s, pairs[0].0, pairs[0].1);
      ReplaceEachKeepsBases(Replace(s, pairs[0].0, pairs[0].1), pairs[1..]);
    }
  }

  lemma BasesOfBlanked(x: char, y: char)
    requires x != ' ' && x != 'N' && y != ' ' && y != 'N'
    ensures Bases([x, y]) == [x, y] == Bases([x, ' ', y])
  {
    assert [x, y][1..] == [y];
    assert [x, ' ', y][1..] == [' ', y];
    assert [' ', y][1..] == [y];
  }

  /** Every AT_CG_SPLIT entry has a non-empty pattern whose bases its replacement keeps. */
  lemma SplitPairsKeepBases()
    ensures forall k :: 0 <= k < |AT_CG_SPLIT| ==>
      |AT_CG_SPLIT[k].0| > 0 && Bases(AT_CG_SPLIT[k].0) == Bases(AT_CG_SPLIT[k].1)
  {
    BasesOfBlanked('C', 'G');
    BasesOfBlanked('G', 'C');
    BasesOfBlanked('A', 'T');
    BasesOfBlanked('T', 'A');
    assert Bases("N") == [] == Bases("");
  }

  /** The splitter only inserts blanks and drops 'N's: the bases of its output are those of the upper-cased input. */
  lemma WordSplitterKeepsBases(s: string)
    ensures Bases(WordSplitter(s)) == Bases(Upper(s))
  {
    SplitPairsKeepBases();
    ReplaceEachKeepsBases(Upper(s), AT_CG_SPLIT);
  }

  /** The splitter's output holds no 'N': the last replacement removes them all. */
  lemma WordSplitterDropsN(s: string)
    ensures 'N' !in WordSplitter(s)
  {
    ReplaceEachPrefix(Upper(s), AT_CG_SPLIT, 4);
    assert AT_CG_SPLIT[4..] == [("N", "")];
    ReplaceRemovesChar(ReplaceEach(Upper(s), AT_CG_SPLIT[..4]), 'N', "");
  }

  /** The splitter's output holds no lower-case letter. */
  lemma WordSplitterUpperCase(s: string)
    ensures forall i :: 0 <= i < |WordSplitter(s)| ==> !('a' <= WordSplitter(s)[i] <= 'z')
  {
    var out := WordSplitter(s);
    forall i | 0 <= i < |out| ensures !('a' <= out[i] <= 'z') {
      var c := out[i];
      if 'a' <= c <= 'z' {
        assert c !in Upper(s);
        assert forall k :: 0 <= k < |AT_CG_SPLIT| ==> |AT_CG_SPLIT[k].0| > 0 && c !in AT_CG_SPLIT[k].1;
        ReplaceEachChars(Upper(s), AT_CG_SPLIT, c);
      }
    }
  }

  lemma {:induction false} ReplaceEachPrefix(s: string, pairs: seq<(string, string)>, n: nat)
    requires n <= |pairs|
    ensures ReplaceEach(s, pairs) == ReplaceEach(ReplaceEach(s, pairs[..n]), pairs[n..])
    decreases n
  {
    if n > 0 {
      assert pairs[..n][1..] == pairs[1..][..n - 1];
      assert pairs[n..] == pairs[1..][n - 1..];
      ReplaceEachPrefix(Replace(s, pairs[0].0, pairs[0].1), pairs[1..], n - 1);
    } else {
      assert pairs[..0] == [] && pairs[0..] == pairs;
    }
  }

  /** A replacement step where the first character already differs from the pattern's. */
  lemma SkipFirst(s: string, pat: string, rep: string)
    requires 0 < |pat| <= |s| && s[0] != pat[0]
    ensures Replace(s, pat, rep) == [s[0]] + Replace(s[1..], pat, rep)
  {
    assert s[..|pat|][0] != pat[0];
  }

  lemma SplitCGExample()
    ensures Replace("ATCG", "CG", "C G") == "ATC G"
  {
    SkipFirst("ATCG", "CG", "C G");
    assert "ATCG"[1..] == "TCG";
    SkipFirst("TCG", "CG", "C G");
    assert "TCG"[1..] == "CG";
    ReplaceWhole("CG", "C G");
  }

  lemma SplitGCExample()
    ensures Replace("ATC G", "GC", "G C") == "ATC G"
  {
    SkipFirst("ATC G", "GC", "G C");
    assert "ATC G"[1..] == "TC G";
    SkipFirst("TC G", "GC", "G C");
    assert "TC G"[1..] == "C G";
    SkipFirst("C G", "GC", "G C");
    assert "C G"[1..] == " G";
    SkipFirst(" G", "GC", "G C");
    assert " G"[1..] == "G";
    ShortReplace("G", "GC", "G C");
  }

  lemma SplitATExample()
    ensures Replace("ATC G", "AT", "A T") == "A TC G"
  {
    assert "ATC G"[..2] == "AT" && "ATC G"[2..] == "C G";
    ReplaceMatchStep("ATC G", "AT", "A T");
    SkipFirst("C G", "AT", "A T");
    assert "C G"[1..] == " G";
    SkipFirst(" G", "AT", "A T");
    assert " G"[1..] == "G";
    ShortReplace("G", "AT", "A T");
  }

  lemma SplitTAExample()
    ensures Replace("A TC G", "TA", "T A") == "A TC G"
  {
    SkipFirst("A TC G", "TA", "T A");
    assert "A TC G"[1..] == " TC G";
    SkipFirst(" TC G", "TA", "T A");
    assert " TC G"[1..] == "TC G";
    assert "TC G"[..2] != "TA" by { assert "TC G"[..2][1] == 'C'; }
    ReplaceSkipStep("TC G", "TA", "T A");
    assert "TC G"[1..] == "C G";
    SkipFirst("C G", "TA", "T A");
    assert "C G"[1..] == " G";
    SkipFirst(" G", "TA", "T A");
    assert " G"[1..] == "G";
    ShortReplace("G", "TA", "T A");
  }

  /** Because CG is split before AT, "ATCG" becomes "A TC G" rather than "A T C G". */
  lemma SplitterOrderExample()
    ensures WordSplitter("ATCG") == "A TC G"
  {
    assert Upper("ATCG") == "ATCG";
    var pairs := AT_CG_SPLIT;
    SplitCGExample();
    SplitGCExample();
    SplitATExample();
    SplitTAExample();
    DropNExample();
    ReplaceEachPrefix("ATCG", pairs, 4);
    assert pairs[..4] == [("CG", "C G"), ("GC", "G C"), ("AT", "A T"), ("TA", "T A")];
    assert pairs[4..] == [("N", "")];
    assert ReplaceEach("A TC G", pairs[4..]) == "A TC G";
  }

  lemma DropNExample()
    ensures Replace("A TC G", "N", "") == "A TC G"
  {
    forall i | 0 <= i <= |"A TC G"| ensures !OccursAt("A TC G", "N", i) {
      if i < |"A TC G"| {
        assert "A TC G"[i..i + 1][0] == "A TC G"[i];
      }
    }
    ReplaceAbsent("A TC G", "N", "");
  }

  /** Text without upper-case letters holds none of the patterns, so the earlier splitter leaves it as it is. */
  lemma VariantPassesLowerCase(s: string)
    requires forall i :: 0 <= i < |s| ==> !('A' <= s[i] <= 'Z')
    ensures VariantSplitter(s) == s
  {
    var pairs := AT_CG_SPLIT;
    forall k | 0 <= k < |pairs| ensures !Contains(s, pairs[k].0) {
      var pat := pairs[k].0;
      assert 'A' <= pat[0] <= 'Z';
      forall i | 0 <= i <= |s| ensures !OccursAt(s, pat, i) {
        if i + |pat| <= |s| {
          assert s[i..i + |pat|][0] == s[i];
        }
      }
    }
    ReplaceEachAbsent(s, pairs);
  }

  lemma {:induction false} ReplaceEachAbsent(s: string, pairs: seq<(string, string)>)
    requires forall k :: 0 <= k < |pairs| ==> |pairs[k].0| > 0 && !Contains(s, pairs[k].0)
    ensures ReplaceEach(s, pairs) == s
    decreases |pairs|
  {
    if |pairs| > 0 {
      ReplaceAbsent(s, pairs[0].0, pairs[0].1);
      ReplaceEachAbsent(s, pairs[1..]);
    }
  }

  /** Where the two splitters differ: a lower-case 'n' is dropped by one and kept by the other. */
  lemma SplittersDifferOnLowerCase()
    ensures WordSplitter("n") == "" && VariantSplitter("n") == "n"
  {
    assert Upper("n") == "N";
    VariantPassesLowerCase("n");
    ReplaceEachAbsent("N", AT_CG_SPLIT[..4]);
    ReplaceEachPrefix("N", AT_CG_SPLIT, 4);
    ReplaceWhole("N", "");
  }

  // ---------------------------------------------------------------- the deleter

  /**
   * deleterFactory's list: each drawn string followed by its reverse complement.
   * The random draws are the input.
   */
  method MakeDeletions(drawn: seq<string>, subsequenceLength: nat) returns (dels: seq<string>)
    requires forall k :: 0 <= k < |drawn| ==> |drawn[k]| == subsequenceLength && IsBases(drawn[k])
    ensures |dels| == 2 * |drawn|
    ensures forall k :: 0 <= k < |drawn| ==> dels[2 * k] == drawn[k] && RevComp(drawn[k]) == Ok(dels[2 * k + 1])
    ensures forall k :: 0 <= k < |dels| ==> |dels[k]| == subsequenceLength && IsBases(dels[k])
  {
    dels := [];
    for i := 0 to |drawn|
      invariant |dels| == 2 * i
      invariant forall k :: 0 <= k < i ==> dels[2 * k] == drawn[k] && RevComp(drawn[k]) == Ok(dels[2 * k + 1])
      invariant forall k :: 0 <= k < |dels| ==> |dels[k]| == subsequenceLength && IsBases(dels[k])
    {
      var s := drawn[i];
      RevCompBases(s);
      dels := dels + [s] + [RevComp(s).value];
    }
  }

  /** sequenceDeleterFunction: remove every occurrence of each string, in list order. */
  function Delete(dels: seq<string>, s: string): string
    decreases |dels|
  {
    if |dels| == 0 then s else Delete(dels[1..], Replace(s, dels[0], ""))
  }

  /** Replacing by nothing only removes characters. */
  lemma {:induction false} ReplaceByNothing(s: string, pat: string)
    ensures multiset(Replace(s, pat, "")) <= multiset(s)
    decreases |s|
  {
    if |pat| == 0 {
      EmptyReplaceNothing(s);
    } else if |s| < |pat| {
      ShortReplace(s, pat, "");
    } else if s[..|pat|] == pat {
      ReplaceMatchStep(s, pat, "");
      ReplaceByNothing(s[|pat|..], pat);
      assert s == s[..|pat|] + s[|pat|..];
    } else {
      ReplaceSkipStep(s, pat, "");
      ReplaceByNothing(s[1..], pat);
      assert s == [s[0]] + s[1..];
    }
  }

  /** str.replace('', '') changes nothing. */
  lemma {:induction false} EmptyReplaceNothing(s: string)
    ensures Replace(s, "", "") == s
    decreases |s|
  {
    if |s| > 0 {
      EmptyReplaceNothing(s[1..]);
      assert s == [s[0]] + s[1..];
    }
  }

  /** The deleter only removes characters: never longer, never a character the input lacks. */
  lemma {:induction false} DeleteOnlyRemoves(dels: seq<string>, s: string)
    ensures multiset(Delete(dels, s)) <= multiset(s) && |Delete(dels, s)| <= |s|
    decreases |dels|
  {
    if |dels| > 0 {
      var once := Replace(s, dels[0], "");
      ReplaceByNothing(s, dels[0]);
      if |dels[0]| == 0 {
        EmptyReplaceNothing(s);
      }
      assert |once| <= |s|;
      DeleteOnlyRemoves(dels[1..], once);
    }
  }

  // ---------------------------------------------------------------- the word filter

  /** [word for word in words if len(word) >= minWordLen] */
  function LongWords(ws: seq<string>, minWordLen: int): (r: seq<string>)
    ensures forall k :: 0 <= k < |r| ==> |r[k]| >= minWordLen && r[k] in ws
  {
    if |ws| == 0 then []
    else (if |ws[0]| >= minWordLen then [ws[0]] else []) + LongWords(ws[1..], minWordLen)
  }

  /** wordFilterFactory(minWordLen): the long blank-separated words, joined by single blanks. */
  function WordFilter(minWordLen: int, line: string): string {
    Join(" ", LongWords(Split(line), minWordLen))
  }

  /** Reading the filtered line back gives exactly the long words, in order. */
  lemma WordFilterWords(minWordLen: int, line: string)
    ensures Split(WordFilter(minWordLen, line)) == LongWords(Split(line), minWordLen)
  {
    var ws := LongWords(Split(line), minWordLen);
    forall k | 0 <= k < |ws| ensures IsToken(ws[k]) {
      var w := ws[k];
      var j :| 0 <= j < |Split(line)| && Split(line)[j] == w;
    }
    SplitJoin(ws);
  }

  lemma {:induction false} LongWordsIdempotent(ws: seq<string>, minWordLen: int)
    ensures LongWords(LongWords(ws, minWordLen), minWordLen) == LongWords(ws, minWordLen)
    decreases |ws|
  {
    if |ws| > 0 {
      LongWordsIdempotent(ws[1..], minWordLen);
      var head := if |ws[0]| >= minWordLen then [ws[0]] else [];
      var rest := LongWords(ws[1..], minWordLen);
      LongWordsAppend(head, rest, minWordLen);
    }
  }

  lemma {:induction false} LongWordsAppend(a: seq<string>, b: seq<string>, minWordLen: int)
    ensures LongWords(a + b, minWordLen) == LongWords(a, minWordLen) + LongWords(b, minWordLen)
    decreases |a|
  {
    if |a| > 0 {
      assert (a + b)[1..] == a[1..] + b;
      LongWordsAppend(a[1..], b, minWordLen);
    } else {
      assert a + b == b;
    }
  }

  /** Filtering an already filtered line changes nothing. */
  lemma WordFilterIdempotent(minWordLen: int, line: string)
    ensures WordFilter(minWordLen, WordFilter(minWordLen, line)) == WordFilter(minWordLen, line)
  {
    WordFilterWords(minWordLen, line);
    LongWordsIdempotent(Split(line), minWordLen);
  }

  // ---------------------------------------------------------------- SegmentProcessor

  /** The data processors the pipelines plug into SegmentProcessor. */
  datatype Transform =
    | Deleter(dels: seq<string>)
    | Splitter
    | EarlySplitter
    | Filter(minWordLen: int)

  function Apply(t: Transform, s: string): string {
    match t
    case Deleter(dels) => Delete(dels, s)
    case Splitter => WordSplitter(s)
    case EarlySplitter => VariantSplitter(s)
    case Filter(n) => WordFilter(n, s)
  }

  /** SegmentProcessor.segments: one output per segment, the four offsets unchanged, the data transformed. */
  method Process(t: Transform, segs: seq<Segment>) returns (out: seq<Segment>)
    ensures |out| == |segs|
    ensures forall k :: 0 <= k < |segs| ==>
      out[k].srcStart == segs[k].srcStart && out[k].srcEnd == segs[k].srcEnd
      && out[k].fStart == segs[k].fStart && out[k].fEnd == segs[k].fEnd
      && out[k].data == Apply(t, segs[k].data)
  {
    out := [];
    for i := 0 to |segs|
      invariant |out| == i
      invariant forall k :: 0 <= k < i ==> out[k] == segs[k].(data := Apply(t, segs[k].data))
    {
      out := out + [segs[i].(data := Apply(t, segs[i].data))];
    }
  }
}
