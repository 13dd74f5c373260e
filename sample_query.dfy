/**
 * script_tools/sample_query.py: each sample record of a file (a line longer
 * than 100 characters) is split into seven fields and its data, the data is
 * searched for with a must clause, and every hit becomes one CSV row.
 *
 * The script also defines a qline parser identical to the one of
 * module QueryLine, and never calls it: the name is rebound to a string
 * before any use. The search itself is a parameter: given the URL and the
 * request body it returns the hits.
 */
module SampleQuery {
  import opened Wrappers
  import opened PyStrings
  import QueryLine

  /** The eight space-separated parts of a sample record. */
  datatype Sample = Sample(
    species: string, chromosome: string, sourceStart: string, sourceEnd: string,
    segmentStart: string, segmentEnd: string, orientation: string, data: string)

  /** One search hit, with the integer values the script converts. */
  datatype Hit = Hit(score: int, sp: string, chr: string, segloc: int, sEO: int, dSO: string, dEO: string)

  /** Sample lines are the ones longer than 100 characters. */
  predicate IsSampleLine(line: string) {
    |line| > 100
  }

  /** line.rstrip().split(' ', maxsplit=7) unpacked into eight names; fewer parts raise ValueError. */
  function ParseSample(line: string): (r: Result<Sample>)
    ensures r.Err? ==> r.error == ValueError
  {
    var fs := SplitMax(RStrip(line), ' ', 7);
    if |fs| != 8 then Err(ValueError)
    else Ok(Sample(fs[0], fs[1], fs[2], fs[3], fs[4], fs[5], fs[6], fs[7]))
  }

  /** The request body: MUST with field "data" and the sample's data, inside QUERY. */
  function SampleQueryText(data: string): string {
    var must := QueryLine.Render(QueryLine.Must("data", data));
    Replace(QueryLine.QUERY, QueryLine.QUERY_SLOT, must)
  }

  function SearchUrl(esurl: string, index: string): string {
    esurl + "/" + index + "/_search"
  }

  /** The fields of one output row, in the order they are printed. */
  function RowFields(s: Sample, h: Hit): seq<string> {
    [ s.species, s.chromosome, s.segmentStart, IntToString(h.score), h.sp, h.chr,
      IntToString(h.segloc), s.orientation, IntToString(h.sEO - h.segloc), h.dSO, h.dEO ]
  }

  /** One printed row: the fields separated by ','. */
  function Row(s: Sample, h: Hit): string {
    Join(",", RowFields(s, h))
  }

  function Rows(s: Sample, hits: seq<Hit>): (rs: seq<string>)
    ensures |rs| == |hits|
  {
    seq(|hits|, k requires 0 <= k < |hits| => Row(s, hits[k]))
  }

  /** doquery: the rows printed, line by line, until a sample record fails to unpack. */
  function DoQuery(esurl: string, index: string, lines: seq<string>, search: (string, string) -> seq<Hit>): Run
    decreases |lines|
  {
    if |lines| == 0 then Run([], None)
    else if !IsSampleLine(lines[0]) then DoQuery(esurl, index, lines[1..], search)
    else
      match ParseSample(lines[0])
      case Err(e) => Run([], Some(e))
      case Ok(s) =>
        var rows := Rows(s, search(SearchUrl(esurl, index), SampleQueryText(s.data)));
        var more := DoQuery(esurl, index, lines[1..], search);
        Run(rows + more.printed, more.error)
  }

  // ---------------------------------------------------------------- lemmas

  /** Splitting at most n times a line of n separator-free fields and a last part gives them back; the last part keeps its separators. */
  lemma {:induction false} SplitMaxJoin(fs: seq<string>, last: string, c: char)
    requires forall k :: 0 <= k < |fs| ==> c !in fs[k]
    ensures SplitMax(Join([c], fs + [last]), c, |fs|) == fs + [last]
    decreases |fs|
  {
    var ws := fs + [last];
    var s := Join([c], ws);
    if |fs| > 0 {
      var rest := Join([c], fs[1..] + [last]);
      assert ws[1..] == fs[1..] + [last];
      assert s == fs[0] + [c] + rest;
      MissingCharNotContained(fs[0], [c], c);
      FindContains(fs[0], [c]);
      FindCharAt(fs[0], c, rest);
      assert s[..|fs[0]|] == fs[0] && s[|fs[0]| + 1..] == rest;
      SplitMaxJoin(fs[1..], last, c);
    }
  }

  /** rstrip() removes trailing blanks and stops at the last non-blank. */
  lemma {:induction false} RStripTrailing(s: string, ending: string)
    requires |s| > 0 && !IsSpace(s[|s| - 1]) && AllSpace(ending)
    ensures RStrip(s + ending) == s
    decreases |ending|
  {
    if |ending| == 0 {
      assert s + ending == s;
    } else {
      var t := s + ending;
      assert t[|t| - 1] == ending[|ending| - 1];
      assert t[..|t| - 1] == s + ending[..|ending| - 1];
      RStripTrailing(s, ending[..|ending| - 1]);
    }
  }

  /**
   * A sample record written as seven space-free fields and a data part, with
   * trailing blanks (the newline), unpacks to those parts; the data keeps its
   * embedded spaces.
   */
  lemma SampleRoundTrip(fields: seq<string>, data: string, ending: string)
    requires |fields| == 7 && forall k :: 0 <= k < 7 ==> ' ' !in fields[k]
    requires |data| > 0 && !IsSpace(data[|data| - 1]) && AllSpace(ending)
    ensures ParseSample(Join(" ", fields + [data]) + ending)
         == Ok(Sample(fields[0], fields[1], fields[2], fields[3], fields[4], fields[5], fields[6], data))
  {
    var line := Join(" ", fields + [data]);
    JoinSnoc(" ", fields, data);
    assert line[|line| - 1] == data[|data| - 1];
    RStripTrailing(line, ending);
    SplitMaxJoin(fields, data, ' ');
  }

  /** Each cut consumes one separator, so the parts number at most one more than the separators. */
  lemma {:induction false} SplitMaxCount(s: string, c: char, maxsplit: nat)
    ensures |SplitMax(s, c, maxsplit)| <= multiset(s)[c] + 1
    decreases maxsplit
  {
    var i := Find(s, [c]);
    if maxsplit > 0 && i >= 0 {
      assert s[i..i + 1] == [c];
      assert s == s[..i] + [c] + s[i + 1..];
      assert multiset(s) == multiset(s[..i]) + multiset{c} + multiset(s[i + 1..]);
      SplitMaxCount(s[i + 1..], c, maxsplit - 1);
    }
  }

  /** A sample line with fewer than seven spaces before its trailing blanks cannot be unpacked: ValueError. */
  lemma FewSpaces(line: string)
    requires multiset(RStrip(line))[' '] < 7
    ensures ParseSample(line) == Err(ValueError)
  {
    SplitMaxCount(RStrip(line), ' ', 7);
  }

  /** The request is the query template holding the must clause on "data" with the sample's data. */
  lemma SampleQueryShape(data: string)
    ensures SampleQueryText(data) ==
      Join("\"", QueryLine.QUERY_PIECES[12 := QueryLine.Braced(Join("\"", QueryLine.MUST_PIECES[5 := "data"][7 := data]))])
  {
    MissingCharNotContained("data", QueryLine.VALUE_SLOT, 'V');
    QueryLine.RenderMatchClause(QueryLine.Must("data", data));
    QueryLine.QueryBody(QueryLine.Render(QueryLine.Must("data", data)));
  }

  /** str(i) holds no comma. */
  lemma NumberCommaFree(i: int)
    ensures ',' !in IntToString(i)
  {
    var s := IntToString(i);
    forall k | 0 <= k < |s| ensures s[k] != ',' {
      if k > 0 { assert IsDigit(s[k]); }
    }
  }

  /**
   * Split on ',', a row gives back its eleven fields when the text values hold
   * no comma: in particular the segment size sEO - segloc at index 8.
   */
  lemma RowReadBack(s: Sample, h: Hit)
    requires ',' !in s.species && ',' !in s.chromosome && ',' !in s.segmentStart && ',' !in s.orientation
    requires ',' !in h.sp && ',' !in h.chr && ',' !in h.dSO && ',' !in h.dEO
    ensures var fs := SplitStr(Row(s, h), ",");
      && |fs| == 11
      && fs[0] == s.species && fs[1] == s.chromosome && fs[2] == s.segmentStart
      && fs[3] == IntToString(h.score) && fs[6] == IntToString(h.segloc) && fs[7] == s.orientation
      && fs[8] == IntToString(h.sEO - h.segloc) && fs[9] == h.dSO && fs[10] == h.dEO
  {
    NumberCommaFree(h.score);
    NumberCommaFree(h.segloc);
    NumberCommaFree(h.sEO - h.segloc);
    SplitJoinChar(RowFields(s, h), ',');
  }

  /** Lines of at most 100 characters print nothing and raise nothing. */
  lemma {:induction false} ShortLinesIgnored(esurl: string, index: string, lines: seq<string>, search: (string, string) -> seq<Hit>)
    requires forall k :: 0 <= k < |lines| ==> !IsSampleLine(lines[k])
    ensures DoQuery(esurl, index, lines, search) == Run([], None)
    decreases |lines|
  {
    if |lines| > 0 {
      ShortLinesIgnored(esurl, index, lines[1..], search);
    }
  }

  /** The script stops with ValueError exactly when some sample line cannot be unpacked. */
  lemma {:induction false} DoQueryError(esurl: string, index: string, lines: seq<string>, search: (string, string) -> seq<Hit>)
    ensures var r := DoQuery(esurl, index, lines, search);
      && (r.error.Some? <==> exists k :: 0 <= k < |lines| && IsSampleLine(lines[k]) && ParseSample(lines[k]).Err?)
      && (r.error.Some? ==> r.error.value == ValueError)
    decreases |lines|
  {
    if |lines| > 0 {
      DoQueryError(esurl, index, lines[1..], search);
      if exists k :: 0 <= k < |lines| - 1 && IsSampleLine(lines[1..][k]) && ParseSample(lines[1..][k]).Err? {
        var k :| 0 <= k < |lines| - 1 && IsSampleLine(lines[1..][k]) && ParseSample(lines[1..][k]).Err?;
        assert lines[k + 1] == lines[1..][k];
      }
      if exists k :: 1 <= k < |lines| && IsSampleLine(lines[k]) && ParseSample(lines[k]).Err? {
        var k :| 1 <= k < |lines| && IsSampleLine(lines[k]) && ParseSample(lines[k]).Err?;
        assert lines[1..][k - 1] == lines[k];
      }
    }
  }
}
