/**
 * esgen: turn a file of sequence lines into an Elasticsearch bulk-load file.
 *
 * The processing configuration is three lines of a tiny language: the first is
 * compiled by recode into a chain of str.replace calls on `line`, the second is
 * used as it is, the third is compiled by token_recode into a list filter.
 * Every input line then gives a CREATE line and a DATA line of the bulk file;
 * the DATA line carries the processed text, the chromosome, the species and the
 * location: how many stripped characters came before this line.
 *
 * The three configuration lines are Python expressions that esgen evaluates;
 * here the evaluated expressions are the functions linemod, splitmod and
 * listmod of a Config.
 */
module Esgen {
  import opened Wrappers
  import opened PyStrings
  import Transforms

  // ---------------------------------------------------------------- recode

  /** One replace call of the generated expression: pattern and replacement. */
  type Edit = (string, string)

  /** f"replace('{pat}', '{rep}')" */
  function Render(e: Edit): string {
    "replace('" + e.0 + "', '" + e.1 + "')"
  }

  function RenderAll(es: seq<Edit>): (r: seq<string>)
    ensures |r| == |es|
  {
    seq(|es|, k requires 0 <= k < |es| => Render(es[k]))
  }

  /** A SPLIT item x becomes replace('x', 'x[0] x[1]'); x[0] or x[1] missing raises IndexError. */
  function SplitEdit(x: string): Result<Edit> {
    if |x| < 2 then Err(IndexError) else Ok((x, [x[0]] + " " + [x[1]]))
  }

  /** The edits of SPLIT's items, in order; the first item too short to split raises. */
  function SplitEdits(xs: seq<string>): Result<seq<Edit>>
  {
    if |xs| == 0 then Ok([])
    else match SplitEdit(xs[0])
      case Err(e) => Err(e)
      case Ok(d) => PrependEdits([d], SplitEdits(xs[1..]))
  }

  /** A REMOVE item x becomes replace('x', ''). */
  function RemoveEdits(xs: seq<string>): (r: seq<Edit>)
    ensures |r| == |xs|
  {
    seq(|xs|, k requires 0 <= k < |xs| => (xs[k], ""))
  }

  function PrependEdits(es: seq<Edit>, r: Result<seq<Edit>>): Result<seq<Edit>> {
    match r
    case Ok(rest) => Ok(es + rest)
    case Err(e) => Err(e)
  }

  /** Put edits already made in front of what the rest compiles to; an unknown keyword (None) or an error wins. */
  function Prepend(es: seq<Edit>, r: Result<Option<seq<Edit>>>): Result<Option<seq<Edit>>> {
    match r
    case Ok(Some(rest)) => Ok(Some(es + rest))
    case _ => r
  }

  /**
   * recode's while loop on the tokens: keyword/argument pairs in order, SPLIT
   * and REMOVE taking the argument's comma-separated items; an unknown keyword
   * gives None (recode then returns its input), and a trailing odd token is not
   * read.
   */
  function Compile(data: seq<string>): Result<Option<seq<Edit>>>
    decreases |data|
  {
    if |data| < 2 then Ok(Some([]))
    else if data[0] == "SPLIT" then
      match SplitEdits(SplitStr(data[1], ","))
      case Err(e) => Err(e)
      case Ok(es) => Prepend(es, Compile(data[2..]))
    else if data[0] == "REMOVE" then Prepend(RemoveEdits(SplitStr(data[1], ",")), Compile(data[2..]))
    else Ok(None)
  }

  /** recode(codeline): "line." + the replace calls joined by '.', or the line itself after an unknown keyword. */
  function Recoded(codeline: string): Result<string> {
    match Compile(Split(codeline))
    case Err(e) => Err(e)
    case Ok(None) => Ok(codeline)
    case Ok(Some(es)) => Ok("line." + Join(".", RenderAll(es)))
  }

  /** recode, as the source writes it: a while loop over the tokens appending to code_segment. */
  method Recode(codeline: string) returns (r: Result<string>)
    ensures r == Recoded(codeline)
  {
    var data := Split(codeline);
    var codeSegment: seq<string> := [];
    ghost var done: seq<Edit> := [];
    PrependEmpty(Compile(data));
    while |data| >= 2
      invariant Compile(Split(codeline)) == Prepend(done, Compile(data))
      invariant codeSegment == RenderAll(done)
      decreases |data|
    {
      var items := SplitStr(data[1], ",");
      if data[0] == "SPLIT" {
        CompileSplitStep(data);
        var seg := AppendSplit(codeSegment, items);
        if seg.Err? {
          SplitEditsItems(items);
          return Err(seg.error);
        }
        ghost var es := SplitEdits(items).value;
        RenderAllAppend(done, es);
        PrependTwice(done, es, Compile(data[2..]));
        codeSegment, done := seg.value, done + es;
      } else if data[0] == "REMOVE" {
        CompileRemoveStep(data);
        ghost var es := RemoveEdits(items);
        codeSegment := AppendRemove(codeSegment, items);
        RenderAllAppend(done, es);
        PrependTwice(done, es, Compile(data[2..]));
        done := done + es;
      } else {
        return Ok(codeline);
      }
      data := data[2..];
    }
    assert done + [] == done;
    return Ok("line." + Join(".", codeSegment));
  }

  /** recode's SPLIT branch: one replace call appended per item, or IndexError at the first item shorter than two characters. */
  method AppendSplit(codeSegment: seq<string>, items: seq<string>) returns (r: Result<seq<string>>)
    ensures SplitEdits(items).Err? ==> r == Err(IndexError)
    ensures SplitEdits(items).Ok? ==> r == Ok(codeSegment + RenderAll(SplitEdits(items).value))
  {
    var seg := codeSegment;
    ghost var es: seq<Edit> := [];
    assert items[0..] == items;
    PrependNothing(SplitEdits(items));
    for j := 0 to |items|
      invariant SplitEdits(items) == PrependEdits(es, SplitEdits(items[j..]))
      invariant seg == codeSegment + RenderAll(es)
    {
      var x := items[j];
      assert items[j..][1..] == items[j + 1..];
      if |x| < 2 {
        assert SplitEdits(items[j..]) == Err(IndexError);
        return Err(IndexError);
      }
      var d: Edit := (x, [x[0]] + " " + [x[1]]);
      seg := seg + [Render(d)];
      PrependEditsTwice(es, [d], SplitEdits(items[j + 1..]));
      RenderAllSnoc(es, d);
      es := es + [d];
    }
    assert items[|items|..] == [];
    assert es + [] == es;
    return Ok(seg);
  }

  /** recode's REMOVE branch: one replace call with an empty replacement appended per item. */
  method AppendRemove(codeSegment: seq<string>, items: seq<string>) returns (seg: seq<string>)
    ensures seg == codeSegment + RenderAll(RemoveEdits(items))
  {
    seg := codeSegment;
    ghost var es := RemoveEdits(items);
    for j := 0 to |items|
      invariant seg == codeSegment + RenderAll(es[..j])
    {
      var x := items[j];
      seg := seg + [Render((x, ""))];
      assert es[..j + 1] == es[..j] + [(x, "")];
      RenderAllSnoc(es[..j], (x, ""));
    }
    assert es[..|items|] == es;
  }

  lemma RenderAllAppend(a: seq<Edit>, b: seq<Edit>)
    ensures RenderAll(a + b) == RenderAll(a) + RenderAll(b)
  {
  }

  lemma CompileSplitStep(data: seq<string>)
    requires |data| >= 2 && data[0] == "SPLIT"
    ensures var r := SplitEdits(SplitStr(data[1], ","));
      && (r.Err? ==> Compile(data) == Err(r.error))
      && (r.Ok? ==> Compile(data) == Prepend(r.value, Compile(data[2..])))
  {
  }

  lemma CompileRemoveStep(data: seq<string>)
    requires |data| >= 2 && data[0] != "SPLIT" && data[0] == "REMOVE"
    ensures Compile(data) == Prepend(RemoveEdits(SplitStr(data[1], ",")), Compile(data[2..]))
  {
  }

  lemma RenderAllSnoc(es: seq<Edit>, e: Edit)
    ensures RenderAll(es + [e]) == RenderAll(es) + [Render(e)]
  {
  }

  // Helpers for the proofs of Recode, AppendSplit and AppendRemove: prepending
  // edits to a result is associative and has [] as unit.

  lemma PrependNothing(r: Result<seq<Edit>>)
    ensures PrependEdits([], r) == r
  {
    if r.Ok? {
      assert [] + r.value == r.value;
    }
  }

  lemma PrependEmpty(r: Result<Option<seq<Edit>>>)
    ensures Prepend([], r) == r
  {
    if r.Ok? && r.value.Some? {
      assert [] + r.value.value == r.value.value;
    }
  }

  lemma PrependEditsTwice(a: seq<Edit>, b: seq<Edit>, r: Result<seq<Edit>>)
    ensures PrependEdits(a, PrependEdits(b, r)) == PrependEdits(a + b, r)
  {
    if r.Ok? {
      assert a + (b + r.value) == (a + b) + r.value;
    }
  }

  lemma PrependTwice(a: seq<Edit>, b: seq<Edit>, r: Result<Option<seq<Edit>>>)
    ensures Prepend(a, Prepend(b, r)) == Prepend(a + b, r)
  {
    if r.Ok? && r.value.Some? {
      assert a + (b + r.value.value) == (a + b) + r.value.value;
    }
  }

  /** SPLIT succeeds exactly when every item has two characters, and then item k gives edit k. */
  lemma {:induction false} SplitEditsItems(xs: seq<string>)
    ensures SplitEdits(xs).Ok? <==> forall k :: 0 <= k < |xs| ==> |xs[k]| >= 2
    ensures SplitEdits(xs).Err? ==> SplitEdits(xs).error == IndexError
    ensures SplitEdits(xs).Ok? ==>
      var es := SplitEdits(xs).value;
      && |es| == |xs|
      && forall k :: 0 <= k < |xs| ==> es[k] == (xs[k], [xs[k][0], ' ', xs[k][1]])
    decreases |xs|
  {
    if |xs| > 0 {
      var rest := SplitEdits(xs[1..]);
      SplitEditsItems(xs[1..]);
      assert forall k :: 1 <= k < |xs| ==> xs[1..][k - 1] == xs[k];
      if |xs[0]| >= 2 && rest.Ok? {
        var d := (xs[0], [xs[0][0], ' ', xs[0][1]]);
        assert [xs[0][0]] + " " + [xs[0][1]] == d.1;
        assert SplitEdits(xs).value == [d] + rest.value;
      }
    }
  }

  /** A keyword other than SPLIT and REMOVE in first position: recode gives the line back unchanged. */
  lemma UnknownKeyword(codeline: string)
    requires |Split(codeline)| >= 2 && Split(codeline)[0] != "SPLIT" && Split(codeline)[0] != "REMOVE"
    ensures Recoded(codeline) == Ok(codeline)
  {
  }

  /** A token left over after the last pair is never read. */
  lemma {:induction false} OddTokenIgnored(data: seq<string>, t: string)
    requires |data| % 2 == 0
    ensures Compile(data + [t]) == Compile(data)
    decreases |data|
  {
    if |data| >= 2 {
      assert (data + [t])[2..] == data[2..] + [t];
      OddTokenIgnored(data[2..], t);
    }
  }

  /** After an unknown keyword nothing later matters, not even a SPLIT item that would raise. */
  lemma UnknownStops(data: seq<string>, rest: seq<string>)
    requires |data| >= 2 && data[0] != "SPLIT" && data[0] != "REMOVE"
    ensures Compile(data + rest) == Ok(None)
  {
  }

  /**
   * "SPLIT xs REMOVE ys" with comma-free items: the SPLIT edits, then one removal
   * per REMOVE item, provided every SPLIT item has two characters.
   */
  lemma SplitRemoveConfig(xs: seq<string>, ys: seq<string>)
    requires |xs| >= 1 && |ys| >= 1
    requires forall k :: 0 <= k < |xs| ==> ',' !in xs[k] && |xs[k]| >= 2
    requires forall k :: 0 <= k < |ys| ==> ',' !in ys[k]
    ensures SplitEdits(xs).Ok?
    ensures Compile(["SPLIT", Join(",", xs), "REMOVE", Join(",", ys)]) == Ok(Some(SplitEdits(xs).value + RemoveEdits(ys)))
  {
    var data := ["SPLIT", Join(",", xs), "REMOVE", Join(",", ys)];
    var rest := data[2..];
    assert rest == ["REMOVE", Join(",", ys)] && rest[2..] == [];
    SplitJoinChar(xs, ',');
    SplitJoinChar(ys, ',');
    SplitEditsItems(xs);
    CompileSplitStep(data);
    CompileRemoveStep(rest);
    assert Compile(rest) == Ok(Some(RemoveEdits(ys) + []));
    assert RemoveEdits(ys) + [] == RemoveEdits(ys);
  }

  /** The word splitter's table is what "SPLIT CG,GC,AT,TA REMOVE N" compiles to. */
  lemma SplitterConfig()
    ensures Compile(["SPLIT", Join(",", ["CG", "GC", "AT", "TA"]), "REMOVE", Join(",", ["N"])])
         == Ok(Some(Transforms.AT_CG_SPLIT))
  {
    var xs := ["CG", "GC", "AT", "TA"];
    assert forall k :: 0 <= k < |xs| ==> ',' !in xs[k] && |xs[k]| >= 2;
    SplitRemoveConfig(xs, ["N"]);
    SplitEditsItems(xs);
    var es := SplitEdits(xs).value;
    assert es[0] == ("CG", "C G") && es[1] == ("GC", "G C") && es[2] == ("AT", "A T") && es[3] == ("TA", "T A");
    assert RemoveEdits(["N"]) == [("N", "")];
    assert es + [("N", "")] == Transforms.AT_CG_SPLIT;
  }

  // ---------------------------------------------------------------- token_recode

  const TOKENS_PREFIX: string := "[val for val in data if len(val) "

  /** token_recode: "TOKENS <op>" becomes a list filter on token length; any other first word leaves the line as it is. */
  function TokenRecode(codeline: string): (r: Result<string>)
  {
    var data := Split(codeline);
    if |data| == 0 then Err(IndexError)
    else if data[0] == "TOKENS" then
      if |data| < 2 then Err(IndexError) else Ok(TOKENS_PREFIX + data[1] + "]")
    else Ok(codeline)
  }

  /**
   * The filter's operator can be read back from the generated text, between the
   * fixed prefix and the closing bracket; an empty line or a TOKENS without an
   * operator raises IndexError, and any other line comes back as it is.
   */
  lemma TokenRecodeOperator(codeline: string)
    ensures var data, r := Split(codeline), TokenRecode(codeline);
      && (r.Err? <==> |data| == 0 || (data[0] == "TOKENS" && |data| == 1))
      && (r.Err? ==> r.error == IndexError)
      && (r.Ok? && data[0] == "TOKENS" ==>
            StartsWith(r.value, TOKENS_PREFIX) && EndsWith(r.value, "]")
            && r.value[|TOKENS_PREFIX|..|r.value| - 1] == data[1])
      && (r.Ok? && data[0] != "TOKENS" ==> r.value == codeline)
  {
    var data := Split(codeline);
    if |data| >= 2 && data[0] == "TOKENS" {
      var v := TOKENS_PREFIX + data[1] + "]";
      assert v[..|TOKENS_PREFIX|] == TOKENS_PREFIX;
      assert v[|TOKENS_PREFIX|..|v| - 1] == data[1];
    }
  }

  // ---------------------------------------------------------------- the bulk records

  const CREATE_LINE: string := "{ \"create\": { \"_index\": \"__INDEX__\", \"_id\": \"__ID__\" }}"

  const ID_SLOT: string := "__ID__"
  const DATA_SLOT: string := "__DATA__"
  const LOCATION_SLOT: string := "__LOCATION__"
  const CHROMOSOME_SLOT: string := "__CHROMOSOME__"
  const SPECIES_SLOT: string := "__SPECIES__"

  /** The command-line options and the three evaluated configuration lines. */
  datatype Config = Config(
    index: string, idprefix: string, chromosome: string, species: string,
    linemod: string -> string,         // eval(recode(code[0])) with `line` bound
    splitmod: string -> seq<string>,   // eval(code[1]) with `line` bound
    listmod: seq<string> -> seq<string>) // eval(token_recode(code[2])) with `data` bound

  /** id = idprefix + "_" + str(n) */
  function RecordId(idprefix: string, n: int): string {
    idprefix + "_" + IntToString(n)
  }

  function CreateLine(index: string, id: string): string {
    Replace(Replace(CREATE_LINE, "__INDEX__", index), ID_SLOT, id)
  }

  /** The placeholders are replaced in this order: id, data, location, chromosome, species. */
  function DataLine(id: string, data: string, location: string, chromosome: string, species: string): string {
    Fill(DATA_LINE, id, data, location, chromosome, species)
  }

  /** The five replace calls of the DATA line, in order: id, data, location, chromosome, species. */
  function Fill(s: string, id: string, data: string, location: string, chromosome: string, species: string): string {
    Replace(Replace(Replace(Replace(Replace(s, ID_SLOT, id), DATA_SLOT, data),
      LOCATION_SLOT, location), CHROMOSOME_SLOT, chromosome), SPECIES_SLOT, species)
  }

  /** The processed text of one stripped input line: the three configured steps. */
  function Processed(stripped: string, cfg: Config): string {
    Join(" ", cfg.listmod(cfg.splitmod(cfg.linemod(stripped))))
  }

  /** The input lines after line.strip(). */
  function StripAll(lines: seq<string>): (r: seq<string>)
    ensures |r| == |lines|
  {
    seq(|lines|, i requires 0 <= i < |lines| => Strip(lines[i]))
  }

  /** How many characters the stripped lines hold: the location of the record after them. */
  function Location(stripped: seq<string>): nat {
    if |stripped| == 0 then 0 else Location(stripped[..|stripped| - 1]) + |stripped[|stripped| - 1]|
  }

  /** What one line of the bulk file says, before it is rendered from its template. */
  datatype BulkRecord =
    | CreateRecord(index: string, id: string)
    | DataRecord(id: string, data: string, location: string, chromosome: string, species: string)

  /** The text written for a record (followed in the file by "\r\n"). */
  function Text(b: BulkRecord): string {
    match b
    case CreateRecord(index, id) => CreateLine(index, id)
    case DataRecord(id, data, location, chromosome, species) => DataLine(id, data, location, chromosome, species)
  }

  function Texts(bs: seq<BulkRecord>): (r: seq<string>)
    ensures |r| == |bs|
  {
    MapSeq(Text, bs)
  }

  function MapSeq<A, B>(f: A -> B, xs: seq<A>): (r: seq<B>)
    ensures |r| == |xs|
  {
    seq(|xs|, k requires 0 <= k < |xs| => f(xs[k]))
  }

  lemma MapSeqAppend<A, B>(f: A -> B, a: seq<A>, b: seq<A>)
    ensures MapSeq(f, a + b) == MapSeq(f, a) + MapSeq(f, b)
  {
  }

  /** The bulk file's records: a CREATE and a DATA record per stripped input line. */
  function BulkRecords(stripped: seq<string>, cfg: Config): seq<BulkRecord> {
    if |stripped| == 0 then []
    else
      var before := stripped[..|stripped| - 1];
      var id := RecordId(cfg.idprefix, |stripped|);
      BulkRecords(before, cfg)
      + [ CreateRecord(cfg.index, id),
          DataRecord(id, Processed(stripped[|stripped| - 1], cfg), IntToString(Location(before)), cfg.chromosome, cfg.species) ]
  }

  /** The processed-lines file: each processed text followed by a newline. */
  function ProcessedLines(stripped: seq<string>, cfg: Config): seq<string> {
    if |stripped| == 0 then []
    else ProcessedLines(stripped[..|stripped| - 1], cfg) + [Processed(stripped[|stripped| - 1], cfg) + "\n"]
  }

  /** esgen's loop over the input lines, with its n and location counters. */
  method Generate(lines: seq<string>, cfg: Config) returns (bulk: seq<string>, processed: seq<string>)
    ensures bulk == Texts(BulkRecords(StripAll(lines), cfg)) && processed == ProcessedLines(StripAll(lines), cfg)
  {
    ghost var stripped := StripAll(lines);
    var n := 0;
    var location := 0;
    bulk, processed := [], [];
    for i := 0 to |lines|
      invariant n == i && location == Location(stripped[..i])
      invariant bulk == Texts(BulkRecords(stripped[..i], cfg)) && processed == ProcessedLines(stripped[..i], cfg)
    {
      assert stripped[i] == Strip(lines[i]);
      var create, dataLine, line;
      create, dataLine, line, location := EmitRecord(lines[i], n, location, cfg);
      n := n + 1;
      BulkTextsStep(stripped, i, cfg, create, dataLine);
      processed := processed + [line + "\n"];
      bulk := bulk + [create, dataLine];
    }
    assert stripped[..|lines|] == stripped;
  }

  /**
   * The body of esgen's loop for one input line, given the record count and the
   * location so far: the CREATE line, the DATA line, the processed text and the
   * next location.
   */
  method EmitRecord(rawLine: string, n: int, location: int, cfg: Config)
    returns (create: string, dataLine: string, line: string, nextLocation: int)
    ensures nextLocation == location + |Strip(rawLine)|
    ensures line == Processed(Strip(rawLine), cfg)
    ensures create == Text(CreateRecord(cfg.index, RecordId(cfg.idprefix, n + 1)))
    ensures dataLine == Text(DataRecord(RecordId(cfg.idprefix, n + 1), line, IntToString(location), cfg.chromosome, cfg.species))
  {
    line := Strip(rawLine);
    var lineLocation := IntToString(location);
    nextLocation := location + |line|;
    var id := cfg.idprefix + "_" + IntToString(n + 1);
    create := CreateLine(cfg.index, id);
    line := Join(" ", cfg.listmod(cfg.splitmod(cfg.linemod(line))));
    dataLine := DataLine(id, line, lineLocation, cfg.chromosome, cfg.species);
  }

  /** One more stripped line adds its CREATE and DATA texts to the bulk file, its processed text to the other file. */
  lemma BulkTextsStep(stripped: seq<string>, i: nat, cfg: Config, create: string, dataLine: string)
    requires i < |stripped|
    requires create == Text(CreateRecord(cfg.index, RecordId(cfg.idprefix, i + 1)))
    requires dataLine == Text(DataRecord(RecordId(cfg.idprefix, i + 1), Processed(stripped[i], cfg),
                                         IntToString(Location(stripped[..i])), cfg.chromosome, cfg.species))
    ensures Texts(BulkRecords(stripped[..i + 1], cfg)) == Texts(BulkRecords(stripped[..i], cfg)) + [create, dataLine]
    ensures ProcessedLines(stripped[..i + 1], cfg) == ProcessedLines(stripped[..i], cfg) + [Processed(stripped[i], cfg) + "\n"]
    ensures Location(stripped[..i + 1]) == Location(stripped[..i]) + |stripped[i]|
  {
    BulkStep(stripped, i, cfg);
    var id := RecordId(cfg.idprefix, i + 1);
    var added := [CreateRecord(cfg.index, id),
      DataRecord(id, Processed(stripped[i], cfg), IntToString(Location(stripped[..i])), cfg.chromosome, cfg.species)];
    TextsAppend(BulkRecords(stripped[..i], cfg), added);
    TextsPair(added[0], added[1]);
  }

  lemma TextsPair(x: BulkRecord, y: BulkRecord)
    ensures Texts([x, y]) == [Text(x), Text(y)]
  {
  }

  lemma TextsAppend(a: seq<BulkRecord>, b: seq<BulkRecord>)
    ensures Texts(a + b) == Texts(a) + Texts(b)
  {
    MapSeqAppend(Text, a, b);
  }

  /** What one more stripped line adds to the bulk records, the processed file and the location. */
  lemma BulkStep(stripped: seq<string>, i: nat, cfg: Config)
    requires i < |stripped|
    ensures var id := RecordId(cfg.idprefix, i + 1);
      && BulkRecords(stripped[..i + 1], cfg) == BulkRecords(stripped[..i], cfg)
         + [CreateRecord(cfg.index, id),
            DataRecord(id, Processed(stripped[i], cfg), IntToString(Location(stripped[..i])), cfg.chromosome, cfg.species)]
      && ProcessedLines(stripped[..i + 1], cfg) == ProcessedLines(stripped[..i], cfg) + [Processed(stripped[i], cfg) + "\n"]
      && Location(stripped[..i + 1]) == Location(stripped[..i]) + |stripped[i]|
  {
    assert stripped[..i + 1][..i] == stripped[..i];
  }

  /** The records of the first m stripped lines are the first 2m records. */
  lemma {:induction false} BulkPrefix(stripped: seq<string>, cfg: Config, m: nat)
    requires m <= |stripped|
    ensures |BulkRecords(stripped, cfg)| == 2 * |stripped|
    ensures BulkRecords(stripped[..m], cfg) == BulkRecords(stripped, cfg)[..2 * m]
    decreases |stripped|
  {
    BulkLength(stripped, cfg);
    if m < |stripped| {
      var before := stripped[..|stripped| - 1];
      BulkPrefix(before, cfg, m);
      assert before[..m] == stripped[..m];
    } else {
      assert stripped[..m] == stripped;
    }
  }

  /** Record k (from 0) starts at bulk line 2k with its CREATE line, whose id is idprefix_(k+1). */
  lemma CreateAt(stripped: seq<string>, cfg: Config, k: nat)
    requires k < |stripped|
    ensures |BulkRecords(stripped, cfg)| == 2 * |stripped|
    ensures BulkRecords(stripped, cfg)[2 * k] == CreateRecord(cfg.index, RecordId(cfg.idprefix, k + 1))
  {
    BulkPrefix(stripped, cfg, k + 1);
    BulkStep(stripped, k, cfg);
    BulkLength(stripped[..k], cfg);
    assert BulkRecords(stripped, cfg)[2 * k] == BulkRecords(stripped[..k + 1], cfg)[2 * k];
  }

  /**
   * Bulk line 2k + 1 is record k's DATA line: the same id, the processed text of
   * stripped line k, and as location the length of the stripped lines before it.
   */
  lemma DataAt(stripped: seq<string>, cfg: Config, k: nat)
    requires k < |stripped|
    ensures |BulkRecords(stripped, cfg)| == 2 * |stripped|
    ensures BulkRecords(stripped, cfg)[2 * k + 1]
         == DataRecord(RecordId(cfg.idprefix, k + 1), Processed(stripped[k], cfg), IntToString(Location(stripped[..k])),
                       cfg.chromosome, cfg.species)
  {
    BulkPrefix(stripped, cfg, k + 1);
    BulkStep(stripped, k, cfg);
    BulkLength(stripped[..k], cfg);
    assert BulkRecords(stripped, cfg)[2 * k + 1] == BulkRecords(stripped[..k + 1], cfg)[2 * k + 1];
  }

  lemma {:induction false} BulkLength(stripped: seq<string>, cfg: Config)
    ensures |BulkRecords(stripped, cfg)| == 2 * |stripped|
    decreases |stripped|
  {
    if |stripped| > 0 {
      BulkLength(stripped[..|stripped| - 1], cfg);
    }
  }

  /** The locations are running sums: each is the previous one plus the previous stripped line's length. */
  lemma LocationStep(stripped: seq<string>, k: nat)
    requires k < |stripped|
    ensures Location(stripped[..k + 1]) == Location(stripped[..k]) + |stripped[k]|
  {
    assert stripped[..k + 1][..k] == stripped[..k];
  }

  /** Different record numbers give different ids. */
  lemma IdsDistinct(idprefix: string, a: int, b: int)
    requires a != b
    ensures RecordId(idprefix, a) != RecordId(idprefix, b)
  {
    if RecordId(idprefix, a) == RecordId(idprefix, b) {
      var n := |idprefix| + 1;
      assert RecordId(idprefix, a)[n..] == IntToString(a);
      assert RecordId(idprefix, b)[n..] == IntToString(b);
      PyIntOfString(a);
      PyIntOfString(b);
    }
  }

  // ---------------------------------------------------------------- the DATA line's fields

  /**
   * The DATA template cut at its '"' characters: the keys id, data, chromosome
   * and species, each quoted and followed by its quoted placeholder, then the
   * key location and its unquoted placeholder.
   */
  const DATA_FIELDS: seq<string> :=
    [ "{ ", "id", ": ", ID_SLOT, ", ", "data", ": ", DATA_SLOT, ", ", "chromosome", ": ", CHROMOSOME_SLOT, ", ",
      "species", ": ", SPECIES_SLOT, ", ", "location", DATA_TAIL ]

  const DATA_TAIL: string := ": __LOCATION__}"

  /** The DATA template: its fields joined by '"'. */
  const DATA_LINE: string := Join("\"", DATA_FIELDS)

  /**
   * A value that survives the later replacements and the '"'-split: no quote,
   * and no two underscores in a row (every placeholder starts with "__").
   */
  predicate Clean(v: string) {
    && '"' !in v
    && forall i :: 0 <= i < |v| - 1 ==> !(v[i] == '_' && v[i + 1] == '_')
  }

  /** The template's fields after the five replacements. */
  function FilledFields(id: string, data: string, location: string, chromosome: string, species: string): (r: seq<string>)
    ensures |r| == |DATA_FIELDS|
  {
    seq(|DATA_FIELDS|, k requires 0 <= k < |DATA_FIELDS| => Fill(DATA_FIELDS[k], id, data, location, chromosome, species))
  }

  /** No placeholder holds '"', so each replacement acts on the template field by field. */
  lemma DataLineJoin(id: string, data: string, location: string, chromosome: string, species: string)
    ensures DataLine(id, data, location, chromosome, species) == Join("\"", FilledFields(id, data, location, chromosome, species))
  {
    var f1 := MapReplace(DATA_FIELDS, ID_SLOT, id);
    var f2 := MapReplace(f1, DATA_SLOT, data);
    var f3 := MapReplace(f2, LOCATION_SLOT, location);
    var f4 := MapReplace(f3, CHROMOSOME_SLOT, chromosome);
    ReplaceJoin(DATA_FIELDS, '"', ID_SLOT, id);
    ReplaceJoin(f1, '"', DATA_SLOT, data);
    ReplaceJoin(f2, '"', LOCATION_SLOT, location);
    ReplaceJoin(f3, '"', CHROMOSOME_SLOT, chromosome);
    ReplaceJoin(f4, '"', SPECIES_SLOT, species);
    assert MapReplace(f4, SPECIES_SLOT, species) == FilledFields(id, data, location, chromosome, species);
  }

  /** None of the fields holds c. */
  predicate NoneHolds(fs: seq<string>, c: char) {
    forall k :: 0 <= k < |fs| ==> c !in fs[k]
  }

  lemma TemplateQuoteFree()
    ensures NoneHolds(DATA_FIELDS, '"')
  {
    var fs := DATA_FIELDS;
    forall k | 0 <= k < |fs| ensures '"' !in fs[k] {
      if k < 10 {
        assert k in {0, 1, 2, 3, 4, 5, 6, 7, 8, 9};
      } else {
        assert k in {10, 11, 12, 13, 14, 15, 16, 17, 18};
      }
    }
  }

  /** Replacing with quote-free text keeps every field quote-free. */
  lemma MapReplaceQuoteFree(fs: seq<string>, slot: string, rep: string)
    requires NoneHolds(fs, '"') && '"' !in rep && |slot| > 0
    ensures NoneHolds(MapReplace(fs, slot, rep), '"')
  {
    forall k | 0 <= k < |fs| ensures '"' !in MapReplace(fs, slot, rep)[k] {
      ReplaceChars(fs[k], slot, rep, '"');
    }
  }

  /** A placeholder cannot occur in a clean value, so replacing it there changes nothing. */
  lemma CleanKeeps(v: string, slot: string, rep: string)
    requires Clean(v) && |slot| >= 2 && slot[0] == '_' && slot[1] == '_'
    ensures Replace(v, slot, rep) == v
  {
    assert forall i :: OccursAt(v, slot, i) ==> v[i..i + |slot|][0] == v[i] && v[i..i + |slot|][1] == v[i + 1];
    ReplaceAbsent(v, slot, rep);
  }

  /** The location placeholder sits inside the last field, between ": " and "}". */
  lemma LocationTail(location: string)
    ensures Replace(DATA_TAIL, LOCATION_SLOT, location) == ": " + location + "}"
  {
    var s := DATA_TAIL;
    var n := |LOCATION_SLOT|;
    assert s[..n][0] != LOCATION_SLOT[0];
    ReplaceSkipStep(s, LOCATION_SLOT, location);
    var s1 := s[1..];
    assert s1[..n][0] != LOCATION_SLOT[0];
    ReplaceSkipStep(s1, LOCATION_SLOT, location);
    var s2 := s1[1..];
    assert s2[..n] == LOCATION_SLOT;
    ReplaceMatchStep(s2, LOCATION_SLOT, location);
    assert s2[n..] == "}";
    ShortReplace("}", LOCATION_SLOT, location);
  }

  lemma TailClean(location: string)
    requires Clean(location)
    ensures Clean(": " + location + "}")
  {
    var t := ": " + location + "}";
    forall i | 0 <= i < |t| - 1 ensures !(t[i] == '_' && t[i + 1] == '_') {
      if 2 <= i && i + 1 < |t| - 1 {
        assert t[i] == location[i - 2] && t[i + 1] == location[i - 1];
      }
    }
  }

  /** The id's slot receives the id; the later replacements leave a clean id alone. */
  lemma IdField(id: string, data: string, location: string, chromosome: string, species: string)
    requires Clean(id)
    ensures Fill(ID_SLOT, id, data, location, chromosome, species) == id
  {
    SlotsArePlaceholders();
    ReplaceWhole(ID_SLOT, id);
    CleanKeeps(id, DATA_SLOT, data);
    CleanKeeps(id, LOCATION_SLOT, location);
    CleanKeeps(id, CHROMOSOME_SLOT, chromosome);
    CleanKeeps(id, SPECIES_SLOT, species);
  }

  /** "__NAME__" with no underscore in NAME. */
  predicate Placeholder(s: string) {
    && |s| >= 4 && s[0] == '_' && s[1] == '_' && s[|s| - 2] == '_' && s[|s| - 1] == '_'
    && forall i :: 2 <= i < |s| - 2 ==> s[i] != '_'
  }

  lemma SlotsArePlaceholders()
    ensures Placeholder(ID_SLOT) && Placeholder(DATA_SLOT) && Placeholder(LOCATION_SLOT)
         && Placeholder(CHROMOSOME_SLOT) && Placeholder(SPECIES_SLOT)
    ensures |ID_SLOT| == 6 && |DATA_SLOT| == 8 && |LOCATION_SLOT| == 12 && |CHROMOSOME_SLOT| == 14 && |SPECIES_SLOT| == 11
  {
  }

  /** A placeholder does not occur in a placeholder of another length. */
  lemma PlaceholdersApart(s: string, p: string, rep: string)
    requires Placeholder(s) && Placeholder(p) && |s| != |p|
    ensures Replace(s, p, rep) == s
  {
    assert forall i :: OccursAt(s, p, i) ==>
      s[i..i + |p|][0] == s[i] && s[i..i + |p|][1] == s[i + 1] && s[i..i + |p|][|p| - 2] == s[i + |p| - 2];
    ReplaceAbsent(s, p, rep);
  }

  /** The data's slot has no "__ID__" in it, and then receives the data. */
  lemma DataField(id: string, data: string, location: string, chromosome: string, species: string)
    requires Clean(data)
    ensures Fill(DATA_SLOT, id, data, location, chromosome, species) == data
  {
    SlotsArePlaceholders();
    PlaceholdersApart(DATA_SLOT, ID_SLOT, id);
    ReplaceWhole(DATA_SLOT, data);
    CleanKeeps(data, LOCATION_SLOT, location);
    CleanKeeps(data, CHROMOSOME_SLOT, chromosome);
    CleanKeeps(data, SPECIES_SLOT, species);
  }

  lemma ChromosomeField(id: string, data: string, location: string, chromosome: string, species: string)
    requires Clean(chromosome)
    ensures Fill(CHROMOSOME_SLOT, id, data, location, chromosome, species) == chromosome
  {
    SlotsArePlaceholders();
    PlaceholdersApart(CHROMOSOME_SLOT, ID_SLOT, id);
    PlaceholdersApart(CHROMOSOME_SLOT, DATA_SLOT, data);
    PlaceholdersApart(CHROMOSOME_SLOT, LOCATION_SLOT, location);
    ReplaceWhole(CHROMOSOME_SLOT, chromosome);
    CleanKeeps(chromosome, SPECIES_SLOT, species);
  }

  lemma SpeciesField(id: string, data: string, location: string, chromosome: string, species: string)
    ensures Fill(SPECIES_SLOT, id, data, location, chromosome, species) == species
  {
    SlotsArePlaceholders();
    PlaceholdersApart(SPECIES_SLOT, ID_SLOT, id);
    PlaceholdersApart(SPECIES_SLOT, DATA_SLOT, data);
    PlaceholdersApart(SPECIES_SLOT, LOCATION_SLOT, location);
    PlaceholdersApart(SPECIES_SLOT, CHROMOSOME_SLOT, chromosome);
    ReplaceWhole(SPECIES_SLOT, species);
  }

  lemma TailField(id: string, data: string, location: string, chromosome: string, species: string)
    requires Clean(location)
    ensures Fill(DATA_TAIL, id, data, location, chromosome, species) == ": " + location + "}"
  {
    SlotsArePlaceholders();
    assert ID_SLOT[3] == 'D' && DATA_SLOT[2] == 'D';
    ReplaceMissingChar(DATA_TAIL, ID_SLOT, id, 'D');
    ReplaceMissingChar(DATA_TAIL, DATA_SLOT, data, 'D');
    LocationTail(location);
    TailClean(location);
    CleanKeeps(": " + location + "}", CHROMOSOME_SLOT, chromosome);
    CleanKeeps(": " + location + "}", SPECIES_SLOT, species);
  }

  /** Filling a quote-free text with quote-free values gives a quote-free text. */
  lemma FillQuoteFree(s: string, id: string, data: string, location: string, chromosome: string, species: string)
    requires '"' !in s && '"' !in id && '"' !in data && '"' !in location && '"' !in chromosome && '"' !in species
    ensures '"' !in Fill(s, id, data, location, chromosome, species)
  {
    var s1 := Replace(s, ID_SLOT, id);
    var s2 := Replace(s1, DATA_SLOT, data);
    var s3 := Replace(s2, LOCATION_SLOT, location);
    var s4 := Replace(s3, CHROMOSOME_SLOT, chromosome);
    ReplaceChars(s, ID_SLOT, id, '"');
    ReplaceChars(s1, DATA_SLOT, data, '"');
    ReplaceChars(s2, LOCATION_SLOT, location, '"');
    ReplaceChars(s3, CHROMOSOME_SLOT, chromosome, '"');
    ReplaceChars(s4, SPECIES_SLOT, species, '"');
  }

  /**
   * With clean values each replacement fills its own slot and leaves the values
   * already in place alone: the id lands in field 3, the data in 7, the
   * chromosome in 11, the species in 15, the location inside the last; and no
   * field holds '"'.
   */
  lemma FilledSlots(id: string, data: string, location: string, chromosome: string, species: string)
    requires Clean(id) && Clean(data) && Clean(location) && Clean(chromosome) && Clean(species)
    ensures var fs := FilledFields(id, data, location, chromosome, species);
      && fs[3] == id && fs[7] == data && fs[11] == chromosome && fs[15] == species
      && fs[18] == ": " + location + "}"
      && NoneHolds(fs, '"')
  {
    var fs := FilledFields(id, data, location, chromosome, species);
    assert DATA_FIELDS[3] == ID_SLOT && DATA_FIELDS[7] == DATA_SLOT && DATA_FIELDS[11] == CHROMOSOME_SLOT
        && DATA_FIELDS[15] == SPECIES_SLOT && DATA_FIELDS[18] == DATA_TAIL;
    IdField(id, data, location, chromosome, species);
    DataField(id, data, location, chromosome, species);
    ChromosomeField(id, data, location, chromosome, species);
    SpeciesField(id, data, location, chromosome, species);
    TailField(id, data, location, chromosome, species);
    TemplateQuoteFree();
    forall k | 0 <= k < |fs| ensures '"' !in fs[k] {
      FillQuoteFree(DATA_FIELDS[k], id, data, location, chromosome, species);
    }
  }

  /**
   * Split on '"', a DATA line as a reader gets it back (any quote-free line ending
   * appended) has its id at 3, its data at 7, its chromosome at 11 and its species at 15.
   */
  lemma DataLineSplit(id: string, data: string, location: string, chromosome: string, species: string, ending: string)
    requires Clean(id) && Clean(data) && Clean(location) && Clean(chromosome) && Clean(species) && '"' !in ending
    ensures var fs := SplitStr(DataLine(id, data, location, chromosome, species) + ending, "\"");
      && |fs| == 19
      && fs[3] == id && fs[7] == data && fs[11] == chromosome && fs[15] == species
      && fs[18] == ": " + location + "}" + ending
  {
    var fs := FilledFields(id, data, location, chromosome, species);
    DataLineJoin(id, data, location, chromosome, species);
    FilledSlots(id, data, location, chromosome, species);
    SplitJoinEnding(fs, '"', ending);
  }

  /** str(i) has only digits and a minus sign, so it is clean. */
  lemma NumberClean(i: int)
    ensures Clean(IntToString(i))
  {
    var s := IntToString(i);
    assert forall k :: 0 <= k < |s| ==> s[k] != '_' && s[k] != '"' by {
      forall k | 0 <= k < |s| ensures s[k] != '_' && s[k] != '"' {
        if k > 0 { assert IsDigit(s[k]); }
      }
    }
  }

  /** An id is clean when its prefix is and does not end in '_'. */
  lemma IdClean(idprefix: string, n: int)
    requires Clean(idprefix) && (|idprefix| == 0 || idprefix[|idprefix| - 1] != '_')
    ensures Clean(RecordId(idprefix, n))
  {
    var d := IntToString(n);
    NumberClean(n);
    var v := RecordId(idprefix, n);
    var p := |idprefix|;
    forall i | 0 <= i < |v| - 1 ensures !(v[i] == '_' && v[i + 1] == '_') {
      if i + 1 < p {
        assert v[i] == idprefix[i] && v[i + 1] == idprefix[i + 1];
      } else if i + 1 == p {
        assert v[i] == idprefix[p - 1];
      } else if i == p {
        assert v[i + 1] == d[0];
      } else {
        assert v[i] == d[i - p - 1] && v[i + 1] == d[i - p];
      }
    }
  }
}
