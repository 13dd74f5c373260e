/**
 * The two readers of esgen's bulk file, data/x.py and data/xq.py. Both read
 * the file's lines, take line 2k + 1 (record k's DATA line), split it on '"'
 * and take the sequence, the chromosome and the species at indices 7, 11 and
 * 15. What they print is modelled as the list of printed lines, together with
 * the exception (if any) that ended the run after those lines.
 *
 * The files are read in text mode, so each "\r\n" esgen wrote comes back as
 * "\n": line j of the file is bulk line j followed by "\n".
 */
module BulkReader {
  import opened Wrappers
  import opened PyStrings
  import Esgen

  const SEQ_OFFSET: int := 7
  const CHROMOSOME_OFFSET: int := 11
  const SPECIES_OFFSET: int := 15

  /** The three fields both readers take from a DATA line. */
  datatype RecordFields = RecordFields(sequence: string, species: string, chromosome: string)

  /** line.split('"') and the fields at 7, 15 and 11; a line with fewer than 16 fields raises IndexError. */
  function ReadFields(line: string): (r: Result<RecordFields>)
    ensures var data := SplitStr(line, "\"");
      && (r.Ok? <==> |data| > SPECIES_OFFSET)
      && (r.Err? ==> r.error == IndexError)
      && (r.Ok? ==> r.value == RecordFields(data[SEQ_OFFSET], data[SPECIES_OFFSET], data[CHROMOSOME_OFFSET]))
  {
    var data := SplitStr(line, "\"");
    match PyIndex(data, SEQ_OFFSET)
    case Err(e) => Err(e)
    case Ok(sequence) =>
      match PyIndex(data, SPECIES_OFFSET)
      case Err(e) => Err(e)
      case Ok(species) =>
        match PyIndex(data, CHROMOSOME_OFFSET)
        case Err(e) => Err(e)
        case Ok(chromosome) => Ok(RecordFields(sequence, species, chromosome))
  }

  /** lines[lineOffset] (Python indexing) and its fields. */
  function ReadRecord(lines: seq<string>, lineOffset: int): (r: Result<RecordFields>)
  {
    match PyIndex(lines, lineOffset)
    case Err(e) => Err(e)
    case Ok(line) => ReadFields(line)
  }

  // ---------------------------------------------------------------- data/x.py

  /** x.py's line_offset for a record number. */
  function RecordLine(record: int): int {
    record * 2 + 1
  }

  /** int(count / numEntries) and the group slice [epg*entry, epg*(entry+1)). */
  function GroupBounds(count: nat, entry: int, numEntries: int): (int, int, int)
    requires numEntries != 0
  {
    var epg := TruncDiv(count, numEntries);
    (epg, epg * entry, epg * (entry + 1))
  }

  /**
   * x.py's do_search. entry and num_entries are options without defaults, so
   * either may be None, which the arithmetic rejects with TypeError.
   */
  function XSearch(lines: seq<string>, record: int, entry: Option<int>, numEntries: Option<int>): Run {
    var numberLines := |lines|;
    var lineOffset := RecordLine(record);
    if lineOffset < numberLines then
      match ReadRecord(lines, lineOffset)
      case Err(e) => Run([], Some(e))
      case Ok(f) => XReport(f, entry, numEntries)
    else
      Run(["# bad record " + IntToString(record) + ", gives line_offset " + IntToString(lineOffset)
           + ", but number_lines is " + IntToString(numberLines)], None)
  }

  /** What x.py prints for the record it read. */
  function XReport(f: RecordFields, entry: Option<int>, numEntries: Option<int>): Run {
    var entries := Split(f.sequence);
    var header := "# number entries: " + IntToString(|entries|) + ", species: " + f.species + ", chromosome: " + f.chromosome;
    if numEntries.None? then Run([header], Some(TypeError))
    else if numEntries.value == 0 then Run([header], Some(ZeroDivisionError))
    else
      var (epg, firstOffset, lastOffset) := GroupBounds(|entries|, if entry.Some? then entry.value else 0, numEntries.value);
      var perGroup := "# entries_per_group " + IntToString(epg);
      if entry.None? then Run([header, perGroup], Some(TypeError))
      else
        // s = " ".join(entries[firstOffset:lastOffset]) is computed and never used
        Run([ header, perGroup,
              "# firstOffset " + IntToString(firstOffset) + ", lastOffset " + IntToString(lastOffset),
              "# species=" + f.species + ",chromosome=" + f.chromosome,
              "data is " + f.sequence ], None)
  }

  /** A line offset at or past the end prints only the bad-record message; a record inside the file is read from line 2*record + 1. */
  lemma XBounds(lines: seq<string>, record: int, entry: Option<int>, numEntries: Option<int>)
    ensures var r := XSearch(lines, record, entry, numEntries);
      && (2 * record + 1 >= |lines| ==> r.error == None && |r.printed| == 1 && StartsWith(r.printed[0], "# bad record "))
      && (0 <= record && 2 * record + 1 < |lines| && ReadFields(lines[2 * record + 1]).Ok? ==>
            r == XReport(ReadFields(lines[2 * record + 1]).value, entry, numEntries))
  {
    if 2 * record + 1 >= |lines| {
      var m := "# bad record " + IntToString(record);
      assert XSearch(lines, record, entry, numEntries).printed[0][..|"# bad record "|] == m[..|"# bad record "|];
    }
  }

  /**
   * With num_entries = 0 the first line is printed and then ZeroDivisionError is
   * raised; without entry or num_entries TypeError is. With both given, the whole
   * sequence is printed last, whatever the group slice was.
   */
  lemma XReportOutcome(f: RecordFields, entry: Option<int>, numEntries: Option<int>)
    ensures var r := XReport(f, entry, numEntries);
      && (numEntries == Some(0) ==> |r.printed| == 1 && r.error == Some(ZeroDivisionError))
      && (numEntries.None? ==> |r.printed| == 1 && r.error == Some(TypeError))
      && (numEntries.Some? && numEntries.value != 0 && entry.None? ==> |r.printed| == 2 && r.error == Some(TypeError))
      && (numEntries.Some? && numEntries.value != 0 && entry.Some? ==>
            |r.printed| == 5 && r.error == None && r.printed[4] == "data is " + f.sequence)
  {
  }

  /**
   * For 0 <= entry < num_entries the group slice lies inside the entries, and
   * consecutive entries give adjacent slices.
   */
  lemma GroupSliceInside(count: nat, entry: int, numEntries: int)
    requires 0 <= entry < numEntries
    ensures var (epg, first, last) := GroupBounds(count, entry, numEntries);
      && epg == count / numEntries
      && 0 <= first <= last <= count
      && last - first == epg
      && last == GroupBounds(count, entry + 1, numEntries).1
  {
    var epg := count / numEntries;
    assert epg * numEntries <= count by {
      assert count == epg * numEntries + count % numEntries;
    }
    MulMono(epg, entry + 1, numEntries);
    MulMono(epg, entry, entry + 1);
  }

  lemma MulMono(a: nat, b: int, c: int)
    requires 0 <= b <= c
    ensures 0 <= a * b <= a * c
  {
    var d := c - b;
    assert a * c == a * b + a * d;
  }

  // ---------------------------------------------------------------- data/xq.py

  /** esdata/{species}_{chromosome}.1m.es_bulk */
  function SourceFile(species: string, chromosome: string): string {
    "esdata/" + species + "_" + chromosome + ".1m.es_bulk"
  }

  /** xq.py's line_offset: one record per million characters of sequence. */
  function OffsetLine(offset: int): int {
    TruncDiv(offset, 1000000) * 2 + 1
  }

  /** sequence[:length], the whole sequence when no length was given. */
  function Prefix(sequence: string, length: Option<int>): string {
    if length.None? then sequence else PySlice(sequence, 0, length.value)
  }

  function OptionText(x: Option<int>): string {
    if x.None? then "None" else IntToString(x.value)
  }

  /** xq.py's do_search; the file system is a map from path to the lines of the file. */
  function XqSearch(files: map<string, seq<string>>, species: string, chromosome: string, offset: int,
                    length: Option<int>): Run
  {
    var sourceFile := SourceFile(species, chromosome);
    if sourceFile !in files then Run(["File " + sourceFile + " not found"], None)
    else
      var lines := files[sourceFile];
      var numberLines := |lines|;
      var lineOffset := OffsetLine(offset);
      if lineOffset < numberLines then
        match ReadRecord(lines, lineOffset)
        case Err(e) => Run([], Some(e))
        case Ok(f) =>
          Run([ "# length of sequence: " + IntToString(|f.sequence|),
                "# offset of sample: " + IntToString(offset),
                "# length of sample: " + OptionText(length),
                "# species=" + f.species + ",chromosome=" + f.chromosome,
                "data is " + Prefix(f.sequence, length) ], None)
      else
        Run(["# bad offset " + IntToString(offset) + ", results in line_offset " + IntToString(lineOffset)
             + ", but number_lines is " + IntToString(numberLines)], None)
  }

  /** Every non-negative offset in [k million, (k+1) million) selects record k's DATA line. */
  lemma OffsetSelectsRecord(offset: int, k: nat)
    requires k * 1000000 <= offset < (k + 1) * 1000000
    ensures OffsetLine(offset) == 2 * k + 1
  {
    assert TruncDiv(offset, 1000000) == offset / 1000000 == k;
  }

  /** The printed data is the first `length` characters; with no length, the whole sequence. */
  lemma PrefixLength(sequence: string, length: Option<int>)
    ensures length.None? ==> Prefix(sequence, length) == sequence
    ensures length.Some? && 0 <= length.value <= |sequence| ==> Prefix(sequence, length) == sequence[..length.value]
    ensures length.Some? && length.value >= |sequence| ==> Prefix(sequence, length) == sequence
  {
    if length.Some? && length.value >= |sequence| {
      assert sequence[0..|sequence|] == sequence;
    }
  }

  /** A missing file prints one message and stops; an offset past the file's records prints the bad-offset message. */
  lemma XqBounds(files: map<string, seq<string>>, species: string, chromosome: string, offset: int, length: Option<int>)
    ensures var r := XqSearch(files, species, chromosome, offset, length);
      && (SourceFile(species, chromosome) !in files ==> r == Run(["File " + SourceFile(species, chromosome) + " not found"], None))
      && (SourceFile(species, chromosome) in files && OffsetLine(offset) >= |files[SourceFile(species, chromosome)]| ==>
            r.error == None && |r.printed| == 1 && StartsWith(r.printed[0], "# bad offset "))
  {
    var p := SourceFile(species, chromosome);
    if p in files && OffsetLine(offset) >= |files[p]| {
      var m := "# bad offset " + IntToString(offset);
      assert XqSearch(files, species, chromosome, offset, length).printed[0][..|"# bad offset "|] == m[..|"# bad offset "|];
    }
  }

  // ---------------------------------------------------------------- reading esgen's output back

  /** The lines readlines() returns for a file whose lines were written followed by "\r\n". */
  function FileLines(bulk: seq<string>): (r: seq<string>)
    ensures |r| == |bulk|
  {
    seq(|bulk|, j requires 0 <= j < |bulk| => bulk[j] + "\n")
  }

  /** No line break: a value written inside one line of the bulk file stays on that line. */
  predicate NoBreak(v: string) {
    '\n' !in v && '\r' !in v
  }

  /**
   * Record k can be read back: the values its DATA line carries survive the
   * '"'-split, and no value written for records 0 .. k breaks its line, so
   * the file's lines are exactly the CREATE and DATA lines esgen wrote.
   */
  predicate Readable(input: seq<string>, cfg: Esgen.Config, k: nat)
    requires k < |input|
  {
    && Esgen.Clean(cfg.idprefix) && (|cfg.idprefix| == 0 || cfg.idprefix[|cfg.idprefix| - 1] != '_')
    && Esgen.Clean(Esgen.Processed(Strip(input[k]), cfg))
    && Esgen.Clean(cfg.chromosome) && Esgen.Clean(cfg.species)
    && NoBreak(cfg.index) && NoBreak(cfg.idprefix) && NoBreak(cfg.chromosome) && NoBreak(cfg.species)
    && forall j :: 0 <= j <= k ==> NoBreak(Esgen.Processed(Strip(input[j]), cfg))
  }

  /** The lines x.py and xq.py read from the bulk file esgen wrote for `input`. */
  function EsgenFile(input: seq<string>, cfg: Esgen.Config): (lines: seq<string>)
    ensures |lines| == 2 * |input|
  {
    Esgen.BulkLength(Esgen.StripAll(input), cfg);
    FileLines(Esgen.Texts(Esgen.BulkRecords(Esgen.StripAll(input), cfg)))
  }

  /**
   * Reading esgen's bulk file back: line 2k + 1 gives record k's processed
   * text, species and chromosome, provided those (and the id) hold no '"' and
   * no "__".
   */
  lemma ReadBack(input: seq<string>, cfg: Esgen.Config, k: nat)
    requires k < |input| && Readable(input, cfg, k)
    ensures ReadRecord(EsgenFile(input, cfg), 2 * k + 1)
            == Ok(RecordFields(Esgen.Processed(Strip(input[k]), cfg), cfg.species, cfg.chromosome))
  {
    var stripped := Esgen.StripAll(input);
    var id := Esgen.RecordId(cfg.idprefix, k + 1);
    var data := Esgen.Processed(Strip(input[k]), cfg);
    var location := IntToString(Esgen.Location(stripped[..k]));
    EsgenFileLine(input, cfg, k);
    Esgen.IdClean(cfg.idprefix, k + 1);
    Esgen.NumberClean(Esgen.Location(stripped[..k]));
    ReadDataLine(id, data, location, cfg.chromosome, cfg.species);
  }

  /** Line 2k + 1 of esgen's file is record k's DATA line. */
  lemma EsgenFileLine(input: seq<string>, cfg: Esgen.Config, k: nat)
    requires k < |input|
    ensures var stripped := Esgen.StripAll(input);
      EsgenFile(input, cfg)[2 * k + 1]
      == Esgen.DataLine(Esgen.RecordId(cfg.idprefix, k + 1), Esgen.Processed(Strip(input[k]), cfg),
                        IntToString(Esgen.Location(stripped[..k])), cfg.chromosome, cfg.species) + "\n"
  {
    var stripped := Esgen.StripAll(input);
    assert stripped[k] == Strip(input[k]);
    var records := Esgen.BulkRecords(stripped, cfg);
    Esgen.DataAt(stripped, cfg, k);
    TextAt(records, 2 * k + 1);
  }

  lemma TextAt(bs: seq<Esgen.BulkRecord>, i: nat)
    requires i < |bs|
    ensures Esgen.Texts(bs)[i] == Esgen.Text(bs[i])
  {
  }

  /** A DATA line of clean values, read back with its line ending, gives those values. */
  lemma ReadDataLine(id: string, data: string, location: string, chromosome: string, species: string)
    requires Esgen.Clean(id) && Esgen.Clean(data) && Esgen.Clean(location)
    requires Esgen.Clean(chromosome) && Esgen.Clean(species)
    ensures ReadFields(Esgen.DataLine(id, data, location, chromosome, species) + "\n")
            == Ok(RecordFields(data, species, chromosome))
  {
    Esgen.DataLineSplit(id, data, location, chromosome, species, "\n");
  }

  /** x.py on a record it can read, with both options given, prints that record's species, chromosome and sequence. */
  lemma XOnRecord(lines: seq<string>, record: nat, f: RecordFields, entry: int, numEntries: int)
    requires 2 * record + 1 < |lines| && ReadRecord(lines, 2 * record + 1) == Ok(f) && numEntries != 0
    ensures var r := XSearch(lines, record, Some(entry), Some(numEntries));
      && r.error == None && |r.printed| == 5
      && r.printed[3] == "# species=" + f.species + ",chromosome=" + f.chromosome
      && r.printed[4] == "data is " + f.sequence
  {
    XReportOutcome(f, Some(entry), Some(numEntries));
  }

  /** x.py on record k of esgen's output prints record k's processed text, species and chromosome. */
  lemma XReadsEsgen(input: seq<string>, cfg: Esgen.Config, k: nat, entry: int, numEntries: int)
    requires k < |input| && Readable(input, cfg, k) && numEntries != 0
    ensures var r := XSearch(EsgenFile(input, cfg), k, Some(entry), Some(numEntries));
      && r.error == None && |r.printed| == 5
      && r.printed[3] == "# species=" + cfg.species + ",chromosome=" + cfg.chromosome
      && r.printed[4] == "data is " + Esgen.Processed(Strip(input[k]), cfg)
  {
    ReadBack(input, cfg, k);
    XOnRecord(EsgenFile(input, cfg), k, RecordFields(Esgen.Processed(Strip(input[k]), cfg), cfg.species, cfg.chromosome),
              entry, numEntries);
  }

  /** xq.py on an existing file whose line for `offset` it can read prints that record's data, cut to `length`. */
  lemma XqOnRecord(files: map<string, seq<string>>, species: string, chromosome: string, offset: int,
                   length: Option<int>, f: RecordFields)
    requires SourceFile(species, chromosome) in files
    requires var lines := files[SourceFile(species, chromosome)];
      OffsetLine(offset) < |lines| && ReadRecord(lines, OffsetLine(offset)) == Ok(f)
    ensures var r := XqSearch(files, species, chromosome, offset, length);
      && r.error == None && |r.printed| == 5
      && r.printed[3] == "# species=" + f.species + ",chromosome=" + f.chromosome
      && r.printed[4] == "data is " + Prefix(f.sequence, length)
  {
  }

  /** xq.py with an offset inside record k's million prints record k's data, cut to `length`. */
  lemma XqReadsEsgen(input: seq<string>, cfg: Esgen.Config, k: nat, offset: int, length: Option<int>)
    requires k < |input| && Readable(input, cfg, k)
    requires k * 1000000 <= offset < (k + 1) * 1000000
    ensures var files := map[SourceFile(cfg.species, cfg.chromosome) := EsgenFile(input, cfg)];
      var r := XqSearch(files, cfg.species, cfg.chromosome, offset, length);
      && r.error == None && |r.printed| == 5
      && r.printed[4] == "data is " + Prefix(Esgen.Processed(Strip(input[k]), cfg), length)
  {
    ReadBack(input, cfg, k);
    OffsetSelectsRecord(offset, k);
    var files := map[SourceFile(cfg.species, cfg.chromosome) := EsgenFile(input, cfg)];
    XqOnRecord(files, cfg.species, cfg.chromosome, offset, length,
               RecordFields(Esgen.Processed(Strip(input[k]), cfg), cfg.species, cfg.chromosome));
  }
}
