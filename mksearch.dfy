/**
 * mksearch: for every input line longer than searchSize, write its first
 * searchSize characters and their reverse complement to two query data files,
 * and print the two search commands that use them.
 *
 * comp here leaves every character other than A, C, G, T as it is, so unlike
 * the table-driven revcomp of the segmentation pipeline it never fails.
 */
module MkSearch {
  import opened Wrappers
  import opened PyStrings
  import Transforms

  /** comp: A and T swap, C and G swap, everything else is left alone. */
  function Comp(c: char): char {
    if c == 'A' then 'T'
    else if c == 'C' then 'G'
    else if c == 'G' then 'C'
    else if c == 'T' then 'A'
    else c
  }

  /** revcomp: comp of every character, last character first. */
  function RevComp(s: string): (r: string)
    ensures |r| == |s|
  {
    seq(|s|, i requires 0 <= i < |s| => Comp(s[|s| - 1 - i]))
  }

  /** comp undoes itself on every character. */
  lemma CompInvolution(c: char)
    ensures Comp(Comp(c)) == c
  {
  }

  /** revcomp undoes itself on every string. */
  lemma RevCompInvolution(s: string)
    ensures RevComp(RevComp(s)) == s
  {
    var r := RevComp(RevComp(s));
    forall i | 0 <= i < |s| ensures r[i] == s[i] {
      CompInvolution(s[i]);
    }
  }

  /** comp fixes exactly the characters outside A, C, G, T. */
  lemma CompFixes(c: char)
    ensures Comp(c) == c <==> c !in "ACGT"
  {
  }

  /** Where the pipeline's table-driven revcomp succeeds, it gives the same string as this one. */
  lemma AgreesWithTable(s: string)
    requires Transforms.OverTable(s)
    ensures Transforms.RevComp(s) == Ok(RevComp(s))
  {
    var t := Transforms.RevComp(s);
    var v, m := t.value, RevComp(s);
    assert |v| == |m|;
    forall i | 0 <= i < |s| ensures v[i] == m[i] {
      TableIsComp(s[|s| - 1 - i], v[i]);
    }
    assert v == m;
  }

  /** The pipeline's table maps each of its characters to what comp does. */
  lemma TableIsComp(c: char, x: char)
    requires Transforms.Complement(c) == Some(x)
    ensures x == Comp(c)
  {
  }

  /** What the main loop does for one line: files written and commands printed. */
  datatype Action = Write(path: string, content: string) | Print(text: string)

  /** The search command for a data file. */
  function Command(dataFile: string, targetIndex: string): string {
    "python jjquery.py --query " + dataFile + " --index " + targetIndex + " > " + dataFile + ".json"
  }

  /** The forward data file's path: {targetFolder}/{species}.{chromosome}.{line_number*sectionSize}. */
  function DataFile(targetFolder: string, species: string, chromosome: string, location: int): string {
    targetFolder + "/" + species + "." + chromosome + "." + IntToString(location)
  }

  /** The actions for line number n. */
  function LineActions(line: string, n: int, targetFolder: string, species: string, chromosome: string,
                       sectionSize: int, searchSize: int, targetIndex: string): seq<Action>
  {
    if |line| > searchSize then
      var window := PySlice(line, 0, searchSize);
      var dataFile := DataFile(targetFolder, species, chromosome, n * sectionSize);
      var revcompDataFile := dataFile + ".revcomp";
      [ Write(dataFile, "data is " + window + "\n"),
        Write(revcompDataFile, "data is " + RevComp(window)),
        Print(Command(dataFile, targetIndex)),
        Print(Command(revcompDataFile, targetIndex)) ]
    else []
  }

  /** The actions for lines 0 .. |lines| - 1, in order. */
  function AllActions(lines: seq<string>, targetFolder: string, species: string, chromosome: string,
                      sectionSize: int, searchSize: int, targetIndex: string): seq<Action>
  {
    if |lines| == 0 then []
    else
      AllActions(lines[..|lines| - 1], targetFolder, species, chromosome, sectionSize, searchSize, targetIndex)
      + LineActions(lines[|lines| - 1], |lines| - 1, targetFolder, species, chromosome, sectionSize, searchSize, targetIndex)
  }

  /** The main loop over the lines readlines() returned (each with its newline). */
  method Generate(lines: seq<string>, targetFolder: string, species: string, chromosome: string,
                  sectionSize: int, searchSize: int, targetIndex: string) returns (actions: seq<Action>)
    ensures actions == AllActions(lines, targetFolder, species, chromosome, sectionSize, searchSize, targetIndex)
  {
    actions := [];
    for lineNumber := 0 to |lines|
      invariant actions == AllActions(lines[..lineNumber], targetFolder, species, chromosome, sectionSize, searchSize, targetIndex)
    {
      assert lines[..lineNumber + 1][..lineNumber] == lines[..lineNumber];
      var line := lines[lineNumber];
      var location := lineNumber * sectionSize;
      if |line| > searchSize {
        var searchData := PySlice(line, 0, searchSize);
        var dataFile := DataFile(targetFolder, species, chromosome, location);
        var revcompDataFile := dataFile + ".revcomp";
        actions := actions + [Write(dataFile, "data is " + searchData + "\n"),
                              Write(revcompDataFile, "data is " + RevComp(searchData))];
        actions := actions + [Print(Command(dataFile, targetIndex)), Print(Command(revcompDataFile, targetIndex))];
      }
    }
    assert lines[..|lines|] == lines;
  }

  /** A line produces output exactly when it is longer than searchSize (its newline counts). */
  lemma QualifyingLines(line: string, n: int, targetFolder: string, species: string, chromosome: string,
                        sectionSize: int, searchSize: int, targetIndex: string)
    ensures var acts := LineActions(line, n, targetFolder, species, chromosome, sectionSize, searchSize, targetIndex);
      && (acts != [] <==> |line| > searchSize)
      && (acts != [] ==> |acts| == 4)
  {
  }

  /**
   * For a qualifying line and a non-negative searchSize: the forward file holds the
   * first searchSize characters, the revcomp file (named after it) their reverse
   * complement without a newline, and the forward command comes first.
   */
  lemma WindowFiles(line: string, n: int, targetFolder: string, species: string, chromosome: string,
                    sectionSize: int, searchSize: int, targetIndex: string)
    requires 0 <= searchSize < |line|
    ensures var acts := LineActions(line, n, targetFolder, species, chromosome, sectionSize, searchSize, targetIndex);
      var dataFile := DataFile(targetFolder, species, chromosome, n * sectionSize);
      && acts[0] == Write(dataFile, "data is " + line[..searchSize] + "\n")
      && acts[1] == Write(dataFile + ".revcomp", "data is " + RevComp(line[..searchSize]))
      && RevComp(acts[1].content[8..]) == line[..searchSize]
      && acts[2].text == Command(dataFile, targetIndex)
      && acts[3].text == Command(dataFile + ".revcomp", targetIndex)
  {
    var w := line[..searchSize];
    assert ("data is " + RevComp(w))[8..] == RevComp(w);
    RevCompInvolution(w);
  }

  /** How many lines are longer than searchSize. */
  function Qualifying(lines: seq<string>, searchSize: int): nat
  {
    if |lines| == 0 then 0
    else Qualifying(lines[..|lines| - 1], searchSize) + if |lines[|lines| - 1]| > searchSize then 1 else 0
  }

  /** Four actions per qualifying line and none for the others. */
  lemma {:induction false} ActionCount(lines: seq<string>, targetFolder: string, species: string, chromosome: string,
                                       sectionSize: int, searchSize: int, targetIndex: string)
    ensures |AllActions(lines, targetFolder, species, chromosome, sectionSize, searchSize, targetIndex)|
         == 4 * Qualifying(lines, searchSize)
  {
    if |lines| > 0 {
      ActionCount(lines[..|lines| - 1], targetFolder, species, chromosome, sectionSize, searchSize, targetIndex);
      QualifyingLines(lines[|lines| - 1], |lines| - 1, targetFolder, species, chromosome, sectionSize, searchSize, targetIndex);
    }
  }
}
