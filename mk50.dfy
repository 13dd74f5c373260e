/**
 * mk50: split a file's lines into numbered files of numberLines lines each.
 * NWriter buffers lines and flushes the buffer to fileName.<fileNumber> when it
 * fills; the driver adds every line and then flushes once more, unconditionally.
 *
 * The files written are modelled as a map from file number to the lines that
 * file holds (a file written twice keeps its last contents, as reopening it for
 * writing would).
 */
module Mk50 {
  import opened Wrappers
  import opened PyStrings

  /** The lines of files 1 .. n - 1, in numbering order. */
  function Concat(files: map<int, seq<string>>, n: int): seq<string>
    requires forall k :: 1 <= k < n ==> k in files
    decreases n
  {
    if n <= 1 then [] else Concat(files, n - 1) + files[n - 1]
  }

  /** The files are exactly 1 .. n - 1. */
  predicate Numbered(files: map<int, seq<string>>, n: int) {
    && (forall k :: k in files ==> 1 <= k < n)
    && (forall k :: 1 <= k < n ==> k in files)
  }

  class NWriter {
    const fileName: string
    const numberLines: int
    var fileNumber: int
    var lineBuffer: seq<string>
    var files: map<int, seq<string>>

    /** Files are numbered from 1 without gaps; the buffer never holds a full batch; every file written by add is a full batch. */
    predicate Valid()
      reads this
    {
      && fileNumber >= 1
      && Numbered(files, fileNumber)
      && (numberLines >= 1 ==> |lineBuffer| < numberLines)
      && (forall k :: k in files ==> |files[k]| == numberLines)
    }

    /** Everything added so far: the files in order, then the buffer. */
    function Contents(): seq<string>
      reads this
      requires Valid()
    {
      Concat(files, fileNumber) + lineBuffer
    }

    constructor(fileName: string, n: int)
      ensures this.fileName == fileName && numberLines == n
      ensures fileNumber == 1 && lineBuffer == [] && files == map[]
      ensures Valid() && Contents() == []
    {
      this.fileName := fileName;
      numberLines := n;
      fileNumber := 1;
      lineBuffer := [];
      files := map[];
    }

    /**
     * writeFile: the buffer becomes file fileNumber, the number moves on, and the buffer is kept.
     * It does not keep Valid(): the driver's last call writes a short file.
     */
    method WriteFile()
      modifies this
      ensures files == old(files)[old(fileNumber) := old(lineBuffer)]
      ensures fileNumber == old(fileNumber) + 1
      ensures lineBuffer == old(lineBuffer)
    {
      files := files[fileNumber := lineBuffer];
      fileNumber := fileNumber + 1;
    }

    /** add: append the line, and exactly when the buffer reaches numberLines write it out and empty it. */
    method Add(line: string)
      requires Valid()
      modifies this
      ensures Valid()
      ensures Contents() == old(Contents()) + [line]
      ensures |old(lineBuffer)| + 1 == numberLines ==>
        && files == old(files)[old(fileNumber) := old(lineBuffer) + [line]]
        && fileNumber == old(fileNumber) + 1 && lineBuffer == []
      ensures |old(lineBuffer)| + 1 != numberLines ==>
        && files == old(files) && fileNumber == old(fileNumber) && lineBuffer == old(lineBuffer) + [line]
    {
      lineBuffer := lineBuffer + [line];
      if |lineBuffer| == numberLines {
        WriteFile();
        ConcatUpdate(old(files), fileNumber - 1, lineBuffer);
        lineBuffer := [];
      }
    }
  }

  /** The path writeFile uses for file number k: fileName + "." + str(k). */
  function Path(fileName: string, k: int): string
  {
    fileName + "." + IntToString(k)
  }

  /** Different numbers give different paths, so keying the files by number loses nothing. */
  lemma PathsDistinct(fileName: string, a: int, b: int)
    requires a != b
    ensures Path(fileName, a) != Path(fileName, b)
  {
    if Path(fileName, a) == Path(fileName, b) {
      var n := |fileName| + 1;
      assert Path(fileName, a)[n..] == IntToString(a);
      assert Path(fileName, b)[n..] == IntToString(b);
      PyIntOfString(a);
      PyIntOfString(b);
    }
  }

  /** Adding file n after files 1 .. n - 1 appends its lines to their concatenation. */
  lemma ConcatUpdate(files: map<int, seq<string>>, n: int, lines: seq<string>)
    requires n >= 1 && forall k :: 1 <= k < n ==> k in files
    ensures Concat(files[n := lines], n + 1) == Concat(files, n) + lines
  {
    ConcatSame(files, files[n := lines], n);
  }

  lemma ConcatSame(files: map<int, seq<string>>, files': map<int, seq<string>>, n: int)
    requires forall k :: 1 <= k < n ==> k in files && k in files' && files[k] == files'[k]
    ensures Concat(files, n) == Concat(files', n)
    decreases n
  {
    if n > 1 {
      ConcatSame(files, files', n - 1);
    }
  }

  /** numberLines: 100, unless a second argument is given, which int() then parses. */
  function NumberLines(argv: seq<string>): (r: Result<int>)
    ensures |argv| <= 2 ==> r == Ok(100)
    ensures |argv| > 2 ==> r == PyInt(argv[2])
  {
    if |argv| > 2 then PyInt(argv[2]) else Ok(100)
  }

  /**
   * Without a second argument every file holds 100 lines; a second argument
   * written as str(k) sets it to k, and an empty one is refused.
   */
  lemma NumberLinesRead(argv: seq<string>, k: int)
    ensures |argv| <= 2 ==> NumberLines(argv) == Ok(100)
    ensures |argv| > 2 && argv[2] == IntToString(k) ==> NumberLines(argv) == Ok(k)
    ensures |argv| > 2 && argv[2] == "" ==> NumberLines(argv) == Err(ValueError)
  {
    if |argv| > 2 && argv[2] == IntToString(k) {
      PyIntOfString(k);
    }
    if |argv| > 2 && argv[2] == "" {
      StripNoSpace("");
    }
  }

  /**
   * The driver: add every line, then write the buffer once more. Returns the
   * files written and how many there are. A line count of 0 or less is never
   * reached by the buffer, so then everything goes to file 1.
   */
  method Run(fileName: string, lines: seq<string>, n: int) returns (files: map<int, seq<string>>, count: int)
    ensures count >= 1 && Numbered(files, count + 1)
    ensures Concat(files, count + 1) == lines
    ensures n >= 1 ==> forall k :: 1 <= k < count ==> |files[k]| == n
    ensures n >= 1 ==> 0 <= |files[count]| < n
    ensures n >= 1 ==> count == |lines| / n + 1
    ensures n <= 0 ==> count == 1 && files == map[1 := lines]
  {
    var nw := new NWriter(fileName, n);
    for i := 0 to |lines|
      invariant nw.Valid() && nw.numberLines == n
      invariant nw.Contents() == lines[..i]
      invariant n >= 1 ==> (nw.fileNumber - 1) * n + |nw.lineBuffer| == i
      invariant n <= 0 ==> nw.fileNumber == 1 && nw.files == map[]
    {
      assert lines[..i + 1] == lines[..i] + [lines[i]];
      MulSucc(nw.fileNumber - 1, n);
      nw.Add(lines[i]);
    }
    assert lines[..|lines|] == lines;
    FinalWrite(nw.files, nw.fileNumber, nw.lineBuffer, lines, n);
    nw.WriteFile();
    files, count := nw.files, nw.fileNumber - 1;
  }

  /** The last writeFile, after every line was added: the buffer becomes the last file, and the files hold the lines in order. */
  lemma FinalWrite(files: map<int, seq<string>>, fileNumber: int, buffer: seq<string>, lines: seq<string>, n: int)
    requires fileNumber >= 1 && Numbered(files, fileNumber)
    requires forall k :: k in files ==> |files[k]| == n
    requires Concat(files, fileNumber) + buffer == lines
    requires n >= 1 ==> |buffer| < n && (fileNumber - 1) * n + |buffer| == |lines|
    requires n <= 0 ==> fileNumber == 1 && files == map[]
    ensures var files', count := files[fileNumber := buffer], fileNumber;
      && Numbered(files', count + 1)
      && Concat(files', count + 1) == lines
      && (n >= 1 ==> forall k :: 1 <= k < count ==> |files'[k]| == n)
      && (n >= 1 ==> |files'[count]| < n && count == |lines| / n + 1)
      && (n <= 0 ==> count == 1 && files' == map[1 := lines])
  {
    ConcatUpdate(files, fileNumber, buffer);
    if n >= 1 {
      DivOfBatches(fileNumber - 1, n, |buffer|);
    } else {
      assert Concat(files, fileNumber) == [];
      assert buffer == lines;
    }
  }

  lemma MulSucc(m: int, n: int)
    ensures (m + 1) * n == m * n + n
  {
  }

  lemma DivOfBatches(full: int, n: int, rest: int)
    requires n >= 1 && 0 <= rest < n && full >= 0
    ensures (full * n + rest) / n == full
  {
    var x := full * n + rest;
    var d := x / n - full;
    assert d * n == rest - x % n by {
      assert x == (x / n) * n + x % n;
      assert (x / n) * n == d * n + full * n;
    }
    MulAwayFromZero(d, n);
  }

  lemma MulAwayFromZero(d: int, n: int)
    requires n >= 1
    ensures d >= 1 ==> d * n >= n
    ensures d <= -1 ==> d * n <= -n
  {
  }
}
