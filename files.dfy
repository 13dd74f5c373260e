/**
 * data/files.py: every path of a listing is labelled with the species its
 * name suggests and the chromosome written after "_chr" in its
 * second-to-last '.'-component, and printed as "species chromosome path".
 *
 * The listing is an input; what the script prints, and the exception that
 * stops it, are the result.
 */
module Files {
  import opened Wrappers
  import opened PyStrings

  const CHR := "_chr"

  /** line.find(p) > 0: p occurs, and its first occurrence is not at the very start. */
  predicate FoundPastStart(line: string, p: string) {
    Find(line, p) > 0
  }

  /**
   * extractSpecies: "huref" anywhere past the start means human, else
   * "orilla" past the start means gorilla, and everything else is chimp.
   * (The "ptr" test the script also computes decides nothing.)
   */
  function ExtractSpecies(line: string): (r: string)
    ensures r == "human" <==> FoundPastStart(line, "huref")
    ensures r == "gorilla" <==> !FoundPastStart(line, "huref") && FoundPastStart(line, "orilla")
    ensures r == "chimp" <==> !FoundPastStart(line, "huref") && !FoundPastStart(line, "orilla")
  {
    if FoundPastStart(line, "huref") then "human"
    else if FoundPastStart(line, "orilla") then "gorilla"
    else "chimp"
  }

  /** line.split(".")[-2].split("_chr")[1], with IndexError when either part is missing. */
  function Chromosome(line: string): Result<string> {
    match PyIndex(SplitStr(line, "."), -2)
    case Err(e) => Err(e)
    case Ok(stem) => PyIndex(SplitStr(stem, CHR), 1)
  }

  /** The script: one "species chromosome path" line per stripped path, until a path has no chromosome. */
  function Listing(lines: seq<string>): Run
    decreases |lines|
  {
    if |lines| == 0 then Run([], None)
    else
      var line := Strip(lines[0]);
      match Chromosome(line)
      case Err(e) => Run([], Some(e))
      case Ok(chromo) =>
        var more := Listing(lines[1..]);
        Run([ExtractSpecies(line) + " " + chromo + " " + line] + more.printed, more.error)
  }

  // ---------------------------------------------------------------- lemmas

  /** find(p) > 0 holds exactly when p occurs but not at index 0; an occurrence at 0 hides every later one. */
  lemma FoundPastStartIff(line: string, p: string)
    ensures FoundPastStart(line, p) <==> Contains(line, p) && !OccursAt(line, p, 0)
  {
    FindContains(line, p);
  }

  /** A name starting with "huref", with no "orilla" in it, is labelled chimp. */
  lemma LeadingMatchIgnored(line: string)
    requires OccursAt(line, "huref", 0) && !Contains(line, "orilla")
    ensures ExtractSpecies(line) == "chimp"
  {
    FindContains(line, "orilla");
  }

  /** A pattern found right after a prefix in which it does not start is found there first. */
  lemma FindAfterFree(b: string, p: string, c: string)
    requires |p| > 0 && !Contains(b + p[..|p| - 1], p)
    ensures Find(b + p + c, p) == |b|
  {
    var s := b + p + c;
    var t := b + p[..|p| - 1];
    forall i | 0 <= i < |b| ensures !OccursAt(s, p, i) {
      assert i + |p| <= |t|;
      assert s[i..i + |p|] == t[i..i + |p|];
      assert !OccursAt(t, p, i);
    }
    assert s[|b|..|b| + |p|] == p;
    assert OccursAt(s, p, |b|);
    FindContains(s, p);
  }

  /** Split on a pattern found first after b: b, then the parts of what follows. */
  lemma SplitAfterFree(b: string, p: string, c: string)
    requires |p| > 0 && !Contains(b + p[..|p| - 1], p)
    ensures SplitStr(b + p + c, p) == [b] + SplitStr(c, p)
  {
    FindAfterFree(b, p, c);
    var s := b + p + c;
    assert s[..|b|] == b && s[|b| + |p|..] == c;
  }

  /** A text without the pattern is one part. */
  lemma SplitAbsent(s: string, p: string)
    requires |p| > 0 && !Contains(s, p)
    ensures SplitStr(s, p) == [s]
  {
    FindContains(s, p);
  }

  /**
   * "a.b_chrc.ext": the chromosome is c, the text after the first "_chr"
   * of the second-to-last component, when that component holds one "_chr"
   * and the extension has no '.'.
   */
  lemma ChromosomeOf(a: string, b: string, c: string, ext: string)
    requires '.' !in b && '.' !in c && '.' !in ext
    requires !Contains(b + "_ch", CHR) && !Contains(c, CHR)
    ensures Chromosome(a + "." + b + CHR + c + "." + ext) == Ok(c)
  {
    var stem := b + CHR + c;
    var line := a + "." + b + CHR + c + "." + ext;
    assert '.' !in stem;
    assert line == a + ['.'] + (stem + ['.'] + ext);
    SplitCharAt(a, '.', stem + ['.'] + ext);
    SplitCharAt(stem, '.', ext);
    SplitCharAbsent(stem, '.');
    SplitCharAbsent(ext, '.');
    var parts := SplitStr(line, ".");
    assert parts == SplitStr(a, ".") + [stem] + [ext];
    assert parts[|parts| - 2] == stem;
    assert CHR[..|CHR| - 1] == "_ch";
    SplitAfterFree(b, CHR, c);
    SplitAbsent(c, CHR);
  }

  /** IndexError exactly when the path has no '.' or its second-to-last component has no "_chr". */
  lemma ChromosomeError(line: string)
    ensures var parts := SplitStr(line, ".");
      Chromosome(line).Err? <==> |parts| < 2 || !Contains(parts[|parts| - 2], CHR)
    ensures Chromosome(line).Err? ==> Chromosome(line).error == IndexError
  {
    var parts := SplitStr(line, ".");
    if |parts| >= 2 {
      var stem := parts[|parts| - 2];
      FindContains(stem, CHR);
    }
  }

  /** The script prints one line per path and stops with IndexError exactly at a path without a chromosome. */
  lemma {:induction false} ListingOutcome(lines: seq<string>)
    ensures var r := Listing(lines);
      && (r.error.None? <==> forall k :: 0 <= k < |lines| ==> Chromosome(Strip(lines[k])).Ok?)
      && (r.error.None? ==> |r.printed| == |lines|)
      && (r.error.Some? ==> r.error.value == IndexError && |r.printed| < |lines|)
    decreases |lines|
  {
    if |lines| > 0 {
      ListingOutcome(lines[1..]);
      ChromosomeError(Strip(lines[0]));
      if forall k :: 0 <= k < |lines| - 1 ==> Chromosome(Strip(lines[1..][k])).Ok? {
        forall k | 0 <= k < |lines| ensures Chromosome(Strip(lines[k])).Ok? || k == 0 {
          if k > 0 { assert lines[k] == lines[1..][k - 1]; }
        }
      } else {
        var k :| 0 <= k < |lines| - 1 && !Chromosome(Strip(lines[1..][k])).Ok?;
        assert lines[k + 1] == lines[1..][k];
      }
    }
  }

  /** Each printed line starts with the species label and then the chromosome, separated by a blank. */
  lemma ListingRow(lines: seq<string>)
    requires |lines| > 0 && Chromosome(Strip(lines[0])).Ok?
    ensures var line := Strip(lines[0]);
      var row := Listing(lines).printed[0];
      StartsWith(row, ExtractSpecies(line) + " " + Chromosome(line).value + " ")
      && EndsWith(row, line)
  {
  }
}
