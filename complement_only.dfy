/**
 * The comp/revcomp pair of revreq.py (repeated verbatim, and never called, in
 * data/xq.py). Despite its name this revcomp does not reverse, and its comp
 * sends every character other than A, C, G to 'A' -- T included -- so it is
 * not the reverse complement of the other scripts.
 */
module ComplementOnly {
  import MkSearch

  /** comp: A to T, C to G, G to C, anything else to A. */
  function Comp(c: char): char {
    if c == 'A' then 'T'
    else if c == 'C' then 'G'
    else if c == 'G' then 'C'
    else 'A'
  }

  /** revcomp: comp of every character, in the original order. */
  function RevComp(s: string): (r: string)
    ensures |r| == |s|
  {
    seq(|s|, i requires 0 <= i < |s| => Comp(s[i]))
  }

  predicate IsBases(s: string) {
    forall i :: 0 <= i < |s| ==> s[i] in "ACGT"
  }

  /** Whatever goes in, only A, C, G and T come out. */
  lemma OutputAlphabet(s: string)
    ensures IsBases(RevComp(s))
  {
  }

  /** Position by position: character i of the result is comp of character i of the input. */
  lemma NoReversal(s: string, i: int)
    requires 0 <= i < |s|
    ensures RevComp(s)[i] == Comp(s[i])
    ensures i + 1 < |s| ==> RevComp(s)[i..i + 2] == [Comp(s[i]), Comp(s[i + 1])]
  {
  }

  /** On A, C, G, T it undoes itself. */
  lemma InvolutionOnBases(s: string)
    requires IsBases(s)
    ensures RevComp(RevComp(s)) == s
  {
  }

  /** Outside A, C, G, T it does not: N goes to A and back to T. */
  lemma NotInvolutionOnN()
    ensures RevComp(RevComp("N")) == "T"
  {
    assert RevComp("N") == "A";
  }

  /** It agrees with mksearch's comp on A, C, G, T, and disagrees on every other character. */
  lemma DiffersFromMkSearch(c: char)
    ensures c in "ACGT" ==> Comp(c) == MkSearch.Comp(c)
    ensures c !in "ACGT" ==> Comp(c) == 'A' && MkSearch.Comp(c) == c && Comp(c) != MkSearch.Comp(c)
  {
  }

  /** The two revcomps differ even on bases: "AC" gives "TG" here and "GT" in mksearch. */
  lemma DiffersFromReverse()
    ensures RevComp("AC") == "TG" && MkSearch.RevComp("AC") == "GT"
  {
    var r, m := RevComp("AC"), MkSearch.RevComp("AC");
    assert r[0] == 'T' && r[1] == 'G';
    assert m[0] == MkSearch.Comp('C') && m[1] == MkSearch.Comp('A');
  }
}
