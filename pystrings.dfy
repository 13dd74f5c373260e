/**
 * The Python string and list primitives the scripts rely on, with Python's
 * semantics: str.strip/rstrip, str.split() on blanks, str.split(sep),
 * str.split(sep, maxsplit), str.join, str.replace (non-overlapping, left to
 * right), str.find, slicing and indexing with negative positions, str(int)
 * and int(a / b) (truncation toward zero).
 */
module PyStrings {
  import opened Wrappers

  // ---------------------------------------------------------------- blanks

  /** Python's str.isspace on one character: what strip() and split() treat as blank. */
  predicate IsSpace(c: char) {
    || c == ' ' || ('\t' <= c <= '\r') || ('\U{1C}' <= c <= '\U{1F}')
    || c == '\U{85}' || c == '\U{A0}' || c == '\U{1680}' || ('\U{2000}' <= c <= '\U{200A}')
    || c == '\U{2028}' || c == '\U{2029}' || c == '\U{202F}' || c == '\U{205F}' || c == '\U{3000}'
  }

  predicate NoSpace(s: string) {
    forall i :: 0 <= i < |s| ==> !IsSpace(s[i])
  }

  predicate AllSpace(s: string) {
    forall i :: 0 <= i < |s| ==> IsSpace(s[i])
  }

  /** str.lstrip(): drop the leading blanks. */
  function LStrip(s: string): (r: string)
    ensures |r| <= |s| && r == s[|s| - |r|..]
    ensures r == [] || !IsSpace(r[0])
  {
    if |s| > 0 && IsSpace(s[0]) then LStrip(s[1..]) else s
  }

  /** What lstrip() drops is blank. */
  lemma {:induction false} LStripBlanks(s: string)
    ensures forall i :: 0 <= i < |s| - |LStrip(s)| ==> IsSpace(s[i])
    decreases |s|
  {
    if |s| > 0 && IsSpace(s[0]) {
      LStripBlanks(s[1..]);
      assert forall i :: 1 <= i < |s| ==> s[i] == s[1..][i - 1];
    }
  }

  /** str.rstrip(): drop the trailing blanks. */
  function RStrip(s: string): (r: string)
    ensures |r| <= |s| && r == s[..|r|]
    ensures r == [] || !IsSpace(r[|r| - 1])
  {
    if |s| > 0 && IsSpace(s[|s| - 1]) then RStrip(s[..|s| - 1]) else s
  }

  /** What rstrip() drops is blank. */
  lemma {:induction false} RStripBlanks(s: string)
    ensures forall i :: |RStrip(s)| <= i < |s| ==> IsSpace(s[i])
    decreases |s|
  {
    if |s| > 0 && IsSpace(s[|s| - 1]) {
      RStripBlanks(s[..|s| - 1]);
    }
  }

  /** str.strip(): drop the blanks at both ends. */
  function Strip(s: string): (r: string)
  {
    RStrip(LStrip(s))
  }

  /** strip() never lengthens. */
  lemma StripShorter(s: string)
    ensures |Strip(s)| <= |s|
  {
  }

  lemma AllSpaceConcat(a: string, b: string)
    requires AllSpace(a) && AllSpace(b)
    ensures AllSpace(a + b)
  {
    forall i | 0 <= i < |a + b| ensures IsSpace((a + b)[i]) {
      if i >= |a| { assert (a + b)[i] == b[i - |a|]; }
    }
  }

  /** A stripped line is empty exactly when the line holds only blanks. */
  lemma StripEmptyIffBlank(s: string)
    ensures Strip(s) == [] <==> AllSpace(s)
  {
    var l := LStrip(s);
    var a := |s| - |l|;
    LStripBlanks(s);
    RStripBlanks(l);
    if RStrip(l) == [] {
      assert l[0..] == l;
      assert s == s[..a] + l;
      AllSpaceConcat(s[..a], l);
    }
  }

  // ---------------------------------------------------------------- split()

  /** Length of the run of non-blank characters that s starts with. */
  function TokenLen(s: string): (n: nat)
    ensures n <= |s|
    ensures NoSpace(s[..n])
    ensures n == |s| || IsSpace(s[n])
  {
    if |s| == 0 || IsSpace(s[0]) then 0 else 1 + TokenLen(s[1..])
  }

  predicate IsToken(w: string) {
    |w| > 0 && NoSpace(w)
  }

  /** str.split() with no argument: the maximal runs of non-blank characters, in order. */
  function Split(s: string): (ws: seq<string>)
    ensures forall k :: 0 <= k < |ws| ==> IsToken(ws[k])
    decreases |s|
  {
    if |s| == 0 then []
    else if IsSpace(s[0]) then Split(s[1..])
    else
      var n := TokenLen(s);
      [s[..n]] + Split(s[n..])
  }

  lemma {:induction false} TokenLenOfToken(w: string, t: string)
    requires NoSpace(w) && (t == [] || IsSpace(t[0]))
    ensures TokenLen(w + t) == |w|
    decreases |w|
  {
    if |w| > 0 {
      assert (w + t)[0] == w[0];
      assert (w + t)[1..] == w[1..] + t;
      TokenLenOfToken(w[1..], t);
    } else {
      assert w + t == t;
    }
  }

  lemma SplitAllSpace(s: string)
    requires AllSpace(s)
    ensures Split(s) == []
    decreases |s|
  {
    if |s| > 0 {
      SplitAllSpace(s[1..]);
    }
  }

  /** A blank separates: splitting a + c + b is splitting a, then b. */
  lemma {:induction false} SplitAtSpace(a: string, c: char, b: string)
    requires IsSpace(c)
    ensures Split(a + [c] + b) == Split(a) + Split(b)
    decreases |a|
  {
    var s := a + [c] + b;
    if |a| == 0 {
      assert s[1..] == b;
    } else if IsSpace(a[0]) {
      assert s[1..] == a[1..] + [c] + b;
      SplitAtSpace(a[1..], c, b);
    } else {
      var n := TokenLen(a);
      TokenLenOfToken(a[..n], a[n..] + [c] + b);
      assert a[..n] + (a[n..] + [c] + b) == s;
      assert s[..n] == a[..n];
      assert s[n..] == a[n..] + [c] + b;
      SplitAtSpace(a[n..], c, b);
    }
  }

  lemma SplitOfToken(w: string)
    requires IsToken(w)
    ensures Split(w) == [w]
  {
    TokenLenOfToken(w, []);
    assert w + [] == w;
  }

  // ---------------------------------------------------------------- join

  /** sep.join(ws). */
  function Join(sep: string, ws: seq<string>): string
  {
    if |ws| == 0 then [] else if |ws| == 1 then ws[0] else ws[0] + sep + Join(sep, ws[1..])
  }

  lemma {:induction false} JoinSnoc(sep: string, ws: seq<string>, w: string)
    requires |ws| > 0
    ensures Join(sep, ws + [w]) == Join(sep, ws) + sep + w
  {
    if |ws| > 1 {
      assert (ws + [w])[1..] == ws[1..] + [w];
      JoinSnoc(sep, ws[1..], w);
    } else {
      assert (ws + [w])[1..] == [w];
    }
  }

  /** Joining tokens with single blanks and splitting again gives the tokens back. */
  lemma {:induction false} SplitJoin(ws: seq<string>)
    requires forall k :: 0 <= k < |ws| ==> IsToken(ws[k])
    ensures Split(Join(" ", ws)) == ws
  {
    if |ws| == 1 {
      SplitOfToken(ws[0]);
    } else if |ws| > 1 {
      SplitAtSpace(ws[0], ' ', Join(" ", ws[1..]));
      assert ws[0] + " " + Join(" ", ws[1..]) == ws[0] + [' '] + Join(" ", ws[1..]);
      SplitOfToken(ws[0]);
      SplitJoin(ws[1..]);
    }
  }

  /** The concatenation of a list of strings (''.join). */
  function Flatten(ws: seq<string>): string
  {
    if |ws| == 0 then [] else Flatten(ws[..|ws| - 1]) + ws[|ws| - 1]
  }

  lemma {:induction false} FlattenAppend(a: seq<string>, b: seq<string>)
    ensures Flatten(a + b) == Flatten(a) + Flatten(b)
    decreases |b|
  {
    if |b| == 0 {
      assert a + b == a;
    } else {
      var init := b[..|b| - 1];
      var w := b[|b| - 1];
      assert Flatten(a + b) == Flatten(a + init) + w by {
        assert (a + b)[..|a + b| - 1] == a + init && (a + b)[|a + b| - 1] == w;
      }
      FlattenAppend(a, init);
      assert (Flatten(a) + Flatten(init)) + w == Flatten(a) + (Flatten(init) + w);
    }
  }

  lemma FlattenOne(w: string)
    ensures Flatten([w]) == w
  {
    assert [w][..0] == [];
  }

  // ---------------------------------------------------------------- find / replace

  predicate OccursAt(s: string, p: string, i: int) {
    0 <= i && i + |p| <= |s| && s[i..i + |p|] == p
  }

  /** `p in s`. */
  predicate Contains(s: string, p: string) {
    exists i :: 0 <= i <= |s| && OccursAt(s, p, i)
  }

  /** str.find: the lowest index where p occurs in s, or -1. */
  function Find(s: string, p: string): (r: int)
    ensures -1 <= r <= |s|
    ensures r >= 0 ==> OccursAt(s, p, r)
    ensures forall i :: 0 <= i && (r < 0 || i < r) ==> !OccursAt(s, p, i)
  {
    FindFrom(s, p, 0)
  }

  function FindFrom(s: string, p: string, start: nat): (r: int)
    ensures r == -1 || (start <= r <= |s| && OccursAt(s, p, r))
    ensures forall i :: start <= i && (r < 0 || i < r) ==> !OccursAt(s, p, i)
    decreases |s| - start
  {
    if start + |p| > |s| then -1
    else if s[start..start + |p|] == p then start
    else FindFrom(s, p, start + 1)
  }

  lemma FindContains(s: string, p: string)
    ensures Find(s, p) >= 0 <==> Contains(s, p)
  {
  }

  predicate StartsWith(s: string, p: string) {
    |p| <= |s| && s[..|p|] == p
  }

  predicate EndsWith(s: string, p: string) {
    |p| <= |s| && s[|s| - |p|..] == p
  }

  /** str.replace(pat, rep) for an empty pat: rep before every character and at the end. */
  function ReplaceEmpty(s: string, rep: string): string
  {
    if |s| == 0 then rep else rep + [s[0]] + ReplaceEmpty(s[1..], rep)
  }

  /** str.replace(pat, rep): every non-overlapping occurrence of pat, scanned left to right, becomes rep. */
  function Replace(s: string, pat: string, rep: string): (r: string)
    ensures 0 < |pat| && |rep| <= |pat| ==> |r| <= |s|
    decreases |s|
  {
    if |pat| == 0 then ReplaceEmpty(s, rep)
    else if |s| < |pat| then s
    else if s[..|pat|] == pat then rep + Replace(s[|pat|..], pat, rep)
    else [s[0]] + Replace(s[1..], pat, rep)
  }

  /** With nothing to replace, replace changes nothing. */
  lemma {:induction false} ReplaceAbsent(s: string, pat: string, rep: string)
    requires |pat| > 0 && !Contains(s, pat)
    ensures Replace(s, pat, rep) == s
    decreases |s|
  {
    if |s| >= |pat| {
      assert !OccursAt(s, pat, 0);
      assert !Contains(s[1..], pat) by {
        forall i | OccursAt(s[1..], pat, i) ensures false {
          assert s[1..][i..i + |pat|] == s[i + 1..i + 1 + |pat|];
          assert OccursAt(s, pat, i + 1);
        }
      }
      ReplaceAbsent(s[1..], pat, rep);
    }
  }

  lemma ReplaceWhole(pat: string, rep: string)
    requires |pat| > 0
    ensures Replace(pat, pat, rep) == rep
  {
    assert pat[|pat|..] == [];
    assert Replace([], pat, rep) == [];
  }

  lemma ReplaceMatchStep(s: string, pat: string, rep: string)
    requires 0 < |pat| <= |s| && s[..|pat|] == pat
    ensures Replace(s, pat, rep) == rep + Replace(s[|pat|..], pat, rep)
  {
  }

  lemma ReplaceSkipStep(s: string, pat: string, rep: string)
    requires 0 < |pat| <= |s| && s[..|pat|] != pat
    ensures Replace(s, pat, rep) == [s[0]] + Replace(s[1..], pat, rep)
  {
  }

  /**
   * A character that the pattern does not contain cuts the string in two:
   * replacing in a + c + b is replacing in a and in b.
   */
  lemma ReplaceAround(a: string, c: char, b: string, pat: string, rep: string)
    requires |pat| > 0 && c !in pat
    ensures Replace(a + [c] + b, pat, rep) == Replace(a, pat, rep) + [c] + Replace(b, pat, rep)
  {
    var s := a + [c] + b;
    ReplaceSplitAt(s, |a|, pat, rep);
    assert s[..|a|] == a && s[|a| + 1..] == b;
  }

  /** The same cut, stated at position k of one string. */
  lemma {:induction false} ReplaceSplitAt(s: string, k: nat, pat: string, rep: string)
    requires |pat| > 0 && k < |s| && s[k] !in pat
    ensures Replace(s, pat, rep) == Replace(s[..k], pat, rep) + [s[k]] + Replace(s[k + 1..], pat, rep)
    decreases k, 1
  {
    var n := |pat|;
    if k < n {
      ReplacePastChar(s, k, pat, rep);
      ShortReplace(s[..k], pat, rep);
      assert s[..k + 1] == s[..k] + [s[k]];
    } else if s[..n] == pat {
      SplitAtMatch(s, k, pat, rep);
    } else {
      SplitAtSkip(s, k, pat, rep);
    }
  }

  /** ReplaceSplitAt's step when the pattern starts the string. */
  lemma SplitAtMatch(s: string, k: nat, pat: string, rep: string)
    requires 0 < |pat| <= k < |s| && s[..|pat|] == pat && s[k] !in pat
    ensures Replace(s, pat, rep) == Replace(s[..k], pat, rep) + [s[k]] + Replace(s[k + 1..], pat, rep)
    decreases k, 0
  {
    var n := |pat|;
    var t := s[n..];
    var a := Replace(s[..k][n..], pat, rep);
    var b := Replace(s[k + 1..], pat, rep);
    assert Replace(t, pat, rep) == a + [s[k]] + b by {
      assert t[k - n] == s[k];
      ReplaceSplitAt(t, k - n, pat, rep);
      assert t[..k - n] == s[..k][n..] && t[k - n + 1..] == s[k + 1..];
    }
    assert Replace(s, pat, rep) == rep + Replace(t, pat, rep) by {
      ReplaceMatchStep(s, pat, rep);
    }
    assert Replace(s[..k], pat, rep) == rep + a by {
      assert s[..k][..n] == pat;
      ReplaceMatchStep(s[..k], pat, rep);
    }
    ConcatRegroup(rep, a, [s[k]], b);
  }

  /** ReplaceSplitAt's step when the pattern does not start the string. */
  lemma SplitAtSkip(s: string, k: nat, pat: string, rep: string)
    requires 0 < |pat| <= k < |s| && s[..|pat|] != pat && s[k] !in pat
    ensures Replace(s, pat, rep) == Replace(s[..k], pat, rep) + [s[k]] + Replace(s[k + 1..], pat, rep)
    decreases k, 0
  {
    var t := s[1..];
    var a := Replace(s[..k][1..], pat, rep);
    var b := Replace(s[k + 1..], pat, rep);
    assert Replace(t, pat, rep) == a + [s[k]] + b by {
      assert t[k - 1] == s[k];
      ReplaceSplitAt(t, k - 1, pat, rep);
      assert t[..k - 1] == s[..k][1..] && t[k..] == s[k + 1..];
    }
    assert Replace(s, pat, rep) == [s[0]] + Replace(t, pat, rep) by {
      ReplaceSkipStep(s, pat, rep);
    }
    assert Replace(s[..k], pat, rep) == [s[0]] + a by {
      assert s[..k][..|pat|] == s[..|pat|] && s[..k][0] == s[0];
      ReplaceSkipStep(s[..k], pat, rep);
    }
    ConcatRegroup([s[0]], a, [s[k]], b);
  }

  lemma ConcatAssoc<T>(x: seq<T>, y: seq<T>, z: seq<T>)
    ensures x + (y + z) == x + y + z
  {
  }

  lemma ConcatRegroup(w: string, x: string, y: string, z: string)
    ensures w + (x + y + z) == (w + x) + y + z
  {
  }

  /** Before the cut there is no room for the pattern: the first k + 1 characters stay as they are. */
  lemma {:induction false} ReplacePastChar(s: string, k: nat, pat: string, rep: string)
    requires |pat| > 0 && k < |s| && k < |pat| && s[k] !in pat
    ensures Replace(s, pat, rep) == s[..k + 1] + Replace(s[k + 1..], pat, rep)
    decreases k, 2
  {
    if |s| < |pat| {
      ShortReplace(s, pat, rep);
      ShortReplace(s[k + 1..], pat, rep);
      assert s == s[..k + 1] + s[k + 1..];
    } else if k == 0 {
      PastCharFirst(s, pat, rep);
    } else {
      PastCharStep(s, k, pat, rep);
    }
  }

  /** ReplacePastChar at the first character. */
  lemma PastCharFirst(s: string, pat: string, rep: string)
    requires 0 < |pat| <= |s| && s[0] !in pat
    ensures Replace(s, pat, rep) == s[..1] + Replace(s[1..], pat, rep)
  {
    assert s[..|pat|][0] == s[0];
    ReplaceSkipStep(s, pat, rep);
    assert s[..1] == [s[0]];
  }

  /** ReplacePastChar's step further in: the first character cannot start the pattern. */
  lemma PastCharStep(s: string, k: nat, pat: string, rep: string)
    requires 0 < k < |pat| <= |s| && s[k] !in pat
    ensures Replace(s, pat, rep) == s[..k + 1] + Replace(s[k + 1..], pat, rep)
    decreases k, 1
  {
    assert s[..|pat|][k] == s[k];
    ReplaceSkipStep(s, pat, rep);
    PastCharTail(s, k, pat, rep);
    ConsSlice(s, k + 1, Replace(s[k + 1..], pat, rep));
  }

  lemma PastCharTail(s: string, k: nat, pat: string, rep: string)
    requires 0 < k < |pat| <= |s| && s[k] !in pat
    ensures Replace(s[1..], pat, rep) == s[1..k + 1] + Replace(s[k + 1..], pat, rep)
    decreases k, 0
  {
    var t := s[1..];
    assert t[k - 1] == s[k];
    ReplacePastChar(t, k - 1, pat, rep);
    assert t[..k] == s[1..k + 1] && t[k..] == s[k + 1..];
  }

  lemma ConsSlice(s: string, n: nat, b: string)
    requires 0 < n <= |s|
    ensures [s[0]] + (s[1..n] + b) == s[..n] + b
  {
    assert [s[0]] + s[1..n] == s[..n];
  }

  lemma ShortReplace(s: string, pat: string, rep: string)
    requires 0 < |pat| && |s| < |pat|
    ensures Replace(s, pat, rep) == s
  {
  }

  /** Characters of the result come from the input or from the replacement. */
  lemma {:induction false} ReplaceChars(s: string, pat: string, rep: string, c: char)
    requires |pat| > 0 && c !in s && c !in rep
    ensures c !in Replace(s, pat, rep)
    decreases |s|
  {
    if |s| >= |pat| {
      if s[..|pat|] == pat {
        ReplaceChars(s[|pat|..], pat, rep, c);
      } else {
        ReplaceChars(s[1..], pat, rep, c);
      }
    }
  }

  // ---------------------------------------------------------------- split(sep)

  /** str.split(sep) for a non-empty separator. */
  function SplitStr(s: string, sep: string): (fs: seq<string>)
    requires |sep| > 0
    ensures |fs| >= 1
    decreases |s|
  {
    var i := Find(s, sep);
    if i < 0 then [s] else [s[..i]] + SplitStr(s[i + |sep|..], sep)
  }

  /** Joining the fields of split(sep) with sep gives the string back. */
  lemma {:induction false} JoinSplitStr(s: string, sep: string)
    requires |sep| > 0
    ensures Join(sep, SplitStr(s, sep)) == s
    decreases |s|
  {
    var i := Find(s, sep);
    if i >= 0 {
      var rest := s[i + |sep|..];
      var fs := SplitStr(rest, sep);
      JoinSplitStr(rest, sep);
      assert SplitStr(s, sep) == [s[..i]] + fs;
      assert ([s[..i]] + fs)[1..] == fs;
      assert s[i..i + |sep|] == sep;
      assert s == s[..i] + sep + rest;
    }
  }

  lemma SplitCharAbsent(s: string, c: char)
    requires c !in s
    ensures SplitStr(s, [c]) == [s]
  {
    assert forall i :: OccursAt(s, [c], i) ==> s[i..i + 1][0] == c;
  }

  lemma FindCharAt(a: string, c: char, b: string)
    ensures Find(a + [c] + b, [c]) == if Find(a, [c]) >= 0 then Find(a, [c]) else |a|
  {
    var s := a + [c] + b;
    var j := Find(a, [c]);
    forall i | 0 <= i < |a| ensures OccursAt(s, [c], i) <==> OccursAt(a, [c], i) {
      assert s[i..i + 1] == a[i..i + 1];
    }
    assert OccursAt(s, [c], |a|);
  }

  /** One separator character between a and b: the fields of a, then those of b. */
  lemma {:induction false} SplitCharAt(a: string, c: char, b: string)
    ensures SplitStr(a + [c] + b, [c]) == SplitStr(a, [c]) + SplitStr(b, [c])
    decreases |a|, 1
  {
    if Find(a, [c]) < 0 {
      SplitCharAtLast(a, c, b);
    } else {
      SplitCharAtEarlier(a, c, b);
    }
  }

  /** SplitCharAt when a holds no separator. */
  lemma SplitCharAtLast(a: string, c: char, b: string)
    requires Find(a, [c]) < 0
    ensures SplitStr(a + [c] + b, [c]) == SplitStr(a, [c]) + SplitStr(b, [c])
  {
    var s := a + [c] + b;
    FindCharAt(a, c, b);
    assert s[..|a|] == a && s[|a| + 1..] == b;
  }

  /** SplitCharAt when a holds a separator: its first field comes first. */
  lemma SplitCharAtEarlier(a: string, c: char, b: string)
    requires Find(a, [c]) >= 0
    ensures SplitStr(a + [c] + b, [c]) == SplitStr(a, [c]) + SplitStr(b, [c])
    decreases |a|, 0
  {
    var s := a + [c] + b;
    var j := Find(a, [c]);
    var rest := SplitStr(a[j + 1..], [c]);
    assert SplitStr(s, [c]) == [a[..j]] + (rest + SplitStr(b, [c])) by {
      FindCharAt(a, c, b);
      assert s[..j] == a[..j];
      assert s[j + 1..] == a[j + 1..] + [c] + b;
      SplitCharAt(a[j + 1..], c, b);
    }
    assert SplitStr(a, [c]) == [a[..j]] + rest;
  }

  /** str.split(sep, maxsplit): at most maxsplit cuts, the rest stays in the last field. */
  function SplitMax(s: string, c: char, maxsplit: nat): (fs: seq<string>)
    ensures 1 <= |fs| <= maxsplit + 1
    decreases maxsplit
  {
    var i := Find(s, [c]);
    if maxsplit == 0 || i < 0 then [s] else [s[..i]] + SplitMax(s[i + 1..], c, maxsplit - 1)
  }

  /** Index of the last occurrence of c, or -1 (str.rfind for one character). */
  function LastIndexOf(s: string, c: char): (r: int)
    ensures -1 <= r < |s|
    ensures r >= 0 ==> s[r] == c
    ensures forall i :: r < i < |s| ==> s[i] != c
  {
    if |s| == 0 then -1 else if s[|s| - 1] == c then |s| - 1 else LastIndexOf(s[..|s| - 1], c)
  }

  // ---------------------------------------------------------------- case

  function UpperChar(c: char): char {
    if 'a' <= c <= 'z' then (c as int - 32) as char else c
  }

  /** str.upper() on ASCII letters. */
  function Upper(s: string): (r: string)
    ensures |r| == |s|
    ensures forall i :: 0 <= i < |r| ==> !('a' <= r[i] <= 'z')
  {
    seq(|s|, i requires 0 <= i < |s| => UpperChar(s[i]))
  }

  // ---------------------------------------------------------------- lists and numbers

  /** Where a Python slice bound lands in a sequence of length n. */
  function SliceBound(i: int, n: nat): (r: nat)
    ensures r <= n
    ensures 0 <= i <= n ==> r == i
  {
    if i < 0 then (if i + n < 0 then 0 else i + n) else if i > n then n else i
  }

  /** xs[a:b] with Python's treatment of negative and out-of-range bounds. */
  function PySlice<T>(xs: seq<T>, a: int, b: int): (r: seq<T>)
    ensures 0 <= a <= b <= |xs| ==> r == xs[a..b]
    ensures |r| <= |xs|
  {
    var lo, hi := SliceBound(a, |xs|), SliceBound(b, |xs|);
    if lo < hi then xs[lo..hi] else []
  }

  /** xs[i] with Python's negative indices; IndexError outside [-len, len). */
  function PyIndex<T>(xs: seq<T>, i: int): (r: Result<T>)
    ensures r.Ok? <==> -|xs| <= i < |xs|
    ensures 0 <= i < |xs| ==> r == Ok(xs[i])
    ensures -|xs| <= i < 0 ==> r == Ok(xs[|xs| + i])
  {
    if 0 <= i < |xs| then Ok(xs[i]) else if -|xs| <= i < 0 then Ok(xs[|xs| + i]) else Err(IndexError)
  }

  function Abs(x: int): nat { if x < 0 then -x else x }

  /** int(a / b) on integers: the quotient truncated toward zero. */
  function TruncDiv(a: int, b: int): (q: int)
    requires b != 0
    ensures Abs(q) == Abs(a) / Abs(b)
    ensures (a >= 0) == (b > 0) ==> q >= 0
    ensures (a >= 0) != (b > 0) ==> q <= 0
    ensures a >= 0 && b > 0 ==> q == a / b
  {
    var m: int := NatDiv(Abs(a), Abs(b));
    if (a < 0) == (b < 0) then m else -m
  }

  function NatDiv(x: nat, y: nat): (m: nat)
    requires y > 0
    ensures m == x / y
  {
    x / y
  }

  predicate IsDigit(c: char) { '0' <= c <= '9' }

  /** str(n) for n >= 0. */
  function NatToString(n: nat): (r: string)
    ensures |r| > 0 && forall i :: 0 <= i < |r| ==> IsDigit(r[i])
  {
    var d := ['0' + (n % 10) as char];
    if n < 10 then d else NatToString(n / 10) + d
  }

  /** str(i). */
  function IntToString(i: int): (r: string)
    ensures |r| > 0 && forall k :: 0 < k < |r| ==> IsDigit(r[k])
    ensures IsDigit(r[0]) || r[0] == '-'
  {
    if i < 0 then "-" + NatToString(-i) else NatToString(i)
  }

  /** A non-empty run of decimal digits. */
  predicate IsDigits(s: string) {
    |s| > 0 && forall i :: 0 <= i < |s| ==> IsDigit(s[i])
  }

  /** The number a run of decimal digits denotes. */
  function DigitsValue(s: string): nat
  {
    if |s| == 0 then 0 else DigitsValue(s[..|s| - 1]) * 10 + (s[|s| - 1] as int - '0' as int) % 10
  }

  /** Decimal digits, where single underscores may separate two digits ("1_000"). */
  predicate IsGroupedDigits(s: string)
    decreases |s|
  {
    if |s| == 0 || !IsDigit(s[|s| - 1]) then false
    else if |s| == 1 then true
    else if s[|s| - 2] == '_' then |s| >= 3 && IsGroupedDigits(s[..|s| - 2])
    else IsGroupedDigits(s[..|s| - 1])
  }

  /** The digits of a grouped run, underscores dropped. */
  function Ungrouped(s: string): (r: string)
    ensures '_' !in r
  {
    if |s| == 0 then [] else Ungrouped(s[..|s| - 1]) + (if s[|s| - 1] == '_' then [] else [s[|s| - 1]])
  }

  /** A run without underscores is its own digits. */
  lemma {:induction false} UngroupedDigits(s: string)
    requires forall i :: 0 <= i < |s| ==> IsDigit(s[i])
    ensures Ungrouped(s) == s
  {
    if |s| > 0 {
      UngroupedDigits(s[..|s| - 1]);
    }
  }

  /** The value of a grouped run of digits; ValueError for anything else. */
  function GroupedValue(t: string): (r: Result<int>)
    ensures r.Ok? <==> IsGroupedDigits(t)
    ensures r.Ok? ==> r.value >= 0
    ensures r.Err? ==> r.error == ValueError
  {
    if IsGroupedDigits(t) then Ok(DigitsValue(Ungrouped(t))) else Err(ValueError)
  }

  /**
   * int(s) on a string: blanks around it, an optional sign, then decimal digits
   * with optional single underscores between them; ValueError otherwise.
   */
  function PyInt(s: string): (r: Result<int>)
    ensures r.Err? ==> r.error == ValueError
  {
    IntLiteral(Strip(s))
  }

  /** An integer literal with surrounding whitespace already removed: an optional sign, then grouped digits. */
  function IntLiteral(t: string): (r: Result<int>)
    ensures r.Err? ==> r.error == ValueError
  {
    var signed := |t| > 0 && (t[0] == '-' || t[0] == '+');
    var g := GroupedValue(if signed then t[1..] else t);
    if signed && t[0] == '-' && g.Ok? then Ok(0 - g.value) else g
  }

  /** int() reads "1_0" as 10. */
  lemma PyIntGrouped()
    ensures PyInt("1_0") == Ok(10)
  {
    var t := "1_0";
    StripNoSpace(t);
    assert IsGroupedDigits(t);
    assert Ungrouped(t) == "10" by {
      assert t[..2] == "1_" && t[..1] == "1";
      assert Ungrouped(t[..1]) == "1" by { assert t[..1][..0] == ""; }
      assert Ungrouped(t[..2]) == "1" by { assert t[..2][..1] == t[..1]; }
      assert Ungrouped(t) == Ungrouped(t[..2]) + ['0'];
    }
    assert DigitsValue("10") == 10 by { assert "10"[..1] == "1" && "1"[..0] == ""; }
  }

  /** int() refuses a doubled underscore. */
  lemma PyIntDoubleUnderscore()
    ensures PyInt("1__0") == Err(ValueError)
  {
    var t := "1__0";
    NoSpaceChars(t);
    assert !IsGroupedDigits(t) by { assert !IsDigit(t[1]) && !IsDigit(t[2]); }
    assert !(t[0] == '-' || t[0] == '+');
  }

  /** int() refuses a leading or trailing underscore. */
  lemma PyIntEdgeUnderscore()
    ensures PyInt("_1") == Err(ValueError) && PyInt("1_") == Err(ValueError)
  {
    NoSpaceChars("_1");
    NoSpaceChars("1_");
    assert !IsDigit("_1"[0]) && !IsDigit("1_"[1]);
  }

  /** A string of digits and underscores is left alone by strip(). */
  lemma NoSpaceChars(t: string)
    requires forall k :: 0 <= k < |t| ==> IsDigit(t[k]) || t[k] == '_'
    ensures Strip(t) == t
  {
    assert NoSpace(t) by {
      forall k | 0 <= k < |t| ensures !IsSpace(t[k]) {
        assert IsDigit(t[k]) || t[k] == '_';
      }
    }
    StripNoSpace(t);
  }

  /** A run of digits is its own value. */
  lemma GroupedValueDigits(t: string)
    requires IsDigits(t)
    ensures GroupedValue(t) == Ok(DigitsValue(t))
  {
    UngroupedDigits(t);
  }

  /** int() of a run of digits. */
  lemma PyIntOfDigits(t: string)
    requires IsDigits(t)
    ensures PyInt(t) == Ok(DigitsValue(t))
  {
    assert NoSpace(t) by {
      forall k | 0 <= k < |t| ensures !IsSpace(t[k]) {
        assert IsDigit(t[k]);
      }
    }
    StripNoSpace(t);
    assert IsDigit(t[0]);
    GroupedValueDigits(t);
  }

  /** strip() leaves a minus sign followed by digits alone. */
  lemma StripSignedDigits(t: string)
    requires IsDigits(t)
    ensures Strip("-" + t) == "-" + t
  {
    var u := "-" + t;
    assert forall k :: 0 <= k < |u| ==> IsDigit(u[k]) || u[k] == '-' by {
      forall k | 0 <= k < |u| ensures IsDigit(u[k]) || u[k] == '-' {
        if k > 0 { assert u[k] == t[k - 1]; }
      }
    }
    assert NoSpace(u) by {
      forall k | 0 <= k < |u| ensures !IsSpace(u[k]) {
        assert IsDigit(u[k]) || u[k] == '-';
      }
    }
    StripNoSpace(u);
  }

  /** int() of a string strip() leaves alone reads it as a literal. */
  lemma PyIntStripped(u: string)
    requires Strip(u) == u
    ensures PyInt(u) == IntLiteral(u)
  {
  }

  /** A literal with a minus sign is the negated value of the rest. */
  lemma IntLiteralMinus(u: string)
    requires |u| > 0 && u[0] == '-'
    ensures IntLiteral(u) == (var g := GroupedValue(u[1..]); if g.Ok? then Ok(0 - g.value) else g)
  {
  }

  /** A minus sign and a run of digits, read as a literal. */
  lemma NegLiteral(t: string)
    requires IsDigits(t)
    ensures IntLiteral("-" + t) == Ok(0 - DigitsValue(t))
  {
    var u := "-" + t;
    assert u[1..] == t;
    GroupedValueDigits(t);
    IntLiteralMinus(u);
  }

  /** int() of a minus sign and a run of digits. */
  lemma PyIntOfNegDigits(t: string)
    requires IsDigits(t)
    ensures PyInt("-" + t) == Ok(0 - DigitsValue(t) as int)
  {
    NegLiteral(t);
    StripSignedDigits(t);
    PyIntStripped("-" + t);
  }

  /** Reading back what str() wrote gives the number. */
  lemma {:induction false} NatToStringValue(n: nat)
    ensures DigitsValue(NatToString(n)) == n
    decreases n
  {
    var d := ['0' + (n % 10) as char];
    if n >= 10 {
      NatToStringValue(n / 10);
      var r := NatToString(n / 10) + d;
      assert r[..|r| - 1] == NatToString(n / 10);
    }
  }

  /** strip() leaves a string without blanks as it is. */
  lemma StripNoSpace(s: string)
    requires NoSpace(s)
    ensures Strip(s) == s
  {
    assert LStrip(s) == s by {
      if |s| > 0 { assert !IsSpace(s[0]); }
    }
    assert RStrip(s) == s by {
      if |s| > 0 { assert !IsSpace(s[|s| - 1]); }
    }
  }

  /** int(str(i)) == i. */
  lemma PyIntOfString(i: int)
    ensures PyInt(IntToString(i)) == Ok(i)
  {
    if i < 0 {
      var d := NatToString(-i);
      assert IntToString(i) == "-" + d;
      assert DigitsValue(d) == -i by { NatToStringValue(-i); }
      assert PyInt("-" + d) == Ok(0 - DigitsValue(d)) by { PyIntOfNegDigits(d); }
    } else {
      var d := NatToString(i);
      assert IntToString(i) == d;
      assert DigitsValue(d) == i by { NatToStringValue(i); }
      assert PyInt(d) == Ok(DigitsValue(d)) by { PyIntOfDigits(d); }
    }
  }


  // ---------------------------------------------------------------- fields joined by one character

  /** A pattern holding a character the string lacks does not occur in it, so replace changes nothing. */
  lemma ReplaceMissingChar(s: string, pat: string, rep: string, c: char)
    requires c in pat && c !in s
    ensures Replace(s, pat, rep) == s
  {
    MissingCharNotContained(s, pat, c);
    ReplaceAbsent(s, pat, rep);
  }

  /** A string lacking one of the pattern's characters does not contain the pattern. */
  lemma MissingCharNotContained(s: string, pat: string, c: char)
    requires c in pat && c !in s
    ensures !Contains(s, pat)
  {
    assert forall i :: OccursAt(s, pat, i) ==> c in s[i..i + |pat|];
  }

  /**
   * One occurrence of pat, after a stretch where no occurrence can start and
   * before a stretch holding none, is the only thing replace changes.
   */
  lemma {:induction false} ReplaceInfix(a: string, pat: string, b: string, rep: string)
    requires |pat| > 0 && pat[0] !in a && !Contains(b, pat)
    ensures Replace(a + pat + b, pat, rep) == a + rep + b
    decreases |a|
  {
    var s := a + pat + b;
    if |a| == 0 {
      assert s[..|pat|] == pat && s[|pat|..] == b;
      ReplaceMatchStep(s, pat, rep);
      ReplaceAbsent(b, pat, rep);
    } else {
      assert s[..|pat|] != pat by {
        assert s[0] == a[0];
      }
      assert s[1..] == a[1..] + pat + b && s[0] == a[0];
      ReplaceSkipStep(s, pat, rep);
      ReplaceInfix(a[1..], pat, b, rep);
    }
  }

  /** Replacing in fields where only field k can hold the pattern changes field k alone. */
  lemma FillSlot(fs: seq<string>, k: nat, pat: string, rep: string)
    requires |pat| > 0 && k < |fs|
    requires forall j :: 0 <= j < |fs| && j != k ==> !Contains(fs[j], pat)
    ensures MapReplace(fs, pat, rep) == fs[k := Replace(fs[k], pat, rep)]
  {
    forall j | 0 <= j < |fs| && j != k ensures Replace(fs[j], pat, rep) == fs[j] {
      ReplaceAbsent(fs[j], pat, rep);
    }
  }

  /** Replace applied to each field. */
  function MapReplace(fs: seq<string>, pat: string, rep: string): (r: seq<string>)
    ensures |r| == |fs|
  {
    seq(|fs|, k requires 0 <= k < |fs| => Replace(fs[k], pat, rep))
  }

  /** Fields joined by a character the pattern lacks: replacing in the line is replacing in each field. */
  lemma {:induction false} ReplaceJoin(fs: seq<string>, c: char, pat: string, rep: string)
    requires |pat| > 0 && c !in pat
    ensures Replace(Join([c], fs), pat, rep) == Join([c], MapReplace(fs, pat, rep))
    decreases |fs|
  {
    if |fs| == 0 {
      ShortReplace([], pat, rep);
    } else if |fs| >= 2 {
      var rest := fs[1..];
      ReplaceAround(fs[0], c, Join([c], rest), pat, rep);
      ReplaceJoin(rest, c, pat, rep);
      assert MapReplace(fs, pat, rep)[1..] == MapReplace(rest, pat, rep);
    }
  }

  /** Splitting fields joined by a character none of them holds gives the fields back. */
  lemma {:induction false} SplitJoinChar(fs: seq<string>, c: char)
    requires |fs| >= 1 && forall k :: 0 <= k < |fs| ==> c !in fs[k]
    ensures SplitStr(Join([c], fs), [c]) == fs
    decreases |fs|
  {
    if |fs| == 1 {
      SplitCharAbsent(fs[0], c);
    } else {
      var rest := fs[1..];
      assert Join([c], fs) == fs[0] + [c] + Join([c], rest);
      assert SplitStr(fs[0], [c]) == [fs[0]] by {
        SplitCharAbsent(fs[0], c);
      }
      assert SplitStr(Join([c], rest), [c]) == rest by {
        SplitJoinChar(rest, c);
      }
      SplitCharAt(fs[0], c, Join([c], rest));
      assert [fs[0]] + rest == fs;
    }
  }

  /** Fields joined with c and followed by a c-free ending split back into the fields, the ending kept on the last. */
  lemma SplitJoinEnding(fs: seq<string>, c: char, t: string)
    requires |fs| >= 1 && (forall k :: 0 <= k < |fs| ==> c !in fs[k]) && c !in t
    ensures SplitStr(Join([c], fs) + t, [c]) == fs[..|fs| - 1] + [fs[|fs| - 1] + t]
  {
    var gs := fs[..|fs| - 1] + [fs[|fs| - 1] + t];
    JoinAppendLast([c], fs, t);
    assert forall k :: 0 <= k < |gs| - 1 ==> gs[k] == fs[k];
    SplitJoinChar(gs, c);
  }

  /** Text after a joined line lands in its last field. */
  lemma {:induction false} JoinAppendLast(sep: string, fs: seq<string>, t: string)
    requires |fs| >= 1
    ensures Join(sep, fs) + t == Join(sep, fs[..|fs| - 1] + [fs[|fs| - 1] + t])
    decreases |fs|
  {
    var gs := fs[..|fs| - 1] + [fs[|fs| - 1] + t];
    if |fs| >= 2 {
      JoinAppendLast(sep, fs[1..], t);
      assert gs[1..] == fs[1..][..|fs| - 2] + [fs[|fs| - 1] + t];
    }
  }
}
