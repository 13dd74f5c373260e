/**
 * The one-line query language of species/es_search.py and jjquery.py (and
 * the unused copy in script_tools/sample_query.py): `field is not v`,
 * `field is v ...` and `field op a op b ...` each become a JSON fragment, and
 * the fragments of a query file are joined into one search request.
 *
 * The JSON templates are written as their pieces between '"' characters, so
 * that filling a slot can be reasoned about piece by piece.
 */
module QueryLine {
  import opened Wrappers
  import opened PyStrings

  const FIELD_SLOT: string := "FIELD"
  const VALUE_SLOT: string := "VALUE"
  const OPVAL_SLOT: string := "OPVAL_LIST"
  const QUERY_SLOT: string := "BOOL_QUERY"

  /** ": { <slot> }}}", the last piece of the range and query templates. */
  function Braced(slot: string): string {
    ": { " + slot + " }}}"
  }

  const MUST_NOT_PIECES: seq<string> := ["", "must_not", ": { ", "match", ": { ", FIELD_SLOT, ": ", VALUE_SLOT, " }}"]
  const MUST_PIECES: seq<string> := ["", "must", ": { ", "match", ": { ", FIELD_SLOT, ": ", VALUE_SLOT, " }}"]
  const RANGE_PIECES: seq<string> := ["", "filter", ": { ", "range", ": { ", FIELD_SLOT, Braced(OPVAL_SLOT)]
  const QUERY_PIECES: seq<string> :=
    ["{ ", "_source", ": { ", "excludes", ": [", "data", ", ", "message", "] }, ", "query", ": { ", "bool", Braced(QUERY_SLOT)]

  /** '"must_not": { "match": { "FIELD": "VALUE" }}' */
  const MUST_NOT: string := Join("\"", MUST_NOT_PIECES)
  /** '"must": { "match": { "FIELD": "VALUE" }}' */
  const MUST: string := Join("\"", MUST_PIECES)
  /** '"filter": { "range": { "FIELD": { OPVAL_LIST }}}' */
  const RANGE: string := Join("\"", RANGE_PIECES)
  /** '{ "_source": { "excludes": ["data", "message"] }, "query": { "bool": { BOOL_QUERY }}}' */
  const QUERY: string := Join("\"", QUERY_PIECES)

  /** What one query line asks for. */
  datatype Clause =
    | MustNot(field: string, value: string)
    | Must(field: string, value: string)
    | Range(field: string, opvals: seq<string>)

  /** The template with its slots replaced, in the order the source replaces them. */
  function Render(c: Clause): string {
    match c
    case MustNot(field, value) => Replace(Replace(MUST_NOT, FIELD_SLOT, field), VALUE_SLOT, value)
    case Must(field, value) => Replace(Replace(MUST, FIELD_SLOT, field), VALUE_SLOT, value)
    case Range(field, opvals) => Replace(Replace(RANGE, FIELD_SLOT, field), OPVAL_SLOT, Join(",", opvals))
  }

  // ---------------------------------------------------------------- the range operators

  predicate IsOp(t: string) {
    t == ">=" || t == "<=" || t == ">" || t == "<"
  }

  function OpName(t: string): string
    requires IsOp(t)
  {
    if t == ">=" then "gte" else if t == "<=" then "lte" else if t == ">" then "gt" else "lt"
  }

  /** f"\"gte\": {value}" and its siblings. */
  function Fragment(op: string, value: string): string
    requires IsOp(op)
  {
    "\"" + OpName(op) + "\": " + value
  }

  /**
   * The fragments the range loop collects from position `offset` on: every
   * token at offset, offset + 2, ... that is an operator takes the token after
   * it as its value; other tokens there are skipped. An operator in last place
   * has no value and raises IndexError.
   */
  function OpVals(data: seq<string>, offset: nat): (r: Result<seq<string>>)
    decreases |data| - offset
  {
    if offset >= |data| then Ok([])
    else if IsOp(data[offset]) then
      if offset + 1 >= |data| then Err(IndexError)
      else
        match OpVals(data, offset + 2)
        case Err(e) => Err(e)
        case Ok(rest) => Ok([Fragment(data[offset], data[offset + 1])] + rest)
    else OpVals(data, offset + 2)
  }

  /** opvals followed by what a later part of the loop collects, or that part's error. */
  function Then(opvals: seq<string>, r: Result<seq<string>>): Result<seq<string>> {
    if r.Ok? then Ok(opvals + r.value) else r
  }

  /** qline's range loop. */
  method RangeOpVals(data: seq<string>) returns (r: Result<seq<string>>)
    ensures r == OpVals(data, 1)
  {
    var opvals: seq<string> := [];
    var offset := 1;
    assert Then([], OpVals(data, 1)) == OpVals(data, 1) by {
      if OpVals(data, 1).Ok? {
        assert [] + OpVals(data, 1).value == OpVals(data, 1).value;
      }
    }
    while offset < |data|
      invariant 1 <= offset
      invariant OpVals(data, 1) == Then(opvals, OpVals(data, offset))
      decreases |data| - offset
    {
      if IsOp(data[offset]) {
        if offset + 1 >= |data| {
          assert OpVals(data, offset) == Err(IndexError);
          return Err(IndexError);
        }
        var fragment := Fragment(data[offset], data[offset + 1]);
        ThenStep(opvals, fragment, OpVals(data, offset + 2));
        opvals := opvals + [fragment];
      }
      offset := offset + 2;
    }
    assert opvals + [] == opvals;
    r := Ok(opvals);
  }

  lemma ThenStep(opvals: seq<string>, fragment: string, r: Result<seq<string>>)
    ensures Then(opvals, if r.Ok? then Ok([fragment] + r.value) else r) == Then(opvals + [fragment], r)
  {
    if r.Ok? {
      assert opvals + ([fragment] + r.value) == (opvals + [fragment]) + r.value;
    }
  }

  /** The range loop fails exactly when an operator sits in the last operator position. */
  lemma {:induction false} OpValsError(data: seq<string>, offset: nat)
    ensures OpVals(data, offset).Err? <==>
      offset < |data| && (|data| - 1 - offset) % 2 == 0 && IsOp(data[|data| - 1])
    ensures OpVals(data, offset).Err? ==> OpVals(data, offset).error == IndexError
    decreases |data| - offset
  {
    if offset < |data| && offset + 1 < |data| {
      OpValsError(data, offset + 2);
    }
  }

  /** Another operator and its value at the end add their fragment at the end; a non-operator adds nothing. */
  lemma {:induction false} OpValsSnoc(data: seq<string>, offset: nat, op: string, value: string)
    requires offset <= |data| && (|data| - offset) % 2 == 0 && OpVals(data, offset).Ok?
    ensures OpVals(data + [op, value], offset)
         == Ok(OpVals(data, offset).value + (if IsOp(op) then [Fragment(op, value)] else []))
    decreases |data| - offset
  {
    var d := data + [op, value];
    if offset == |data| {
      assert d[offset] == op && d[offset + 1] == value;
      assert OpVals(d, offset + 2) == Ok([]);
      assert OpVals(data, offset) == Ok([]);
      if IsOp(op) {
        assert OpVals(d, offset) == Ok([Fragment(op, value)] + []);
        assert [Fragment(op, value)] + [] == [] + [Fragment(op, value)];
      } else {
        assert OpVals(d, offset) == Ok([]);
        assert OpVals(data, offset).value + [] == [];
      }
    } else {
      assert d[offset] == data[offset] && d[offset + 1] == data[offset + 1];
      OpValsSnoc(data, offset + 2, op, value);
      var rest := OpVals(data, offset + 2).value;
      if IsOp(data[offset]) {
        var f := Fragment(data[offset], data[offset + 1]);
        assert OpVals(data, offset).value == [f] + rest;
        assert [f] + (rest + (if IsOp(op) then [Fragment(op, value)] else []))
            == ([f] + rest) + (if IsOp(op) then [Fragment(op, value)] else []);
      }
    }
  }

  /** Each operator position yields at most one fragment. */
  lemma {:induction false} OpValsCount(data: seq<string>, offset: nat)
    requires offset <= |data| + 1 && OpVals(data, offset).Ok?
    ensures 2 * |OpVals(data, offset).value| <= |data| - offset + 1
    decreases |data| - offset
  {
    if offset < |data| {
      if IsOp(data[offset]) {
        assert offset + 1 < |data|;
      }
      assert OpVals(data, offset + 2).Ok?;
      OpValsCount(data, offset + 2);
    }
  }

  // ---------------------------------------------------------------- qline

  /** Which pattern a stripped line matches, tested with find(...) > 0 in the source's order. */
  datatype Kind = IsNot | Is | Compare | NoMatch

  function KindOf(s: string): Kind {
    if Find(s, " is not ") > 0 then IsNot
    else if Find(s, " is ") > 0 then Is
    else if Find(s, " >= ") > 0 || Find(s, " <= ") > 0 || Find(s, " > ") > 0 || Find(s, " < ") > 0 then Compare
    else NoMatch
  }

  /** qline's parse: the clause, None when no pattern matches, IndexError when a token is missing. */
  function ParseLine(line: string): Result<Option<Clause>> {
    var s := Strip(line);
    var data := Split(s);
    match KindOf(s)
    case IsNot => if |data| <= 3 then Err(IndexError) else Ok(Some(MustNot(data[0], data[3])))
    case Is => if |data| == 0 then Err(IndexError) else Ok(Some(Must(data[0], Join(" ", PySlice(data, 2, |data|)))))
    case Compare =>
      (match OpVals(data, 1)
      case Err(e) => Err(e)
      case Ok(opvals) => (if |data| == 0 then Err(IndexError) else Ok(Some(Range(data[0], opvals)))))
    case NoMatch => Ok(None)
  }

  /** qline's result: the rendered clause. */
  function QLineText(line: string): Result<Option<string>> {
    match ParseLine(line)
    case Err(e) => Err(e)
    case Ok(None) => Ok(None)
    case Ok(Some(c)) => Ok(Some(Render(c)))
  }

  /** qline, with its range loop. */
  method QLine(line: string) returns (r: Result<Option<string>>)
    ensures r == QLineText(line)
  {
    var s := Strip(line);
    var data := Split(s);
    var kind := KindOf(s);
    if kind == IsNot {
      if |data| <= 3 {
        return Err(IndexError);
      }
      r := Ok(Some(Render(MustNot(data[0], data[3]))));
    } else if kind == Is {
      if |data| == 0 {
        return Err(IndexError);
      }
      r := Ok(Some(Render(Must(data[0], Join(" ", PySlice(data, 2, |data|))))));
    } else if kind == Compare {
      var opvals := RangeOpVals(data);
      if opvals.Err? {
        return Err(opvals.error);
      }
      if |data| == 0 {
        return Err(IndexError);
      }
      r := Ok(Some(Render(Range(data[0], opvals.value))));
    } else {
      r := Ok(None);
    }
  }

  /** The stripped line starts with a non-blank, so a pattern starting with a blank is never found at 0. */
  lemma FindAfterStrip(line: string, pat: string)
    requires |pat| > 0 && IsSpace(pat[0])
    ensures Find(Strip(line), pat) > 0 <==> Contains(Strip(line), pat)
  {
    var s := Strip(line);
    FindContains(s, pat);
    if |s| > 0 {
      assert s[0] == LStrip(line)[0];
      if |pat| <= |s| {
        assert s[..|pat|][0] == s[0] != pat[0];
      }
    }
  }

  /** find(...) > 0 on the stripped line is containment, and " is not " wins over " is ", which wins over the comparisons. */
  lemma KindByContains(line: string)
    ensures var s := Strip(line);
      KindOf(s) ==
        if Contains(s, " is not ") then IsNot
        else if Contains(s, " is ") then Is
        else if Contains(s, " >= ") || Contains(s, " <= ") || Contains(s, " > ") || Contains(s, " < ") then Compare
        else NoMatch
  {
    FindAfterStrip(line, " is not ");
    FindAfterStrip(line, " is ");
    FindAfterStrip(line, " >= ");
    FindAfterStrip(line, " <= ");
    FindAfterStrip(line, " > ");
    FindAfterStrip(line, " < ");
  }

  /** A line matching no pattern gives None; a line of blanks is one. */
  lemma BlankLineNoMatch(line: string)
    requires AllSpace(line)
    ensures QLineText(line) == Ok(None)
  {
    StripEmptyIffBlank(line);
  }

  // ---------------------------------------------------------------- lines of single-blank-separated tokens

  predicate Tokens(ws: seq<string>) {
    forall k :: 0 <= k < |ws| ==> IsToken(ws[k])
  }

  /** Tokens joined by blanks start with the first token's first character and end with the last token's last. */
  lemma {:induction false} JoinEnds(ws: seq<string>)
    requires |ws| > 0 && Tokens(ws)
    ensures var s := Join(" ", ws);
      |s| > 0 && s[0] == ws[0][0] && s[|s| - 1] == ws[|ws| - 1][|ws[|ws| - 1]| - 1]
  {
    if |ws| > 1 {
      var tail := ws[1..];
      assert |ws[0]| > 0;
      assert Tokens(tail) by {
        forall k | 0 <= k < |tail| ensures IsToken(tail[k]) {
          assert tail[k] == ws[k + 1];
        }
      }
      JoinEnds(tail);
      var rest := Join(" ", tail);
      var s := ws[0] + " " + rest;
      assert Join(" ", ws) == s;
      assert s[0] == ws[0][0] && s[|s| - 1] == rest[|rest| - 1];
      assert tail[|tail| - 1] == ws[|ws| - 1];
    }
  }

  /** A line of tokens is its own strip. */
  lemma StripTokens(ws: seq<string>)
    requires |ws| > 0 && Tokens(ws)
    ensures Strip(Join(" ", ws)) == Join(" ", ws)
  {
    var s := Join(" ", ws);
    JoinEnds(ws);
    assert LStrip(s) == s;
  }

  /** Tokens after a first one: the line is the first token, a blank, and the rest. */
  lemma JoinCons(ws: seq<string>)
    requires |ws| > 1
    ensures Join(" ", ws) == ws[0] + " " + Join(" ", ws[1..])
  {
  }

  /** The first words of a line of tokens. */
  lemma JoinFirstTwo(a: string, b: string, rest: seq<string>)
    requires |rest| > 0
    ensures Join(" ", [a, b] + rest) == a + (" " + b + " ") + Join(" ", rest)
  {
    var ws := [a, b] + rest;
    JoinCons(ws);
    JoinCons(ws[1..]);
    assert ws[1..][1..] == rest;
    Regroup(a, " ", b, " ", Join(" ", rest));
  }

  lemma Regroup(a: string, b: string, c: string, d: string, e: string)
    ensures a + b + (c + d + e) == a + (b + c + d) + e
  {
  }

  /** A blank-started pattern found after the first token of a stripped line: find(...) > 0. */
  lemma FoundAfterFirst(s: string, f: string, pat: string, tail: string)
    requires |pat| > 0 && IsSpace(pat[0]) && s == f + pat + tail && Strip(s) == s
    ensures Find(s, pat) > 0
  {
    assert s[|f|..|f| + |pat|] == pat;
    assert OccursAt(s, pat, |f|);
    FindAfterStrip(s, pat);
  }

  lemma SpacedWords()
    ensures " " + "is" + " " == " is "
    ensures " " + "is" + " " + "not" + " " == " is not "
  {
  }

  lemma KindIsNot(f: string, v: string, more: seq<string>)
    requires Tokens([f, "is", "not", v] + more)
    ensures KindOf(Join(" ", [f, "is", "not", v] + more)) == IsNot
  {
    var ws := [f, "is", "not", v] + more;
    var s := Join(" ", ws);
    StripTokens(ws);
    var rest := [v] + more;
    assert ws == [f, "is"] + (["not"] + rest);
    JoinFirstTwo(f, "is", ["not"] + rest);
    JoinCons(["not"] + rest);
    assert (["not"] + rest)[1..] == rest;
    var tail := Join(" ", rest);
    SpacedWords();
    assert s == f + " is not " + tail;
    FoundAfterFirst(s, f, " is not ", tail);
  }

  lemma KindIs(f: string, vs: seq<string>)
    requires |vs| > 0 && Tokens([f, "is"] + vs)
    requires !Contains(Join(" ", [f, "is"] + vs), " is not ")
    ensures KindOf(Join(" ", [f, "is"] + vs)) == Is
  {
    var ws := [f, "is"] + vs;
    var s := Join(" ", ws);
    StripTokens(ws);
    JoinFirstTwo(f, "is", vs);
    SpacedWords();
    FoundAfterFirst(s, f, " is ", Join(" ", vs));
    FindAfterStrip(s, " is not ");
  }

  /** What qline sees of `f is not v ...`: the line itself, its tokens, and the is-not pattern. */
  lemma IsNotShape(f: string, v: string, more: seq<string>)
    requires Tokens([f, "is", "not", v] + more)
    ensures var ws := [f, "is", "not", v] + more; var s := Join(" ", ws);
      Strip(s) == s && Split(s) == ws && KindOf(s) == IsNot
  {
    var ws := [f, "is", "not", v] + more;
    StripTokens(ws);
    SplitJoin(ws);
    KindIsNot(f, v, more);
  }

  /** `f is not v ...` is a must_not clause on f with v alone; the tokens after v are dropped. */
  lemma IsNotLine(f: string, v: string, more: seq<string>)
    requires Tokens([f, "is", "not", v] + more)
    ensures ParseLine(Join(" ", [f, "is", "not", v] + more)) == Ok(Some(MustNot(f, v)))
  {
    IsNotShape(f, v, more);
  }

  lemma ParseIs(line: string, ws: seq<string>)
    requires Split(Strip(line)) == ws && KindOf(Strip(line)) == Is && |ws| > 2
    ensures ParseLine(line) == Ok(Some(Must(ws[0], Join(" ", ws[2..]))))
  {
    assert PySlice(ws, 2, |ws|) == ws[2..];
  }

  /** What qline sees of `f is w1 w2 ...`: the line itself, its tokens, and the is pattern. */
  lemma IsShape(f: string, vs: seq<string>)
    requires |vs| > 0 && Tokens([f, "is"] + vs)
    requires !Contains(Join(" ", [f, "is"] + vs), " is not ")
    ensures var ws := [f, "is"] + vs; var s := Join(" ", ws);
      Strip(s) == s && Split(s) == ws && KindOf(s) == Is
  {
    var ws := [f, "is"] + vs;
    StripTokens(ws);
    SplitJoin(ws);
    KindIs(f, vs);
  }

  /** `f is w1 w2 ...` is a must clause on f with the words after "is" joined by single blanks. */
  lemma IsLine(f: string, vs: seq<string>)
    requires |vs| > 0 && Tokens([f, "is"] + vs)
    requires !Contains(Join(" ", [f, "is"] + vs), " is not ")
    ensures ParseLine(Join(" ", [f, "is"] + vs)) == Ok(Some(Must(f, Join(" ", vs))))
  {
    var ws := [f, "is"] + vs;
    IsShape(f, vs);
    ParseIs(Join(" ", ws), ws);
    assert ws[2..] == vs;
  }

  /** A comparison line is a range clause on its first token with the fragments of the range loop. */
  lemma RangeLine(ws: seq<string>)
    requires |ws| > 0 && Tokens(ws)
    requires var s := Join(" ", ws);
      && !Contains(s, " is not ") && !Contains(s, " is ")
      && (Contains(s, " >= ") || Contains(s, " <= ") || Contains(s, " > ") || Contains(s, " < "))
    requires OpVals(ws, 1).Ok?
    ensures ParseLine(Join(" ", ws)) == Ok(Some(Range(ws[0], OpVals(ws, 1).value)))
  {
    StripTokens(ws);
    SplitJoin(ws);
    KindByContains(Join(" ", ws));
  }

  // ---------------------------------------------------------------- the templates filled

  /** Filling FIELD and then VALUE in a template whose other pieces hold neither; the field must not hold "VALUE", which would be replaced too. */
  lemma FillMatch(pieces: seq<string>, field: string, value: string)
    requires |pieces| == 9 && pieces[5] == FIELD_SLOT && pieces[7] == VALUE_SLOT
    requires forall j :: 0 <= j < 9 && j != 5 ==> !Contains(pieces[j], FIELD_SLOT)
    requires forall j :: 0 <= j < 9 && j != 5 && j != 7 ==> !Contains(pieces[j], VALUE_SLOT)
    requires !Contains(field, VALUE_SLOT)
    ensures Replace(Replace(Join("\"", pieces), FIELD_SLOT, field), VALUE_SLOT, value)
         == Join("\"", pieces[5 := field][7 := value])
  {
    ReplaceJoin(pieces, '"', FIELD_SLOT, field);
    FillSlot(pieces, 5, FIELD_SLOT, field);
    ReplaceWhole(FIELD_SLOT, field);
    var p1 := pieces[5 := field];
    ReplaceJoin(p1, '"', VALUE_SLOT, value);
    FillSlot(p1, 7, VALUE_SLOT, value);
    ReplaceWhole(VALUE_SLOT, value);
  }

  /** Filling the braced slot of a template's last piece, when no other piece holds it. */
  lemma FillBraced(pieces: seq<string>, slot: string, body: string)
    requires |pieces| > 0 && pieces[|pieces| - 1] == Braced(slot)
    requires |slot| > 4 && slot[0] != ':' && slot[0] != '{' && slot[0] != ' ' && '"' !in slot
    requires forall j :: 0 <= j < |pieces| - 1 ==> !Contains(pieces[j], slot)
    ensures Replace(Join("\"", pieces), slot, body) == Join("\"", pieces[|pieces| - 1 := Braced(body)])
  {
    ReplaceJoin(pieces, '"', slot, body);
    FillSlot(pieces, |pieces| - 1, slot, body);
    assert !Contains(" }}}", slot);
    ReplaceInfix(": { ", slot, " }}}", body);
  }

  lemma MatchPiecesLackSlots(pieces: seq<string>)
    requires pieces == MUST_NOT_PIECES || pieces == MUST_PIECES
    ensures |pieces| == 9 && pieces[5] == FIELD_SLOT && pieces[7] == VALUE_SLOT
    ensures forall j :: 0 <= j < 9 && j != 5 ==> !Contains(pieces[j], FIELD_SLOT)
    ensures forall j :: 0 <= j < 9 && j != 5 && j != 7 ==> !Contains(pieces[j], VALUE_SLOT)
  {
    forall j | 0 <= j < 9 && j != 5 && j != 7
      ensures 'F' !in pieces[j] && 'V' !in pieces[j]
    {
    }
    forall j | 0 <= j < 9 && j != 5 ensures !Contains(pieces[j], FIELD_SLOT) {
      MissingCharNotContained(pieces[j], FIELD_SLOT, 'F');
    }
    forall j | 0 <= j < 9 && j != 5 && j != 7 ensures !Contains(pieces[j], VALUE_SLOT) {
      MissingCharNotContained(pieces[j], VALUE_SLOT, 'V');
    }
  }

  lemma RangePiecesLackSlots()
    ensures forall j :: 0 <= j < 7 && j != 5 ==> !Contains(RANGE_PIECES[j], FIELD_SLOT)
    ensures forall j :: 0 <= j < 6 ==> !Contains(RANGE_PIECES[j], OPVAL_SLOT)
  {
    forall j | 0 <= j < 5 ensures 'F' !in RANGE_PIECES[j] && 'O' !in RANGE_PIECES[j] {
    }
    assert 'F' !in Braced(OPVAL_SLOT);
    forall j | 0 <= j < 7 && j != 5 ensures !Contains(RANGE_PIECES[j], FIELD_SLOT) {
      MissingCharNotContained(RANGE_PIECES[j], FIELD_SLOT, 'F');
    }
    forall j | 0 <= j < 5 ensures !Contains(RANGE_PIECES[j], OPVAL_SLOT) {
      MissingCharNotContained(RANGE_PIECES[j], OPVAL_SLOT, 'O');
    }
  }

  lemma QueryPiecesLackSlot()
    ensures forall j :: 0 <= j < 12 ==> !Contains(QUERY_PIECES[j], QUERY_SLOT)
  {
    forall j | 0 <= j < 12 ensures 'B' !in QUERY_PIECES[j] {
    }
    forall j | 0 <= j < 12 ensures !Contains(QUERY_PIECES[j], QUERY_SLOT) {
      MissingCharNotContained(QUERY_PIECES[j], QUERY_SLOT, 'B');
    }
  }

  /** A must_not or must clause is its template with the field and the value in their slots. */
  lemma RenderMatchClause(c: Clause)
    requires c.MustNot? || c.Must?
    requires !Contains(c.field, VALUE_SLOT)
    ensures c.MustNot? ==> Render(c) == Join("\"", MUST_NOT_PIECES[5 := c.field][7 := c.value])
    ensures c.Must? ==> Render(c) == Join("\"", MUST_PIECES[5 := c.field][7 := c.value])
  {
    if c.MustNot? {
      MatchPiecesLackSlots(MUST_NOT_PIECES);
      FillMatch(MUST_NOT_PIECES, c.field, c.value);
    } else {
      MatchPiecesLackSlots(MUST_PIECES);
      FillMatch(MUST_PIECES, c.field, c.value);
    }
  }

  /** A range clause is its template with the field in its slot and the operator fragments, ','-joined, inside the braces. */
  lemma RenderRange(field: string, opvals: seq<string>)
    requires !Contains(field, OPVAL_SLOT)
    ensures Render(Range(field, opvals)) == Join("\"", RANGE_PIECES[5 := field][6 := Braced(Join(",", opvals))])
  {
    RangePiecesLackSlots();
    ReplaceJoin(RANGE_PIECES, '"', FIELD_SLOT, field);
    FillSlot(RANGE_PIECES, 5, FIELD_SLOT, field);
    ReplaceWhole(FIELD_SLOT, field);
    FillBraced(RANGE_PIECES[5 := field], OPVAL_SLOT, Join(",", opvals));
  }

  /** The request body: the query template with the bool slot holding the fragments. */
  lemma QueryBody(body: string)
    ensures Replace(QUERY, QUERY_SLOT, body) == Join("\"", QUERY_PIECES[12 := Braced(body)])
  {
    QueryPiecesLackSlot();
    FillBraced(QUERY_PIECES, QUERY_SLOT, body);
  }

  // ---------------------------------------------------------------- query

  /**
   * [qline(line) for line in lines if line[0] != '#']: comment lines are
   * dropped, an empty line raises IndexError, errors surface in line order.
   * The line parser is a parameter, so that what is proved here holds for any.
   */
  function Collect(lines: seq<string>, qline: string -> Result<Option<string>>): Result<seq<Option<string>>>
    decreases |lines|
  {
    if |lines| == 0 then Ok([])
    else if |lines[0]| == 0 then Err(IndexError)
    else if lines[0][0] == '#' then Collect(lines[1..], qline)
    else
      match qline(lines[0])
      case Err(e) => Err(e)
      case Ok(q) =>
        match Collect(lines[1..], qline)
        case Err(e) => Err(e)
        case Ok(qs) => Ok([q] + qs)
  }

  /** The query lines of a file. */
  function QLines(lines: seq<string>): Result<seq<Option<string>>> {
    Collect(lines, QLineText)
  }

  /** ",".join(qlines): TypeError when one of them is None. */
  function JoinFragments(qs: seq<Option<string>>): (r: Result<string>)
    ensures r.Err? <==> exists k :: 0 <= k < |qs| && qs[k].None?
    ensures r.Err? ==> r.error == TypeError
  {
    if forall k :: 0 <= k < |qs| ==> qs[k].Some? then Ok(Join(",", Values(qs))) else Err(TypeError)
  }

  function Values(qs: seq<Option<string>>): (vs: seq<string>)
    requires forall k :: 0 <= k < |qs| ==> qs[k].Some?
    ensures |vs| == |qs| && forall k :: 0 <= k < |qs| ==> vs[k] == qs[k].value
  {
    seq(|qs|, k requires 0 <= k < |qs| => qs[k].value)
  }

  /** The request body built from already collected query lines, or None when there are none. */
  function Body(collected: Result<seq<Option<string>>>): Result<Option<string>> {
    match collected
    case Err(e) => Err(e)
    case Ok(qs) =>
      if |qs| == 0 then Ok(None)
      else
        match JoinFragments(qs)
        case Err(e) => Err(e)
        case Ok(joined) => Ok(Some(Replace(QUERY, QUERY_SLOT, joined)))
  }

  /** The request body query builds, or None when the file has no query lines. */
  function Query(lines: seq<string>): Result<Option<string>> {
    Body(QLines(lines))
  }

  /** What the script does with its query: send it, print a message, or nothing. */
  datatype Outcome = Send(url: string, body: string) | Say(message: string) | Quiet

  function SearchUrl(index: string): string {
    "http://localhost:9200/" + index + "/_search"
  }

  /** species/es_search.py's ES_Search.query: sends the request when there is one. */
  function EsSearchQuery(index: string, lines: seq<string>): Result<Outcome> {
    match Query(lines)
    case Err(e) => Err(e)
    case Ok(None) => Ok(Quiet)
    case Ok(Some(body)) => Ok(Send(SearchUrl(index), body))
  }

  /** jjquery.py's doquery: as ES_Search.query, but says so when the file has no query. */
  function JjQuery(index: string, lines: seq<string>): Result<Outcome> {
    match Query(lines)
    case Err(e) => Err(e)
    case Ok(None) => Ok(Say("File has no query"))
    case Ok(Some(body)) => Ok(Send(SearchUrl(index), body))
  }

  /** The two scripts build the same request; they differ only when there is none, where jjquery.py says so. */
  lemma SameRequest(index: string, lines: seq<string>)
    ensures JjQuery(index, lines) != EsSearchQuery(index, lines) <==> Query(lines) == Ok(None)
    ensures Query(lines) == Ok(None) ==>
      JjQuery(index, lines) == Ok(Say("File has no query")) && EsSearchQuery(index, lines) == Ok(Quiet)
  {
  }

  /** A file holding only comment lines has no query lines: nothing is sent, and jjquery.py says "File has no query". */
  lemma {:induction false} CommentsOnly(index: string, lines: seq<string>)
    requires forall k :: 0 <= k < |lines| ==> |lines[k]| > 0 && lines[k][0] == '#'
    ensures QLines(lines) == Ok([])
    ensures JjQuery(index, lines) == Ok(Say("File has no query")) && EsSearchQuery(index, lines) == Ok(Quiet)
    decreases |lines|
  {
    if |lines| > 0 {
      assert forall k :: 0 <= k < |lines| - 1 ==> lines[1..][k] == lines[k + 1];
      CommentsOnly(index, lines[1..]);
    }
  }

  /** The first part's error, else the second's, else both in order. */
  function Combine(r: Result<seq<Option<string>>>, s: Result<seq<Option<string>>>): Result<seq<Option<string>>> {
    if r.Err? then r else if s.Err? then s else Ok(r.value + s.value)
  }

  /** The query lines of two parts of a file are those of each part, in order; an error in the first part wins. */
  lemma {:induction false} CollectAppend(a: seq<string>, b: seq<string>, qline: string -> Result<Option<string>>)
    ensures Collect(a + b, qline) == Combine(Collect(a, qline), Collect(b, qline))
    decreases |a|
  {
    if |a| == 0 {
      assert a + b == b;
      if Collect(b, qline).Ok? {
        assert [] + Collect(b, qline).value == Collect(b, qline).value;
      }
    } else {
      assert (a + b)[0] == a[0] && (a + b)[1..] == a[1..] + b;
      CollectAppend(a[1..], b, qline);
      var r, s := Collect(a[1..], qline), Collect(b, qline);
      if |a[0]| > 0 && a[0][0] != '#' && qline(a[0]).Ok? && r.Ok? && s.Ok? {
        assert [qline(a[0]).value] + (r.value + s.value) == ([qline(a[0]).value] + r.value) + s.value;
      }
    }
  }

  /** A comment line contributes nothing; an empty line raises IndexError unless an earlier line already failed. */
  lemma CommentAndEmptyLines(a: seq<string>, comment: string, b: seq<string>, qline: string -> Result<Option<string>>)
    requires |comment| > 0 && comment[0] == '#'
    ensures Collect(a + [comment] + b, qline) == Collect(a + b, qline)
    ensures Collect(a, qline).Ok? ==> Collect(a + [""] + b, qline) == Err(IndexError)
  {
    CollectAppend(a, [comment] + b, qline);
    CollectAppend(a, b, qline);
    assert a + [comment] + b == a + ([comment] + b);
    assert ([comment] + b)[1..] == b;
    CollectAppend(a, [""] + b, qline);
    assert a + [""] + b == a + ([""] + b);
  }

  /**
   * The request is built exactly when some query line was collected and every
   * one of them parsed to a fragment; its body is the query template holding
   * the fragments joined by ','. A line that matched no pattern makes the join
   * raise TypeError.
   */
  lemma BodyOutcome(qs: seq<Option<string>>)
    ensures Body(Ok(qs)) == Ok(None) <==> |qs| == 0
    ensures (exists k :: 0 <= k < |qs| && qs[k].None?) ==> Body(Ok(qs)) == Err(TypeError)
    ensures |qs| > 0 && (forall k :: 0 <= k < |qs| ==> qs[k].Some?) ==>
            Body(Ok(qs)) == Ok(Some(Join("\"", QUERY_PIECES[12 := Braced(Join(",", Values(qs)))])))
  {
    if |qs| > 0 && forall k :: 0 <= k < |qs| ==> qs[k].Some? {
      QueryBody(Join(",", Values(qs)));
    }
  }

  lemma CollectOne(line: string, qline: string -> Result<Option<string>>)
    requires |line| > 0 && line[0] != '#' && qline(line).Ok?
    ensures Collect([line], qline) == Ok([qline(line).value])
  {
    assert [line][1..] == [];
    assert Collect([line][1..], qline) == Ok([]);
    assert [qline(line).value] + [] == [qline(line).value];
  }

  /** jjquery.py: a blank line "\n" is not a comment, matches nothing, and so the join fails. */
  lemma BlankLineFails(a: seq<string>, b: seq<string>)
    requires QLines(a).Ok? && QLines(b).Ok?
    ensures JjQuery("", a + ["\n"] + b) == Err(TypeError)
    ensures EsSearchQuery("", a + ["\n"] + b) == Err(TypeError)
  {
    BlankLineLines(a, b);
    var qs := QLines(a).value + [None] + QLines(b).value;
    assert qs[|QLines(a).value|] == None;
    BodyOutcome(qs);
  }

  /** A blank line between two parts contributes None between their query lines. */
  lemma BlankLineLines(a: seq<string>, b: seq<string>)
    requires QLines(a).Ok? && QLines(b).Ok?
    ensures QLines(a + ["\n"] + b) == Ok(QLines(a).value + [None] + QLines(b).value)
  {
    assert AllSpace("\n");
    BlankLineNoMatch("\n");
    CollectAround(a, "\n", b, QLineText);
  }

  /** A line that is no comment and gives None sits between the query lines around it. */
  lemma CollectAround(a: seq<string>, line: string, b: seq<string>, qline: string -> Result<Option<string>>)
    requires Collect(a, qline).Ok? && Collect(b, qline).Ok?
    requires |line| > 0 && line[0] != '#' && qline(line) == Ok(None)
    ensures Collect(a + [line] + b, qline) == Ok(Collect(a, qline).value + [None] + Collect(b, qline).value)
  {
    var xs, ys := Collect(a, qline).value, Collect(b, qline).value;
    assert Collect([line] + b, qline) == Ok([None] + ys) by {
      CollectOne(line, qline);
      CollectAppend([line], b, qline);
    }
    assert Collect(a + ([line] + b), qline) == Ok(xs + ([None] + ys)) by {
      CollectAppend(a, [line] + b, qline);
    }
    assert a + [line] + b == a + ([line] + b);
    assert xs + ([None] + ys) == xs + [None] + ys;
  }
}
