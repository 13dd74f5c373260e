/**
 * data/mkcsv.py: search results stored one file per sampled segment are
 * turned into CSV, either one row per shown hit (a graph row or a table
 * row) or, in count mode, the number of good hits per matched
 * species_chromosome.
 *
 * The directory listing and the JSON files are inputs: each file is its
 * name and its hits, with the score already converted by int(float(...)).
 */
module MkCsv {
  import opened Wrappers
  import opened PyStrings

  const MIN_SCORE := 250
  const SAME := "same"
  const ALL := "ALL"
  const MILLION := 1000000

  /** One stored hit: its score and the matched segment's species, chromosome and location. */
  datatype Hit = Hit(score: int, species: string, chromosome: string, location: int)

  /** What a result file's name says about the sampled segment. */
  datatype FileName = FileName(species: string, chromosome: string, location: string, reversed: bool)

  /** x2: chromosomes 2A and 2B both count as 2. */
  function X2(s: string): (r: string)
    ensures r == "2" || r == s
    ensures (s == "2A" || s == "2B") ==> r == "2"
    ensures s != "2A" && s != "2B" ==> r == s
  {
    if s == "2A" || s == "2B" then "2" else s
  }

  /** include_hit: "same" compares the x2 forms of both chromosomes; anything else must equal the match's chromosome. */
  predicate IncludeHit(chromosome: string, chromosome2: string, matchChromosome: string) {
    if chromosome2 == SAME then X2(chromosome) == X2(matchChromosome) else matchChromosome == chromosome2
  }

  /** The species drawn above a species (human, chimp, gorilla in a cycle). */
  function Above(species: string): (r: string)
    ensures r in {"human", "chimp", "gorilla"}
  {
    if species == "human" then "gorilla" else if species == "chimp" then "human" else "chimp"
  }

  /** The species drawn below a species. */
  function Below(species: string): (r: string)
    ensures r in {"human", "chimp", "gorilla"}
  {
    if species == "human" then "chimp" else if species == "chimp" then "gorilla" else "human"
  }

  /** species_y: the checked species at 200, the one above at 400, the one below at 0. */
  function SpeciesY(checkSpecies: string): map<string, int> {
    map[checkSpecies := 200][Above(checkSpecies) := 400][Below(checkSpecies) := 0]
  }

  /** chk_chromo: "ALL" matches every chromosome. */
  predicate ChkChromo(checkChromosome: string, chromosome: string) {
    checkChromosome == ALL || checkChromosome == chromosome
  }

  /**
   * A result file's name: the part before the first '.', split on '_'; the
   * last three parts name the segment, and four parts mean a reversed
   * sample. Fewer than three parts cannot be unpacked (ValueError).
   */
  function ParseFileName(file: string): (r: Result<FileName>)
    ensures r.Err? <==> |SplitStr(SplitStr(file, ".")[0], "_")| < 3
    ensures r.Err? ==> r.error == ValueError
  {
    var data := SplitStr(SplitStr(file, ".")[0], "_");
    var n := |data|;
    if n < 3 then Err(ValueError)
    else Ok(FileName(data[n - 3], data[n - 2], data[n - 1], n == 4))
  }

  /** The file belongs to the checked species and chromosome. */
  predicate Selected(f: FileName, checkSpecies: string, checkChromosome: string) {
    f.species == checkSpecies && ChkChromo(checkChromosome, f.chromosome)
  }

  function Color(reversed: bool): string {
    if reversed then "inversed" else "same orientation"
  }

  /** A hit worth showing: another species, an included chromosome and a score above MIN_SCORE. */
  predicate Shown(chromosome2: string, species: string, chromosome: string, hit: Hit) {
    species != hit.species && IncludeHit(chromosome, chromosome2, hit.chromosome) && hit.score > MIN_SCORE
  }

  /**
   * show_hit: the row printed for one hit, if any. The file's location is
   * converted first (ValueError when it is not a number), and locations are
   * counted in millions (truncating). A graph row looks both species up in
   * species_y and raises KeyError for a species it does not hold.
   */
  function ShowHit(graph: bool, chromosome2: string, speciesY: map<string, int>, f: FileName, hit: Hit): (r: Result<Option<string>>)
    ensures r.Ok? && r.value.Some? ==> Shown(chromosome2, f.species, f.chromosome, hit)
    ensures PyInt(f.location).Ok? && !Shown(chromosome2, f.species, f.chromosome, hit) ==> r == Ok(None)
    ensures PyInt(f.location).Err? <==> r == Err(ValueError)
    ensures r.Err? && PyInt(f.location).Ok? ==> graph && r.error in {MissingKey(f.species), MissingKey(hit.species)}
  {
    match PyInt(f.location)
    case Err(e) => Err(e)
    case Ok(sourceLocation) =>
      var location := TruncDiv(sourceLocation, MILLION);
      var matchLocation := TruncDiv(hit.location, MILLION);
      if !Shown(chromosome2, f.species, f.chromosome, hit) then Ok(None)
      else if graph then
        if f.species !in speciesY then Err(MissingKey(f.species))
        else if hit.species !in speciesY then Err(MissingKey(hit.species))
        else Ok(Some(Join(",", [IntToString(location), IntToString(speciesY[f.species]), IntToString(matchLocation),
                                IntToString(speciesY[hit.species]), Color(f.reversed)])))
      else Ok(Some(Join(",", [f.species, f.chromosome, IntToString(location), IntToString(hit.score), hit.species,
                              hit.chromosome, IntToString(matchLocation), Color(f.reversed)])))
  }

  // ---------------------------------------------------------------- count mode

  /** The counts key of a hit: "species_chromosome". */
  function Key(hit: Hit): string {
    hit.species + "_" + hit.chromosome
  }

  /** How many hits above MIN_SCORE carry the key. */
  function CountOf(hits: seq<Hit>, key: string): nat {
    if |hits| == 0 then 0
    else CountOf(hits[..|hits| - 1], key) + (if Key(hits[|hits| - 1]) == key && hits[|hits| - 1].score > MIN_SCORE then 1 else 0)
  }

  /** counts.get(key, 0). */
  function Get(counts: map<string, nat>, key: string): nat {
    if key in counts then counts[key] else 0
  }

  /** Every key held has been counted at least once. */
  predicate Positive(counts: map<string, nat>) {
    forall key :: key in counts ==> counts[key] > 0
  }

  /** The directory listing's `.json` entries, in listing order; every other entry is skipped. */
  function JsonFiles(listing: seq<(string, seq<Hit>)>): (r: seq<(string, seq<Hit>)>)
    ensures forall x :: x in r <==> x in listing && EndsWith(x.0, ".json")
    ensures |r| <= |listing|
    decreases |listing|
  {
    if |listing| == 0 then []
    else
      var init, last := listing[..|listing| - 1], listing[|listing| - 1];
      assert listing == init + [last];
      if EndsWith(last.0, ".json") then JsonFiles(init) + [last] else JsonFiles(init)
  }

  /** The hits count mode goes through: those of the selected files, in listing order; a bad name stops it. */
  function CountedHits(files: seq<(string, seq<Hit>)>, checkSpecies: string, checkChromosome: string): Result<seq<Hit>>
    decreases |files|
  {
    if |files| == 0 then Ok([])
    else
      match CountedHits(files[..|files| - 1], checkSpecies, checkChromosome)
      case Err(e) => Err(e)
      case Ok(hits) =>
        var (name, more) := files[|files| - 1];
        match ParseFileName(name)
        case Err(e) => Err(e)
        case Ok(f) => if Selected(f, checkSpecies, checkChromosome) then Ok(hits + more) else Ok(hits)
  }

  /** The inner loop of count mode: every hit above MIN_SCORE adds one to its key. */
  method AddCounts(counts0: map<string, nat>, hits: seq<Hit>) returns (counts: map<string, nat>)
    requires Positive(counts0)
    ensures Positive(counts)
    ensures forall key :: Get(counts, key) == Get(counts0, key) + CountOf(hits, key)
  {
    counts := counts0;
    var i := 0;
    while i < |hits|
      invariant 0 <= i <= |hits|
      invariant Positive(counts)
      invariant forall key :: Get(counts, key) == Get(counts0, key) + CountOf(hits[..i], key)
    {
      var hit := hits[i];
      assert hits[..i + 1][..i] == hits[..i];
      if hit.score > MIN_SCORE {
        var key := Key(hit);
        counts := counts[key := Get(counts, key) + 1];
      }
      i := i + 1;
    }
    assert hits[..i] == hits;
  }

  /** Count mode: the counts over the selected `.json` files of the listing, or the error of the first bad file name among them. */
  method CountMode(listing: seq<(string, seq<Hit>)>, checkSpecies: string, checkChromosome: string) returns (r: Result<map<string, nat>>)
    ensures r.Err? <==> CountedHits(JsonFiles(listing), checkSpecies, checkChromosome).Err?
    ensures r.Err? ==> r.error == ValueError
    ensures r.Ok? ==> (Positive(r.value)
      && forall key :: Get(r.value, key) == CountOf(CountedHits(JsonFiles(listing), checkSpecies, checkChromosome).value, key))
  {
    r := CountFiles(JsonFiles(listing), checkSpecies, checkChromosome);
  }

  /** The loop of count mode over the `.json` files: the counts over the selected ones, or the error of the first bad name. */
  method CountFiles(files: seq<(string, seq<Hit>)>, checkSpecies: string, checkChromosome: string) returns (r: Result<map<string, nat>>)
    ensures r.Err? <==> CountedHits(files, checkSpecies, checkChromosome).Err?
    ensures r.Err? ==> r.error == ValueError
    ensures r.Ok? ==> (Positive(r.value)
      && forall key :: Get(r.value, key) == CountOf(CountedHits(files, checkSpecies, checkChromosome).value, key))
  {
    var counts: map<string, nat> := map[];
    ghost var seen: seq<Hit> := [];
    var i := 0;
    while i < |files|
      invariant 0 <= i <= |files|
      invariant CountedHits(files[..i], checkSpecies, checkChromosome) == Ok(seen)
      invariant Positive(counts)
      invariant forall key :: Get(counts, key) == CountOf(seen, key)
    {
      var (name, hits) := files[i];
      var parsed := ParseFileName(name);
      if parsed.Err? {
        CountedHitsError(files, i, checkSpecies, checkChromosome);
        return Err(ValueError);
      }
      CountedHitsNext(files, i, checkSpecies, checkChromosome, seen);
      if Selected(parsed.value, checkSpecies, checkChromosome) {
        counts := AddCounts(counts, hits);
        forall key ensures Get(counts, key) == CountOf(seen + hits, key) {
          CountOfAppend(seen, hits, key);
        }
        seen := seen + hits;
      }
      i := i + 1;
    }
    assert files[..i] == files;
    return Ok(counts);
  }

  // ---------------------------------------------------------------- lemmas

  /** x2 is idempotent. */
  lemma X2Idempotent(s: string)
    ensures X2(X2(s)) == X2(s)
  {
  }

  /** With "same", chromosome 2A matches 2B and 2; an explicit chromosome2 matches only itself. */
  lemma IncludeHitCases(chromosome: string, chromosome2: string, matchChromosome: string)
    ensures chromosome2 != SAME ==> (IncludeHit(chromosome, chromosome2, matchChromosome) <==> matchChromosome == chromosome2)
    ensures chromosome2 == SAME && chromosome in {"2", "2A", "2B"} ==>
      (IncludeHit(chromosome, chromosome2, matchChromosome) <==> matchChromosome in {"2", "2A", "2B"})
    ensures chromosome2 == SAME && chromosome !in {"2", "2A", "2B"} ==>
      (IncludeHit(chromosome, chromosome2, matchChromosome) <==> matchChromosome == chromosome)
  {
  }

  /** Above and below undo each other on the three species. */
  lemma AboveBelowInverse(species: string)
    requires species in {"human", "chimp", "gorilla"}
    ensures Below(Above(species)) == species && Above(Below(species)) == species
    ensures Above(species) != species && Below(species) != species && Above(species) != Below(species)
  {
  }

  /** species_y always holds three species, the checked one at 200, whatever is checked. */
  lemma SpeciesYKeys(checkSpecies: string)
    ensures |SpeciesY(checkSpecies).Keys| == 3
    ensures SpeciesY(checkSpecies)[checkSpecies] == 200
    ensures SpeciesY(checkSpecies)[Above(checkSpecies)] == 400 && SpeciesY(checkSpecies)[Below(checkSpecies)] == 0
  {
    var m := SpeciesY(checkSpecies);
    assert Above(checkSpecies) != checkSpecies && Below(checkSpecies) != checkSpecies && Above(checkSpecies) != Below(checkSpecies);
    assert m.Keys == {checkSpecies} + {Above(checkSpecies)} + {Below(checkSpecies)};
  }

  /** "ALL" is a wildcard; otherwise only the same chromosome passes. */
  lemma ChkChromoCases(checkChromosome: string, chromosome: string)
    ensures checkChromosome == ALL ==> ChkChromo(checkChromosome, chromosome)
    ensures checkChromosome != ALL ==> (ChkChromo(checkChromosome, chromosome) <==> chromosome == checkChromosome)
  {
  }

  /**
   * A name "[prefix_]species_chromosome_location.ext" parses back into its
   * parts, reversed exactly when the prefix is there.
   */
  lemma ParseFileNameRoundTrip(prefix: Option<string>, species: string, chromosome: string, location: string, ext: string)
    requires '_' !in species && '_' !in chromosome && '_' !in location
    requires '.' !in species && '.' !in chromosome && '.' !in location
    requires prefix.Some? ==> '_' !in prefix.value && '.' !in prefix.value
    ensures var parts := [species, chromosome, location];
      var fields := if prefix.Some? then [prefix.value] + parts else parts;
      ParseFileName(Join("_", fields) + "." + ext) == Ok(FileName(species, chromosome, location, prefix.Some?))
  {
    var parts := [species, chromosome, location];
    var fields := if prefix.Some? then [prefix.value] + parts else parts;
    var stem := Join("_", fields);
    forall k | 0 <= k < |fields| ensures '_' !in fields[k] && '.' !in fields[k] {
    }
    JoinFreeOf(fields, "_", '.');
    SplitCharAt(stem, '.', ext);
    SplitCharAbsent(stem, '.');
    assert stem + "." + ext == stem + ['.'] + ext;
    SplitJoinChar(fields, '_');
  }

  /**
   * A name "f1_f2_..._fn.ext" with '_'- and '.'-free fields: fewer than three
   * fields raise ValueError; otherwise the last three fields name the
   * segment, and the sample is reversed exactly when there are four fields.
   */
  lemma ParseFileNameFields(fields: seq<string>, ext: string)
    requires |fields| >= 1
    requires forall k :: 0 <= k < |fields| ==> '_' !in fields[k] && '.' !in fields[k]
    ensures var n := |fields|;
      ParseFileName(Join("_", fields) + "." + ext) ==
        if n < 3 then Err(ValueError) else Ok(FileName(fields[n - 3], fields[n - 2], fields[n - 1], n == 4))
  {
    var stem := Join("_", fields);
    JoinFreeOf(fields, "_", '.');
    SplitCharAt(stem, '.', ext);
    SplitCharAbsent(stem, '.');
    assert stem + "." + ext == stem + ['.'] + ext;
    SplitJoinChar(fields, '_');
  }

  /** Joining pieces free of a character with a separator free of it gives a text free of it. */
  lemma {:induction false} JoinFreeOf(ws: seq<string>, sep: string, c: char)
    requires c !in sep && forall k :: 0 <= k < |ws| ==> c !in ws[k]
    ensures c !in Join(sep, ws)
  {
    if |ws| > 1 {
      JoinFreeOf(ws[1..], sep, c);
    }
  }

  /** A row whose last field is the colour ends with "inversed" exactly for a reversed sample. */
  lemma ColorLast(init: seq<string>, reversed: bool)
    requires |init| > 0
    ensures EndsWith(Join(",", init + [Color(reversed)]), "inversed") <==> reversed
  {
    var color := Color(reversed);
    var row := Join(",", init + [color]);
    JoinSnoc(",", init, color);
    assert row[|row| - |color|..] == color;
    assert row[|row| - 1] == color[|color| - 1];
  }

  /** A shown row ends with "inversed" exactly for a reversed sample. */
  lemma ShownColor(graph: bool, chromosome2: string, speciesY: map<string, int>, f: FileName, hit: Hit)
    requires ShowHit(graph, chromosome2, speciesY, f, hit).Ok? && ShowHit(graph, chromosome2, speciesY, f, hit).value.Some?
    ensures var row := ShowHit(graph, chromosome2, speciesY, f, hit).value.value;
      EndsWith(row, "inversed") <==> f.reversed
  {
    var location := TruncDiv(PyInt(f.location).value, MILLION);
    var matchLocation := TruncDiv(hit.location, MILLION);
    var color := Color(f.reversed);
    if graph {
      var init := [IntToString(location), IntToString(speciesY[f.species]), IntToString(matchLocation), IntToString(speciesY[hit.species])];
      assert init + [color] == [IntToString(location), IntToString(speciesY[f.species]), IntToString(matchLocation),
                                IntToString(speciesY[hit.species]), color];
      ColorLast(init, f.reversed);
    } else {
      var init := [f.species, f.chromosome, IntToString(location), IntToString(hit.score), hit.species,
                   hit.chromosome, IntToString(matchLocation)];
      assert init + [color] == [f.species, f.chromosome, IntToString(location), IntToString(hit.score), hit.species,
                                hit.chromosome, IntToString(matchLocation), color];
      ColorLast(init, f.reversed);
    }
  }

  /** A shown hit that is not graphed always gives a row; a graphed one does when species_y knows both species. */
  lemma ShownGivesRow(graph: bool, chromosome2: string, speciesY: map<string, int>, f: FileName, hit: Hit)
    requires Shown(chromosome2, f.species, f.chromosome, hit) && PyInt(f.location).Ok?
    requires graph ==> f.species in speciesY && hit.species in speciesY
    ensures ShowHit(graph, chromosome2, speciesY, f, hit).Ok? && ShowHit(graph, chromosome2, speciesY, f, hit).value.Some?
  {
  }

  /** Counts over two runs of hits add up. */
  lemma {:induction false} CountOfAppend(a: seq<Hit>, b: seq<Hit>, key: string)
    ensures CountOf(a + b, key) == CountOf(a, key) + CountOf(b, key)
    decreases |b|
  {
    if |b| == 0 {
      assert a + b == a;
    } else {
      assert (a + b)[..|a + b| - 1] == a + b[..|b| - 1];
      CountOfAppend(a, b[..|b| - 1], key);
    }
  }

  /** One more well-named file: its hits join the counted ones exactly when it is selected. */
  lemma CountedHitsNext(files: seq<(string, seq<Hit>)>, i: nat, checkSpecies: string, checkChromosome: string, seen: seq<Hit>)
    requires i < |files| && ParseFileName(files[i].0).Ok? && CountedHits(files[..i], checkSpecies, checkChromosome) == Ok(seen)
    ensures CountedHits(files[..i + 1], checkSpecies, checkChromosome)
         == Ok(if Selected(ParseFileName(files[i].0).value, checkSpecies, checkChromosome) then seen + files[i].1 else seen)
  {
    assert files[..i + 1][..i] == files[..i];
  }

  /** The file at position i with a bad name makes the whole listing fail, given the ones before it read fine. */
  lemma {:induction false} CountedHitsError(files: seq<(string, seq<Hit>)>, i: nat, checkSpecies: string, checkChromosome: string)
    requires i < |files| && ParseFileName(files[i].0).Err? && CountedHits(files[..i], checkSpecies, checkChromosome).Ok?
    ensures CountedHits(files, checkSpecies, checkChromosome).Err?
    decreases |files|
  {
    assert files[..i + 1][..i] == files[..i];
    if i + 1 < |files| {
      CountedHitsStaysFailed(files, i + 1, checkSpecies, checkChromosome);
    } else {
      assert files[..i + 1] == files;
    }
  }

  /** Once a prefix of the listing fails, every longer prefix fails. */
  lemma {:induction false} CountedHitsStaysFailed(files: seq<(string, seq<Hit>)>, n: nat, checkSpecies: string, checkChromosome: string)
    requires 0 < n <= |files| && CountedHits(files[..n], checkSpecies, checkChromosome).Err?
    ensures CountedHits(files, checkSpecies, checkChromosome).Err?
    decreases |files| - n
  {
    if n < |files| {
      assert files[..n + 1][..n] == files[..n];
      CountedHitsStaysFailed(files, n + 1, checkSpecies, checkChromosome);
    } else {
      assert files[..n] == files;
    }
  }
}
