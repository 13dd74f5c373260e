/**
 * Sampler.write_samples: number_samples windows of words, each sample_size_percent
 * of the segment's words long and spread evenly over them, each written once as
 * it is and once reverse complemented.
 */
module Sampler {
  import opened Wrappers
  import opened PyStrings
  import opened Transforms

  /** int(len(words) * sample_size_percent / 100) */
  function WordsPerSample(count: nat, percent: int): int {
    TruncDiv(count * percent, 100)
  }

  /** int((len(words) - words_per_sample * number_samples) / number_samples) */
  function WordsBetween(count: nat, perSample: int, numberSamples: int): int
    requires numberSamples != 0
  {
    TruncDiv(count - perSample * numberSamples, numberSamples)
  }

  /** Where window i starts: left + i * (words_between + words_per_sample), with left = int(words_between / 2). */
  function SampleStart(count: nat, percent: int, numberSamples: int, i: int): int
    requires numberSamples != 0
  {
    var perSample := WordsPerSample(count, percent);
    var between := WordsBetween(count, perSample, numberSamples);
    TruncDiv(between, 2) + i * (between + perSample)
  }

  /** ' '.join(words[start:(start + words_per_sample)]): the words of window i (Python slice bounds). */
  function SampleData(words: seq<string>, percent: int, numberSamples: int, i: int): string
    requires numberSamples != 0
  {
    var start := SampleStart(|words|, percent, numberSamples, i);
    Join(" ", PySlice(words, start, start + WordsPerSample(|words|, percent)))
  }

  function SameLine(location: string, data: string): string {
    location + " same " + data + "\n"
  }

  function ReversedLine(location: string, data: string): string {
    location + " reversed " + data + "\n"
  }

  /** Window k's pair of lines: the window's words as they are, then reverse complemented (which succeeded). */
  predicate PairWritten(location: string, words: seq<string>, percent: int, numberSamples: int,
                        k: int, same: string, reversed: string)
    requires numberSamples != 0
  {
    var data := SampleData(words, percent, numberSamples, k);
    && same == SameLine(location, data)
    && RevComp(data).Ok?
    && reversed == ReversedLine(location, RevComp(data).value)
  }

  /**
   * What write_samples has written when it stops: a "same" line and a "reversed"
   * line for each window before the m-th; with an error, the m-th window's "same"
   * line too, whose reverse complement raised.
   */
  predicate SamplesWritten(location: string, words: seq<string>, percent: int, numberSamples: int,
                           lines: seq<string>, err: Option<PyError>)
    requires numberSamples != 0
  {
    var m := |lines| / 2;
    && (forall k :: 0 <= k < m ==>
          PairWritten(location, words, percent, numberSamples, k, lines[2 * k], lines[2 * k + 1]))
    && (err.None? ==> |lines| == 2 * (if numberSamples > 0 then numberSamples else 0))
    && (err.Some? ==>
          var data := SampleData(words, percent, numberSamples, m);
          && |lines| == 2 * m + 1 && m < numberSamples
          && lines[2 * m] == SameLine(location, data)
          && RevComp(data).Err? && err == Some(RevComp(data).error))
  }

  /** Sampler.write_samples: the lines written to the sample file, and the exception that ended it, if any. */
  method WriteSamples(location: string, segmentData: string, percent: int, numberSamples: int)
    returns (lines: seq<string>, err: Option<PyError>)
    ensures numberSamples == 0 ==> lines == [] && err == Some(ZeroDivisionError)
    ensures numberSamples != 0 ==> SamplesWritten(location, Split(segmentData), percent, numberSamples, lines, err)
  {
    var words := Split(segmentData);
    if numberSamples == 0 {
      return [], Some(ZeroDivisionError);
    }
    var perSample := TruncDiv(|words| * percent, 100);
    var between := TruncDiv(|words| - perSample * numberSamples, numberSamples);
    var left := TruncDiv(between, 2);
    lines := [];
    var i := 0;
    while i < numberSamples
      invariant 0 <= i && (numberSamples > 0 ==> i <= numberSamples) && (numberSamples < 0 ==> i == 0)
      invariant |lines| == 2 * i
      invariant forall k :: 0 <= k < i ==>
        PairWritten(location, words, percent, numberSamples, k, lines[2 * k], lines[2 * k + 1])
    {
      var start := left + i * (between + perSample);
      var data := Join(" ", PySlice(words, start, start + perSample));
      assert data == SampleData(words, percent, numberSamples, i);
      var same := SameLine(location, data);
      var rc := RevComp(data);
      if rc.Err? {
        WrittenUntilError(location, words, percent, numberSamples, lines, i, same);
        return lines + [same], Some(rc.error);
      }
      var reversed := ReversedLine(location, rc.value);
      PairsExtend(location, words, percent, numberSamples, lines, i, same, reversed);
      lines := lines + [same, reversed];
      i := i + 1;
    }
    WrittenAll(location, words, percent, numberSamples, lines, i);
    err := None;
  }

  lemma Halves(m: int)
    ensures (2 * m) / 2 == m && (2 * m + 1) / 2 == m
  {
  }

  lemma PairsExtend(location: string, words: seq<string>, percent: int, numberSamples: int,
                    lines: seq<string>, m: nat, same: string, reversed: string)
    requires numberSamples != 0 && |lines| == 2 * m
    requires forall k :: 0 <= k < m ==>
      PairWritten(location, words, percent, numberSamples, k, lines[2 * k], lines[2 * k + 1])
    requires PairWritten(location, words, percent, numberSamples, m, same, reversed)
    ensures var lines' := lines + [same, reversed];
      forall k :: 0 <= k < m + 1 ==>
        PairWritten(location, words, percent, numberSamples, k, lines'[2 * k], lines'[2 * k + 1])
  {
    var lines' := lines + [same, reversed];
    forall k | 0 <= k < m + 1
      ensures PairWritten(location, words, percent, numberSamples, k, lines'[2 * k], lines'[2 * k + 1])
    {
      if k < m {
        assert lines'[2 * k] == lines[2 * k] && lines'[2 * k + 1] == lines[2 * k + 1];
      }
    }
  }

  lemma WrittenAll(location: string, words: seq<string>, percent: int, numberSamples: int,
                   lines: seq<string>, m: nat)
    requires numberSamples != 0 && m == (if numberSamples > 0 then numberSamples else 0) && |lines| == 2 * m
    requires forall k :: 0 <= k < m ==>
      PairWritten(location, words, percent, numberSamples, k, lines[2 * k], lines[2 * k + 1])
    ensures SamplesWritten(location, words, percent, numberSamples, lines, None)
  {
    Halves(m);
  }

  lemma WrittenUntilError(location: string, words: seq<string>, percent: int, numberSamples: int,
                          lines: seq<string>, m: nat, same: string)
    requires numberSamples != 0 && |lines| == 2 * m && m < numberSamples
    requires forall k :: 0 <= k < m ==>
      PairWritten(location, words, percent, numberSamples, k, lines[2 * k], lines[2 * k + 1])
    requires var data := SampleData(words, percent, numberSamples, m);
      same == SameLine(location, data) && RevComp(data).Err?
    ensures var data := SampleData(words, percent, numberSamples, m);
      SamplesWritten(location, words, percent, numberSamples, lines + [same], Some(RevComp(data).error))
  {
    var lines' := lines + [same];
    Halves(m);
    assert |lines'| / 2 == m;
    forall k | 0 <= k < m
      ensures PairWritten(location, words, percent, numberSamples, k, lines'[2 * k], lines'[2 * k + 1])
    {
      assert lines'[2 * k] == lines[2 * k] && lines'[2 * k + 1] == lines[2 * k + 1];
    }
  }

  lemma MulMono(a: int, b: int, c: int)
    requires 0 <= a <= b && 0 <= c
    ensures a * c <= b * c
  {
  }

  lemma DivTimesLe(x: int, n: int)
    requires 0 <= x && 1 <= n
    ensures 0 <= x / n && (x / n) * n <= x
  {
  }

  /** The window arithmetic on plain numbers: b words between, p per window, n windows, left margin at most b. */
  lemma WindowInside(count: int, p: int, n: int, b: int, left: int, i: int)
    requires n >= 1 && p >= 0 && b >= 0 && 0 <= left <= b && 0 <= i < n
    requires b * n + p * n <= count
    ensures 0 <= left + i * (b + p) && left + i * (b + p) + p <= count
    ensures left + (i + 1) * (b + p) == left + i * (b + p) + b + p
  {
    MulMono(0, i, b + p);
    MulMono(i, n - 1, b + p);
    assert (n - 1) * (b + p) == b * n + p * n - b - p;
  }

  /**
   * When the segment has at least words_per_sample * number_samples words, every
   * window lies inside the word list, holds exactly words_per_sample words, and
   * ends before the next one starts.
   */
  lemma SamplesInside(words: seq<string>, percent: int, numberSamples: int, i: int)
    requires numberSamples >= 1 && percent >= 0
    requires |words| >= WordsPerSample(|words|, percent) * numberSamples
    requires 0 <= i < numberSamples
    ensures var start, perSample := SampleStart(|words|, percent, numberSamples, i), WordsPerSample(|words|, percent);
      && 0 <= start && start + perSample <= |words|
      && |PySlice(words, start, start + perSample)| == perSample
      && (i + 1 < numberSamples ==> start + perSample <= SampleStart(|words|, percent, numberSamples, i + 1))
  {
    var count, n := |words|, numberSamples;
    MulMono(0, count, percent);
    var p := WordsPerSample(count, percent);
    var rest := count - p * n;
    var b := WordsBetween(count, p, n);
    DivTimesLe(rest, n);
    assert b == rest / n;
    var left := TruncDiv(b, 2);
    WindowInside(count, p, n, b, left, i);
  }

  /**
   * With more requested than the words hold, a window can start before 0 and
   * Python's slice then counts from the end: ten words sampled at 100% three
   * times give an empty first window.
   */
  lemma OversampledWindowExample(words: seq<string>)
    requires |words| == 10
    ensures SampleStart(10, 100, 3, 0) == -3
    ensures SampleData(words, 100, 3, 0) == ""
  {
    assert WordsPerSample(10, 100) == 10;
    assert WordsBetween(10, 10, 3) == -6;
    assert TruncDiv(-6, 2) == -3;
    assert PySlice(words, -3, 7) == [];
  }
}
