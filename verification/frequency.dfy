/**
 * Letter statistics of a text: the per-letter count histogram in alphabet order,
 * its percentages, and the shape of the per-slice key-letter ranking, which scores
 * every rotation of a slice's histogram and sorts the letters by that score.
 */
module Frequency {
  import opened Wrappers
  import opened Alphabet
  import opened Slicing
  import opened StableSort

  /** A character that is not a letter has no counter (a missing-key error), and an
      empty text divides by zero when the counts become percentages. */
  datatype FrequencyError = UnknownLetter(symbol: char) | EmptyText

  predicate AllLetters(text: string)
  {
    forall j :: 0 <= j < |text| ==> IsLetter(text[j])
  }

  /** Index of the first character that is not a letter, or `|text|` if there is none. */
  function FirstNonLetter(text: string): (k: nat)
    ensures k <= |text|
    ensures forall j :: 0 <= j < k ==> IsLetter(text[j])
    ensures k < |text| ==> !IsLetter(text[k])
  {
    if text == [] || !IsLetter(text[0]) then 0 else 1 + FirstNonLetter(text[1..])
  }

  /** How often each letter occurs in `text`, by alphabet position. */
  function Histogram(text: string): (h: seq<nat>)
    ensures |h| == N
  {
    seq(N, i requires 0 <= i < N => multiset(text)[Letter(i)])
  }

  /** Each count as a percentage of `n`. */
  function Percentages(counts: seq<nat>, n: nat): (p: seq<real>)
    requires n > 0
    ensures |p| == |counts|
  {
    seq(|counts|, i requires 0 <= i < |counts| => counts[i] as real / n as real * 100.0)
  }

  /** What the frequency computation yields: the first stray character's error, the
      empty-text error, or the percentage of each letter in alphabet order. */
  function LetterFrequencies(text: string): (r: Result<seq<real>, FrequencyError>)
    ensures r.Ok? <==> AllLetters(text) && |text| > 0
    ensures r.Ok? ==> |r.value| == N
    ensures r == Err(EmptyText) <==> text == []
    ensures r.Err? && r.error.UnknownLetter? ==> r.error.symbol in text && !IsLetter(r.error.symbol)
  {
    var k := FirstNonLetter(text);
    if k < |text| then Err(UnknownLetter(text[k]))
    else if |text| == 0 then Err(EmptyText)
    else Ok(Percentages(Histogram(text), |text|))
  }

  /** Count the letters one by one into per-letter counters, then turn the counts into
      percentages of the text's length. */
  method CalculateLetterFrequency(text: string) returns (r: Result<seq<real>, FrequencyError>)
    ensures r == LetterFrequencies(text)
  {
    var counts: seq<nat> := seq(N, _ => 0);
    for k := 0 to |text|
      invariant forall j :: 0 <= j < k ==> IsLetter(text[j])
      invariant counts == Histogram(text[..k])
    {
      var letter := text[k];
      if !IsLetter(letter) {
        return Err(UnknownLetter(letter));
      }
      var idx := IndexOf(letter);
      assert text[..k + 1] == text[..k] + [letter];
      LettersDistinct();
      counts := counts[idx := counts[idx] + 1];
    }
    assert text[..|text|] == text;
    if |text| == 0 {
      return Err(EmptyText);
    }
    r := Ok(Percentages(counts, |text|));
  }

  function Sum(s: seq<nat>): nat
  {
    if s == [] then 0 else s[0] + Sum(s[1..])
  }

  function SumReal(s: seq<real>): real
  {
    if s == [] then 0.0 else s[0] + SumReal(s[1..])
  }

  lemma {:induction false} SumIncrement(s: seq<nat>, i: int)
    requires 0 <= i < |s|
    ensures Sum(s[i := s[i] + 1]) == Sum(s) + 1
  {
    if i > 0 {
      SumIncrement(s[1..], i - 1);
      assert s[i := s[i] + 1][1..] == s[1..][i - 1 := s[i] + 1];
    }
  }

  lemma {:induction false} SumZero(n: nat)
    ensures Sum(seq(n, _ => 0)) == 0
  {
    if n > 0 {
      SumZero(n - 1);
      assert seq(n, _ => 0)[1..] == seq(n - 1, _ => 0);
    }
  }

  /** On a text made only of letters the counts add up to the text's length. */
  lemma {:induction false} HistogramSum(text: string)
    requires AllLetters(text)
    ensures Sum(Histogram(text)) == |text|
  {
    if text == [] {
      assert Histogram(text) == seq(N, _ => 0);
      SumZero(N);
      return;
    }
    var init, c := text[..|text| - 1], text[|text| - 1];
    HistogramSum(init);
    assert text == init + [c];
    var idx := IndexOf(c);
    LettersDistinct();
    assert Histogram(text) == Histogram(init)[idx := Histogram(init)[idx] + 1];
    SumIncrement(Histogram(init), idx);
  }

  /** The percentages of a list are its head's percentage followed by the tail's. */
  lemma PercentagesTail(counts: seq<nat>, n: nat)
    requires n > 0 && counts != []
    ensures Percentages(counts, n)[1..] == Percentages(counts[1..], n)
  {
  }

  /** Adding one count's percentage to a scaled sum scales the larger sum. */
  lemma PercentStep(c: nat, rest: real, restSum: nat, n: nat)
    requires n > 0 && rest == restSum as real * (100.0 / n as real)
    ensures c as real / n as real * 100.0 + rest == (c + restSum) as real * (100.0 / n as real)
  {
    var x := 100.0 / n as real;
    assert c as real / n as real * 100.0 == c as real * x;
    assert c as real * x + restSum as real * x == (c as real + restSum as real) * x;
  }

  lemma {:induction false} PercentagesSum(counts: seq<nat>, n: nat)
    requires n > 0
    ensures SumReal(Percentages(counts, n)) == Sum(counts) as real * (100.0 / n as real)
  {
    if counts != [] {
      PercentagesTail(counts, n);
      PercentagesSum(counts[1..], n);
      PercentStep(counts[0], SumReal(Percentages(counts[1..], n)), Sum(counts[1..]), n);
    }
  }

  /** Whenever the frequencies exist they are one percentage per letter, in alphabet
      order, each the letter's count over the length, and together they make 100. */
  lemma FrequenciesAreADistribution(text: string)
    requires LetterFrequencies(text).Ok?
    ensures AllLetters(text) && |text| > 0
    ensures |LetterFrequencies(text).value| == N
    ensures forall i :: 0 <= i < N ==>
      LetterFrequencies(text).value[i] == multiset(text)[Letter(i)] as real / |text| as real * 100.0
    ensures SumReal(LetterFrequencies(text).value) == 100.0
  {
    HistogramSum(text);
    PercentagesSum(Histogram(text), |text|);
    var n := |text| as real;
    assert n * (100.0 / n) == 100.0;
  }

  /** One candidate key letter with the misfit score of its rotation. */
  datatype LetterScore = LetterScore(letter: char, error: real)

  function ErrorOf(s: LetterScore): real
  {
    s.error
  }

  /** Alphabet position of the scored letter (-1 for a non-letter). */
  function PositionOf(s: LetterScore): int
  {
    if IsLetter(s.letter) then IndexOf(s.letter) else -1
  }

  /** For every letter, the score `fit` gives the histogram rotated left by that
      letter's position; in alphabet order. */
  function RotationScores(frequencies: seq<real>, fit: seq<real> -> real): (s: seq<LetterScore>)
    ensures |s| == N
  {
    seq(N, i requires 0 <= i < N => LetterScore(Letter(i), fit(Rotate(frequencies, i))))
  }

  /** The key-letter ranking for one slice. The misfit `fit` (a root-mean-square error
      against the reference frequencies in the program) is a parameter of the model. */
  method PredictKeySliceLetters(keySlice: string, fit: seq<real> -> real)
    returns (r: Result<seq<LetterScore>, FrequencyError>)
    ensures r.Err? <==> LetterFrequencies(keySlice).Err?
    ensures r.Err? ==> r.error == LetterFrequencies(keySlice).error
    ensures r.Ok? ==> r.value == SortBy(RotationScores(LetterFrequencies(keySlice).value, fit), ErrorOf)
  {
    var frequencies := CalculateLetterFrequency(keySlice);
    if frequencies.Err? {
      return Err(frequencies.error);
    }
    var letterProbabilities: seq<LetterScore> := [];
    for i := 0 to N
      invariant letterProbabilities == RotationScores(frequencies.value, fit)[..i]
    {
      var totalError := fit(Rotate(frequencies.value, i));
      letterProbabilities := letterProbabilities + [LetterScore(Letter(i), totalError)];
    }
    assert letterProbabilities == RotationScores(frequencies.value, fit);
    r := Ok(SortBy(letterProbabilities, ErrorOf));
  }

  /** The unsorted scores are in strictly increasing alphabet position. */
  lemma RotationScoresRanked(frequencies: seq<real>, fit: seq<real> -> real)
    ensures StrictlyRanked(RotationScores(frequencies, fit), PositionOf)
    ensures forall i :: 0 <= i < N ==> PositionOf(RotationScores(frequencies, fit)[i]) == i
  {
    var scores := RotationScores(frequencies, fit);
    forall i | 0 <= i < N
      ensures PositionOf(scores[i]) == i
    {
      IndexOfLetter(i);
    }
  }

  /** The ranking holds every letter exactly once with the score of its own rotation,
      sorted by ascending score, ties in alphabet order. */
  lemma RankingIsSortedPermutation(frequencies: seq<real>, fit: seq<real> -> real, ranking: seq<LetterScore>)
    requires ranking == SortBy(RotationScores(frequencies, fit), ErrorOf)
    ensures |ranking| == N
    ensures SortedBy(ranking, ErrorOf, PositionOf)
    ensures forall i :: 0 <= i < N ==> LetterScore(Letter(i), fit(Rotate(frequencies, i))) in ranking
    ensures forall e :: e in ranking ==> IsLetter(e.letter) && e.error == fit(Rotate(frequencies, IndexOf(e.letter)))
  {
    var scores := RotationScores(frequencies, fit);
    RotationScoresRanked(frequencies, fit);
    SortByStable(scores, ErrorOf, PositionOf);
    assert |multiset(ranking)| == |multiset(scores)|;
    RankingHoldsEveryLetter(frequencies, fit, ranking);
    RankingScoresOwnRotation(frequencies, fit, ranking);
  }

  lemma RankingHoldsEveryLetter(frequencies: seq<real>, fit: seq<real> -> real, ranking: seq<LetterScore>)
    requires multiset(ranking) == multiset(RotationScores(frequencies, fit))
    ensures forall i :: 0 <= i < N ==> LetterScore(Letter(i), fit(Rotate(frequencies, i))) in ranking
  {
    var scores := RotationScores(frequencies, fit);
    forall i | 0 <= i < N
      ensures LetterScore(Letter(i), fit(Rotate(frequencies, i))) in ranking
    {
      assert scores[i] == LetterScore(Letter(i), fit(Rotate(frequencies, i)));
      assert scores[i] in multiset(scores);
    }
  }

  lemma RankingScoresOwnRotation(frequencies: seq<real>, fit: seq<real> -> real, ranking: seq<LetterScore>)
    requires multiset(ranking) == multiset(RotationScores(frequencies, fit))
    ensures forall e :: e in ranking ==> IsLetter(e.letter) && e.error == fit(Rotate(frequencies, IndexOf(e.letter)))
  {
    forall e | e in ranking
      ensures IsLetter(e.letter) && e.error == fit(Rotate(frequencies, IndexOf(e.letter)))
    {
      assert e in multiset(ranking);
      ScoreOfMember(frequencies, fit, e);
    }
  }

  lemma ScoreOfMember(frequencies: seq<real>, fit: seq<real> -> real, e: LetterScore)
    requires e in RotationScores(frequencies, fit)
    ensures IsLetter(e.letter) && e.error == fit(Rotate(frequencies, IndexOf(e.letter)))
  {
    var scores := RotationScores(frequencies, fit);
    var i :| 0 <= i < N && scores[i] == e;
    IndexOfLetter(i);
  }
}
