/**
 * The key-length estimate: for each recorded pattern, the end positions of its
 * (possibly overlapping) occurrences and the gaps between consecutive ones; all gaps
 * are pooled, and each candidate length scores the share of gaps it divides
 * (successes) and the share it does not (failures). The candidates are returned
 * stably sorted by their failure ratio.
 */
module KeyLength {
  import opened Wrappers
  import opened Patterns
  import opened StableSort

  /** One scored key length: the length and its two ratios. */
  datatype Candidate = Candidate(length: int, successRatio: real, failureRatio: real)

  /** The two ways the estimate fails: no pattern to work with, or a division by zero
      (no gap at all, or a candidate length of zero). */
  datatype KeyLengthError = NoPatterns | DivisionByZero

  /** End indices `i` in `|p| .. hi - 1` of the occurrences `t[i - |p|..i] == p`. */
  function Ends(p: string, t: string, hi: int): seq<int>
    requires hi <= |t|
    decreases hi
  {
    if hi <= |p| then []
    else Ends(p, t, hi - 1) + (if t[hi - 1 - |p|..hi - 1] == p then [hi - 1] else [])
  }

  /** The end indices the scan records: every occurrence except one ending at the text's end. */
  function Locations(p: string, t: string): (r: seq<int>)
    ensures forall k :: 0 <= k < |r| ==> |p| <= r[k] < |t| && t[r[k] - |p|..r[k]] == p
    ensures forall a, b :: 0 <= a < b < |r| ==> r[a] < r[b]
  {
    EndsBounds(p, t, |t|);
    Ends(p, t, |t|)
  }

  /** Differences of consecutive locations. */
  function Gaps(locations: seq<int>): (g: seq<int>)
    ensures |g| == if |locations| == 0 then 0 else |locations| - 1
  {
    if |locations| <= 1 then []
    else seq(|locations| - 1, k requires 0 <= k < |locations| - 1 => locations[k + 1] - locations[k])
  }

  /** The gap lists of the patterns, in dictionary order. */
  function Distances(t: string, patterns: seq<PatternEntry>): (ds: seq<seq<int>>)
    ensures |ds| == |patterns|
  {
    if patterns == [] then []
    else Distances(t, patterns[..|patterns| - 1]) + [Gaps(Locations(patterns[|patterns| - 1].pattern, t))]
  }

  function Flatten(ds: seq<seq<int>>): seq<int>
  {
    if ds == [] then [] else Flatten(ds[..|ds| - 1]) + ds[|ds| - 1]
  }

  /** All gaps of all patterns. */
  function Pool(t: string, patterns: seq<PatternEntry>): seq<int>
  {
    Flatten(Distances(t, patterns))
  }

  /** Python's `d % L == 0` for a non-zero `L` of either sign: `L` divides `d`. */
  predicate Divides(L: int, d: int)
    requires L != 0
  {
    d % L == 0
  }

  function Successes(pool: seq<int>, L: int): nat
    requires L != 0
  {
    if pool == [] then 0
    else Successes(pool[..|pool| - 1], L) + (if Divides(L, pool[|pool| - 1]) then 1 else 0)
  }

  function Failures(pool: seq<int>, L: int): nat
    requires L != 0
  {
    if pool == [] then 0
    else Failures(pool[..|pool| - 1], L) + (if Divides(L, pool[|pool| - 1]) then 0 else 1)
  }

  /** The scored candidate for length `L`. */
  function Score(pool: seq<int>, L: int): Candidate
    requires |pool| > 0 && L != 0
  {
    Candidate(L, Successes(pool, L) as real / |pool| as real, Failures(pool, L) as real / |pool| as real)
  }

  /** The lengths `lo .. hi` avoid zero. */
  predicate NonZeroRange(lo: int, hi: int)
  {
    !(lo <= 0 <= hi)
  }

  /** The candidates in the order the loop appends them. */
  function Scores(pool: seq<int>, lo: int, hi: int): (s: seq<Candidate>)
    requires |pool| > 0 && NonZeroRange(lo, hi)
    ensures |s| == if hi < lo then 0 else hi - lo + 1
    decreases hi - lo
  {
    if hi < lo then [] else Scores(pool, lo, hi - 1) + [Score(pool, hi)]
  }

  function FailureKey(c: Candidate): real
  {
    c.failureRatio
  }

  function Length(c: Candidate): int
  {
    c.length
  }

  /** The estimate: no patterns is an error; so is a division by zero, which happens as
      soon as the loop over the lengths runs with no gap to count or reaches length 0. */
  function Rank(t: string, patterns: seq<PatternEntry>, minKeySize: int, maxKeySize: int)
    : (r: Result<seq<Candidate>, KeyLengthError>)
    ensures r == Err(NoPatterns) <==> |patterns| == 0
    ensures r == Err(DivisionByZero) <==>
      (|patterns| > 0 && minKeySize <= maxKeySize && (|Pool(t, patterns)| == 0 || minKeySize <= 0 <= maxKeySize))
    ensures r.Ok? ==> |r.value| == if maxKeySize < minKeySize then 0 else maxKeySize - minKeySize + 1
  {
    if |patterns| == 0 then Err(NoPatterns)
    else
      var pool := Pool(t, patterns);
      if minKeySize <= maxKeySize && (|pool| == 0 || !NonZeroRange(minKeySize, maxKeySize)) then Err(DivisionByZero)
      else if maxKeySize < minKeySize then Ok([])
      else
        var scores := Scores(pool, minKeySize, maxKeySize);
        assert |SortBy(scores, FailureKey)| == |multiset(scores)|;
        Ok(SortBy(scores, FailureKey))
  }

  lemma FlattenSnoc(ds: seq<seq<int>>, d: seq<int>)
    ensures Flatten(ds + [d]) == Flatten(ds) + d
  {
    assert (ds + [d])[..|ds|] == ds;
  }

  lemma SuccessesSnoc(pool: seq<int>, L: int, d: int)
    requires L != 0
    ensures Successes(pool + [d], L) == Successes(pool, L) + (if Divides(L, d) then 1 else 0)
    ensures Failures(pool + [d], L) == Failures(pool, L) + (if Divides(L, d) then 0 else 1)
  {
    assert (pool + [d])[..|pool|] == pool;
  }

  /** Every gap is either a success or a failure for `L`. */
  lemma {:induction false} SuccessesPlusFailures(pool: seq<int>, L: int)
    requires L != 0
    ensures Successes(pool, L) + Failures(pool, L) == |pool|
  {
    if pool != [] {
      SuccessesPlusFailures(pool[..|pool| - 1], L);
    }
  }

  /** The location scan for one pattern. */
  method FindLocations(pattern: string, ciphertext: string) returns (locations: seq<int>)
    ensures locations == Locations(pattern, ciphertext)
  {
    locations := [];
    var i := |pattern|;
    while i < |ciphertext|
      invariant |pattern| <= i
      invariant i <= |ciphertext| ==> locations == Ends(pattern, ciphertext, i)
      invariant i > |ciphertext| ==> locations == [] && i == |pattern|
    {
      if pattern == ciphertext[i - |pattern|..i] {
        locations := locations + [i];
      }
      i := i + 1;
    }
  }

  /** Adds the successes and failures of length `L` over one gap list to the running
      totals, which cover the gaps `counted` so far. */
  method CountList(distanceList: seq<int>, L: int, ghost counted: seq<int>, successes: nat, failures: nat)
    returns (totalSuccesses: nat, totalFailures: nat)
    requires L != 0 && successes == Successes(counted, L) && failures == Failures(counted, L)
    ensures totalSuccesses == Successes(counted + distanceList, L)
    ensures totalFailures == Failures(counted + distanceList, L)
  {
    totalSuccesses, totalFailures := successes, failures;
    ghost var seen := counted;
    var b := 0;
    while b < |distanceList|
      invariant 0 <= b <= |distanceList|
      invariant seen == counted + distanceList[..b]
      invariant totalSuccesses == Successes(seen, L) && totalFailures == Failures(seen, L)
    {
      var distance := distanceList[b];
      SuccessesSnoc(seen, L, distance);
      if distance % L == 0 {
        totalSuccesses := totalSuccesses + 1;
      } else {
        totalFailures := totalFailures + 1;
      }
      assert distanceList[..b + 1] == distanceList[..b] + [distance];
      seen := seen + [distance];
      b := b + 1;
    }
    assert distanceList[..b] == distanceList;
  }

  /** Counts the successes and failures of length `L` over all gap lists. */
  method CountGaps(distances: seq<seq<int>>, L: int) returns (totalSuccesses: nat, totalFailures: nat)
    requires L != 0
    ensures totalSuccesses == Successes(Flatten(distances), L)
    ensures totalFailures == Failures(Flatten(distances), L)
  {
    totalSuccesses, totalFailures := 0, 0;
    var a := 0;
    while a < |distances|
      invariant 0 <= a <= |distances|
      invariant totalSuccesses == Successes(Flatten(distances[..a]), L)
      invariant totalFailures == Failures(Flatten(distances[..a]), L)
    {
      totalSuccesses, totalFailures := CountList(distances[a], L, Flatten(distances[..a]), totalSuccesses, totalFailures);
      assert distances[..a + 1] == distances[..a] + [distances[a]];
      FlattenSnoc(distances[..a], distances[a]);
      a := a + 1;
    }
    assert distances[..a] == distances;
  }

  /** The gap list of every pattern, in dictionary order. */
  method CollectDistances(ciphertext: string, patterns: seq<PatternEntry>) returns (distances: seq<seq<int>>)
    ensures distances == Distances(ciphertext, patterns)
  {
    distances := [];
    var k := 0;
    while k < |patterns|
      invariant 0 <= k <= |patterns|
      invariant distances == Distances(ciphertext, patterns[..k])
    {
      var locations := FindLocations(patterns[k].pattern, ciphertext);
      assert patterns[..k + 1][..k] == patterns[..k];
      distances := distances + [Gaps(locations)];
      k := k + 1;
    }
    assert patterns[..k] == patterns;
  }

  /** The scores of the lengths `minKeySize .. maxKeySize` over the pooled gaps, in
      length order; a division by zero as soon as a length is scored with no gap, or
      length 0 is reached. */
  method ScoreLengths(distances: seq<seq<int>>, minKeySize: int, maxKeySize: int)
    returns (r: Result<seq<Candidate>, KeyLengthError>)
    ensures var pool := Flatten(distances);
      if minKeySize <= maxKeySize && (|pool| == 0 || !NonZeroRange(minKeySize, maxKeySize))
      then r == Err(DivisionByZero)
      else r == Ok(if maxKeySize < minKeySize then [] else Scores(pool, minKeySize, maxKeySize))
  {
    ghost var pool := Flatten(distances);
    var keyLengths: seq<Candidate> := [];
    var L := minKeySize;
    while L <= maxKeySize
      invariant minKeySize <= L && (L <= maxKeySize + 1 || L == minKeySize)
      invariant NonZeroRange(minKeySize, L - 1)
      invariant L > minKeySize ==> |pool| > 0
      invariant L > minKeySize ==> keyLengths == Scores(pool, minKeySize, L - 1)
      invariant L == minKeySize ==> keyLengths == []
      decreases maxKeySize - L
    {
      if L == 0 {
        // the first gap is taken modulo zero, or, with no gap, the ratio divides by zero
        return Err(DivisionByZero);
      }
      var totalSuccesses, totalFailures := CountGaps(distances, L);
      var total := totalSuccesses + totalFailures;
      SuccessesPlusFailures(pool, L);
      if total == 0 {
        return Err(DivisionByZero);
      }
      keyLengths := keyLengths + [Candidate(L, totalSuccesses as real / total as real, totalFailures as real / total as real)];
      L := L + 1;
    }
    return Ok(keyLengths);
  }

  /** The estimate: gap lists per pattern, then a scored candidate per length, then the
      stable sort by failure ratio. */
  method PredictKeyLength(ciphertext: string, patterns: seq<PatternEntry>, minKeySize: int, maxKeySize: int)
    returns (r: Result<seq<Candidate>, KeyLengthError>)
    ensures r == Rank(ciphertext, patterns, minKeySize, maxKeySize)
  {
    if |patterns| == 0 {
      return Err(NoPatterns);
    }
    var distances := CollectDistances(ciphertext, patterns);
    var scored := ScoreLengths(distances, minKeySize, maxKeySize);
    if scored.Err? {
      return scored;
    }
    var keyLengths := scored.value;
    keyLengths := SortBy(keyLengths, FailureKey);
    return Ok(keyLengths);
  }

  // ---------------------------------------------------------------------------
  // Locations and gaps

  lemma {:induction false} EndsBounds(p: string, t: string, hi: int)
    requires hi <= |t|
    ensures forall k :: 0 <= k < |Ends(p, t, hi)| ==>
      |p| <= Ends(p, t, hi)[k] < hi && t[Ends(p, t, hi)[k] - |p|..Ends(p, t, hi)[k]] == p
    ensures forall a, b :: 0 <= a < b < |Ends(p, t, hi)| ==> Ends(p, t, hi)[a] < Ends(p, t, hi)[b]
    decreases hi
  {
    if hi > |p| {
      EndsBounds(p, t, hi - 1);
    }
  }

  lemma {:induction false} EndsComplete(p: string, t: string, hi: int, i: int)
    requires hi <= |t| && |p| <= i < hi && t[i - |p|..i] == p
    ensures i in Ends(p, t, hi)
    decreases hi
  {
    if i < hi - 1 {
      EndsComplete(p, t, hi - 1, i);
    }
  }

  /** The recorded locations are the end indices of all occurrences of `p`, overlapping
      ones included, except an occurrence ending at the text's end; in increasing order. */
  lemma LocationsAreOccurrenceEnds(p: string, t: string)
    ensures forall i :: i in Locations(p, t) <==> |p| <= i < |t| && t[i - |p|..i] == p
    ensures forall a, b :: 0 <= a < b < |Locations(p, t)| ==> Locations(p, t)[a] < Locations(p, t)[b]
  {
    EndsBounds(p, t, |t|);
    forall i | |p| <= i < |t| && t[i - |p|..i] == p ensures i in Locations(p, t) {
      EndsComplete(p, t, |t|, i);
    }
  }

  /** Every gap is a positive distance. */
  lemma GapsPositive(p: string, t: string)
    ensures forall k :: 0 <= k < |Gaps(Locations(p, t))| ==> Gaps(Locations(p, t))[k] > 0
  {
    LocationsAreOccurrenceEnds(p, t);
  }

  // ---------------------------------------------------------------------------
  // Counting and scoring

  /** The candidate at index `k` of the loop's list scores length `lo + k`. */
  lemma {:induction false} ScoresAt(pool: seq<int>, lo: int, hi: int, k: int)
    requires |pool| > 0 && NonZeroRange(lo, hi) && 0 <= k < |Scores(pool, lo, hi)|
    ensures lo + k != 0 && Scores(pool, lo, hi)[k] == Score(pool, lo + k)
    decreases hi - lo
  {
    if k < hi - lo {
      ScoresAt(pool, lo, hi - 1, k);
    }
  }

  lemma ScoresRanked(pool: seq<int>, lo: int, hi: int)
    requires |pool| > 0 && NonZeroRange(lo, hi)
    ensures StrictlyRanked(Scores(pool, lo, hi), Length)
  {
    var s := Scores(pool, lo, hi);
    forall a, b | 0 <= a < b < |s| ensures Length(s[a]) < Length(s[b]) {
      ScoresAt(pool, lo, hi, a);
      ScoresAt(pool, lo, hi, b);
    }
  }

  /** A member of the loop's list is the score of a length in range. */
  lemma ScoresMember(pool: seq<int>, lo: int, hi: int, c: Candidate)
    requires |pool| > 0 && NonZeroRange(lo, hi) && c in Scores(pool, lo, hi)
    ensures lo <= c.length <= hi && c.length != 0 && c == Score(pool, c.length)
  {
    var s := Scores(pool, lo, hi);
    var k :| 0 <= k < |s| && s[k] == c;
    ScoresAt(pool, lo, hi, k);
  }

  /** A member of the sorted list is the score of a length in range. */
  lemma SortedMember(pool: seq<int>, lo: int, hi: int, ranking: seq<Candidate>, c: Candidate)
    requires |pool| > 0 && NonZeroRange(lo, hi)
    requires multiset(ranking) == multiset(Scores(pool, lo, hi)) && c in ranking
    ensures lo <= c.length <= hi && c.length != 0 && c == Score(pool, c.length)
  {
    var s := Scores(pool, lo, hi);
    assert c in multiset(ranking);
    assert c in s;
    ScoresMember(pool, lo, hi, c);
  }

  /** The score of every length in range is in the sorted list. */
  lemma SortedHolds(pool: seq<int>, lo: int, hi: int, ranking: seq<Candidate>, L: int)
    requires |pool| > 0 && NonZeroRange(lo, hi) && lo <= L <= hi
    requires multiset(ranking) == multiset(Scores(pool, lo, hi))
    ensures L != 0 && HasLength(ranking, L)
  {
    var s := Scores(pool, lo, hi);
    ScoresAt(pool, lo, hi, L - lo);
    var x := s[L - lo];
    assert x in multiset(s);
    assert x in multiset(ranking);
    var k :| 0 <= k < |ranking| && ranking[k] == x;
    assert ranking[k].length == L;
  }

  /** Some candidate scores length `L`. */
  predicate HasLength(r: seq<Candidate>, L: int)
  {
    exists k :: 0 <= k < |r| && r[k].length == L
  }

  /** What a successful estimate over a non-empty range of lengths is made of. */
  lemma RankValue(t: string, patterns: seq<PatternEntry>, lo: int, hi: int)
    requires Rank(t, patterns, lo, hi).Ok? && lo <= hi
    ensures var pool, r := Pool(t, patterns), Rank(t, patterns, lo, hi).value;
      |pool| > 0 && NonZeroRange(lo, hi) &&
      r == SortBy(Scores(pool, lo, hi), FailureKey) &&
      multiset(r) == multiset(Scores(pool, lo, hi))
  {
  }

  lemma RankLengthsInRange(t: string, patterns: seq<PatternEntry>, lo: int, hi: int)
    requires Rank(t, patterns, lo, hi).Ok?
    ensures var r := Rank(t, patterns, lo, hi).value;
      |r| == (if hi < lo then 0 else hi - lo + 1) &&
      forall k :: 0 <= k < |r| ==> lo <= r[k].length <= hi
  {
    var r := Rank(t, patterns, lo, hi).value;
    if lo <= hi {
      RankValue(t, patterns, lo, hi);
      var pool := Pool(t, patterns);
      assert |r| == |multiset(r)| == |multiset(Scores(pool, lo, hi))|;
      forall k | 0 <= k < |r| ensures lo <= r[k].length <= hi {
        SortedMember(pool, lo, hi, r, r[k]);
      }
    }
  }

  lemma RankHasEveryLength(t: string, patterns: seq<PatternEntry>, lo: int, hi: int)
    requires Rank(t, patterns, lo, hi).Ok?
    ensures forall L :: lo <= L <= hi ==> HasLength(Rank(t, patterns, lo, hi).value, L)
  {
    var r := Rank(t, patterns, lo, hi).value;
    if lo <= hi {
      RankValue(t, patterns, lo, hi);
      forall L | lo <= L <= hi ensures HasLength(r, L) {
        SortedHolds(Pool(t, patterns), lo, hi, r, L);
      }
    }
  }

  lemma RankLengthsDistinct(t: string, patterns: seq<PatternEntry>, lo: int, hi: int)
    requires Rank(t, patterns, lo, hi).Ok?
    ensures var r := Rank(t, patterns, lo, hi).value;
      forall a, b :: 0 <= a < b < |r| ==> r[a].length != r[b].length
  {
    var r := Rank(t, patterns, lo, hi).value;
    if lo <= hi {
      RankValue(t, patterns, lo, hi);
      var pool := Pool(t, patterns);
      RankSortedByFailure(t, patterns, lo, hi);
      forall a, b | 0 <= a < b < |r| ensures r[a].length != r[b].length {
        SortedMember(pool, lo, hi, r, r[a]);
        SortedMember(pool, lo, hi, r, r[b]);
        assert Before(r[a], r[b], FailureKey, Length);
      }
    }
  }

  /** The success: one candidate per length in range, no length twice. */
  lemma RankCoversEveryLength(t: string, patterns: seq<PatternEntry>, lo: int, hi: int)
    requires Rank(t, patterns, lo, hi).Ok?
    ensures var r := Rank(t, patterns, lo, hi).value;
      |r| == (if hi < lo then 0 else hi - lo + 1) &&
      (forall k :: 0 <= k < |r| ==> lo <= r[k].length <= hi) &&
      (forall L :: lo <= L <= hi ==> HasLength(r, L)) &&
      (forall a, b :: 0 <= a < b < |r| ==> r[a].length != r[b].length)
  {
    RankLengthsInRange(t, patterns, lo, hi);
    RankHasEveryLength(t, patterns, lo, hi);
    RankLengthsDistinct(t, patterns, lo, hi);
  }

  lemma SameDenominator(x: real, y: real, n: real)
    requires n > 0.0
    ensures x / n + y / n == (x + y) / n
    ensures x / n < y / n <==> x < y
  {
  }

  lemma RatiosComplement(successes: nat, failures: nat, n: nat)
    requires n > 0 && successes + failures == n
    ensures successes as real / n as real + failures as real / n as real == 1.0
  {
    SameDenominator(successes as real, failures as real, n as real);
    assert successes as real + failures as real == n as real;
    assert n as real / n as real == 1.0;
  }

  /** Each candidate's ratios are its successes and failures over the pooled gap count;
      they add up to one. */
  lemma RankRatios(t: string, patterns: seq<PatternEntry>, lo: int, hi: int, c: Candidate)
    requires Rank(t, patterns, lo, hi).Ok? && c in Rank(t, patterns, lo, hi).value
    ensures var pool := Pool(t, patterns);
      |pool| > 0 && c.length != 0 &&
      c.successRatio == Successes(pool, c.length) as real / |pool| as real &&
      c.failureRatio == Failures(pool, c.length) as real / |pool| as real &&
      Successes(pool, c.length) + Failures(pool, c.length) == |pool| &&
      c.successRatio + c.failureRatio == 1.0
  {
    var pool := Pool(t, patterns);
    var s := Scores(pool, lo, hi);
    assert multiset(SortBy(s, FailureKey)) == multiset(s);
    SortedMember(pool, lo, hi, Rank(t, patterns, lo, hi).value, c);
    SuccessesPlusFailures(pool, c.length);
    RatiosComplement(Successes(pool, c.length), Failures(pool, c.length), |pool|);
  }

  /** The result is ordered by failure ratio, equal ratios by length (the sort is stable). */
  lemma RankSortedByFailure(t: string, patterns: seq<PatternEntry>, lo: int, hi: int)
    requires Rank(t, patterns, lo, hi).Ok?
    ensures SortedBy(Rank(t, patterns, lo, hi).value, FailureKey, Length)
  {
    if lo <= hi {
      var pool := Pool(t, patterns);
      ScoresRanked(pool, lo, hi);
      SortByStable(Scores(pool, lo, hi), FailureKey, Length);
    }
  }

  /** Sorting by failure ratio is sorting by failure count, since every ratio shares the
      pooled gap count as denominator. */
  lemma RankOrderIsFailureCountOrder(t: string, patterns: seq<PatternEntry>, lo: int, hi: int, a: int, b: int)
    requires Rank(t, patterns, lo, hi).Ok? && 0 <= a < b < |Rank(t, patterns, lo, hi).value|
    ensures var r, pool := Rank(t, patterns, lo, hi).value, Pool(t, patterns);
      r[a].length != 0 && r[b].length != 0 &&
      (Failures(pool, r[a].length) < Failures(pool, r[b].length) ||
       (Failures(pool, r[a].length) == Failures(pool, r[b].length) && r[a].length < r[b].length))
  {
    var r, pool := Rank(t, patterns, lo, hi).value, Pool(t, patterns);
    RankSortedByFailure(t, patterns, lo, hi);
    assert Before(r[a], r[b], FailureKey, Length);
    RankRatios(t, patterns, lo, hi, r[a]);
    RankRatios(t, patterns, lo, hi, r[b]);
    SameDenominator(Failures(pool, r[a].length) as real, Failures(pool, r[b].length) as real, |pool| as real);
    SameDenominator(Failures(pool, r[b].length) as real, Failures(pool, r[a].length) as real, |pool| as real);
  }

  /** Only the first of the two occurrences of "аб" in "абаб" is located. */
  lemma AbabLocations()
    ensures Locations("аб", "абаб") == [2]
  {
    var t := "абаб";
    assert t[0..2] == "аб" && t[1..3] == "ба";
    assert Ends("аб", t, 2) == [];
    assert Ends("аб", t, 3) == [2];
  }

  /** The location scan's off-by-one at work: in "абаб" the pattern "аб" repeats, but its
      second occurrence ends at the text's end, so only one location is recorded, no gap
      is pooled and the estimate divides by zero. */
  lemma SkippedLastOccurrence()
    ensures Locations("аб", "абаб") == [2]
    ensures Pool("абаб", [PatternEntry("аб", 2)]) == []
    ensures forall lo, hi :: lo <= hi ==> Rank("абаб", [PatternEntry("аб", 2)], lo, hi) == Err(DivisionByZero)
  {
    AbabLocations();
    var es := [PatternEntry("аб", 2)];
    assert es[..0] == [];
    assert Gaps([2]) == [];
    var empty: seq<seq<int>> := [[]];
    assert Distances("абаб", es) == empty;
    assert empty[..0] == [];
    assert Flatten(empty) == [];
  }
}
