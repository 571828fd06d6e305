/**
 * The pattern index: every substring of the cleaned ciphertext with a length in
 * `minPatternSize .. maxPatternSize` that occurs more than once, counted on a
 * non-overlapping basis, in the order the scan first meets it (ascending length,
 * then ascending start). The scan only looks at windows that end before the last
 * character: the window ending at the text's end is never a candidate.
 */
module Patterns {

  /** One recorded pattern and its non-overlapping occurrence count. */
  datatype PatternEntry = PatternEntry(pattern: string, hits: nat)

  /** Non-overlapping left-to-right occurrences of `p` in `t` from index `pos` on: after a
      match the scan resumes right after it (one character on for the empty pattern),
      as a regular-expression search for the literal `p` does. */
  function CountFrom(p: string, t: string, pos: nat): nat
    decreases |t| + 1 - pos
  {
    if pos > |t| then 0
    else if pos + |p| <= |t| && t[pos..pos + |p|] == p then
      1 + CountFrom(p, t, pos + (if |p| == 0 then 1 else |p|))
    else CountFrom(p, t, pos + 1)
  }

  /** The number of matches the program's `findall` returns for pattern `p`. */
  function Hits(p: string, t: string): (n: nat)
    ensures |p| == 0 ==> n == |t| + 1
    ensures |p| > 0 ==> n * |p| <= |t|
  {
    if |p| == 0 then EmptyPatternCount(p, t, 0); CountFrom(p, t, 0)
    else CountFromFits(p, t, 0); CountFrom(p, t, 0)
  }

  /** The empty pattern matches at every index from `pos` up to and including `|t|`. */
  lemma {:induction false} EmptyPatternCount(p: string, t: string, pos: nat)
    requires |p| == 0 && pos <= |t| + 1
    ensures CountFrom(p, t, pos) == |t| + 1 - pos
    decreases |t| + 1 - pos
  {
    if pos <= |t| {
      EmptyPatternCount(p, t, pos + 1);
      assert t[pos..pos] == p;
    }
  }

  /** One more match of length `m` still fits when the remaining ones fit after it. */
  lemma FitStep(c: nat, m: nat, room: int)
    requires c * m <= room - m
    ensures (1 + c) * m <= room
  {
    assert (1 + c) * m == m + c * m;
  }

  /** Non-overlapping matches of a non-empty pattern fit side by side in the text. */
  lemma {:induction false} CountFromFits(p: string, t: string, pos: nat)
    requires |p| > 0 && pos <= |t|
    ensures CountFrom(p, t, pos) * |p| <= |t| - pos
    decreases |t| + 1 - pos
  {
    if pos + |p| <= |t| && t[pos..pos + |p|] == p {
      CountFromFits(p, t, pos + |p|);
      FitStep(CountFrom(p, t, pos + |p|), |p|, |t| - pos);
    } else if pos < |t| {
      CountFromFits(p, t, pos + 1);
    }
  }

  /** `p` is the candidate window starting at `s`: it ends before the text's last index. */
  predicate IsCandidate(t: string, p: string, s: int)
  {
    0 <= s && s + |p| < |t| && t[s..s + |p|] == p
  }

  /** Windows of length `L` ending at `L .. j - 1`, in scan order. */
  function Row(t: string, L: nat, j: nat): (r: seq<string>)
    requires j <= |t|
    ensures |r| == if j <= L then 0 else j - L
    decreases j
  {
    if j <= L then [] else Row(t, L, j - 1) + [t[j - 1 - L..j - 1]]
  }

  /** The row grows by the window ending at `j`. */
  lemma RowSnoc(t: string, L: nat, j: nat)
    requires L <= j < |t|
    ensures Row(t, L, j + 1) == Row(t, L, j) + [t[j - L..j]]
  {
  }

  /** All windows the scan visits for the lengths `lo .. hi`, in visiting order. */
  function Windows(t: string, lo: nat, hi: int): seq<string>
    decreases hi - lo
  {
    if hi < lo then [] else Windows(t, lo, hi - 1) + Row(t, hi, |t|)
  }

  function Keys(entries: seq<PatternEntry>): (ks: seq<string>)
    ensures |ks| == |entries|
  {
    seq(|entries|, k requires 0 <= k < |entries| => entries[k].pattern)
  }

  /** The dictionary the scan builds from the windows `ws`: a window not yet recorded
      and occurring more than once is appended with its count. */
  function Discover(ws: seq<string>, t: string): (r: seq<PatternEntry>)
    ensures forall k :: 0 <= k < |r| ==> r[k].hits == Hits(r[k].pattern, t) && r[k].hits >= 2
  {
    if ws == [] then []
    else
      var prev := Discover(ws[..|ws| - 1], t);
      var w := ws[|ws| - 1];
      if w !in Keys(prev) && Hits(w, t) > 1 then prev + [PatternEntry(w, Hits(w, t))] else prev
  }

  /** The result of the pattern scan. */
  function PatternIndex(t: string, minPatternSize: nat, maxPatternSize: int): (r: seq<PatternEntry>)
    ensures forall k :: 0 <= k < |r| ==> r[k].hits == Hits(r[k].pattern, t) && r[k].hits >= 2
    ensures forall a, b :: 0 <= a < b < |r| ==> r[a].pattern != r[b].pattern
  {
    DiscoverDistinct(Windows(t, minPatternSize, maxPatternSize), t);
    Discover(Windows(t, minPatternSize, maxPatternSize), t)
  }

  /** One more window: it is recorded exactly when it is new and repeats. */
  lemma DiscoverSnoc(ws: seq<string>, w: string, t: string)
    ensures Discover(ws + [w], t) ==
      if w !in Keys(Discover(ws, t)) && Hits(w, t) > 1
      then Discover(ws, t) + [PatternEntry(w, Hits(w, t))]
      else Discover(ws, t)
  {
    assert (ws + [w])[..|ws|] == ws;
  }

  /** The windows of one more length. */
  lemma WindowsSnoc(t: string, lo: nat, L: nat)
    requires lo <= L
    ensures Windows(t, lo, L) == Windows(t, lo, L - 1) + Row(t, L, |t|)
  {
  }

  /** The inner scan for one length `L`: each window ending before the last index in
      turn; `ws` are the windows the scan visited before. */
  method ScanLength(ciphertext: string, L: nat, patterns: seq<PatternEntry>, ghost ws: seq<string>)
    returns (updated: seq<PatternEntry>)
    requires patterns == Discover(ws, ciphertext)
    ensures updated == Discover(ws + Row(ciphertext, L, |ciphertext|), ciphertext)
  {
    updated := patterns;
    ghost var row: seq<string> := [];
    ghost var seen := ws;
    assert ws + row == ws;
    var j := L;
    while j < |ciphertext|
      invariant L <= j
      invariant j <= |ciphertext| ==> row == Row(ciphertext, L, j)
      invariant j > |ciphertext| ==> row == [] && |ciphertext| <= L
      invariant seen == ws + row
      invariant updated == Discover(seen, ciphertext)
    {
      var pattern := ciphertext[j - L..j];
      DiscoverSnoc(seen, pattern, ciphertext);
      RowSnoc(ciphertext, L, j);
      if pattern !in Keys(updated) {
        var matches := Hits(pattern, ciphertext);
        if matches > 1 {
          updated := updated + [PatternEntry(pattern, matches)];
        }
      }
      seen := seen + [pattern];
      row := row + [pattern];
      assert seen == ws + row;
      j := j + 1;
    }
    assert row == Row(ciphertext, L, |ciphertext|);
  }

  /** The scan over all lengths `minPatternSize .. maxPatternSize`. */
  method FindPatterns(ciphertext: string, minPatternSize: nat, maxPatternSize: int)
    returns (patterns: seq<PatternEntry>)
    ensures patterns == PatternIndex(ciphertext, minPatternSize, maxPatternSize)
  {
    patterns := [];
    var i := minPatternSize;
    while i <= maxPatternSize
      invariant minPatternSize <= i && (i <= maxPatternSize + 1 || i == minPatternSize)
      invariant patterns == Discover(Windows(ciphertext, minPatternSize, i - 1), ciphertext)
      decreases maxPatternSize - i
    {
      patterns := ScanLength(ciphertext, i, patterns, Windows(ciphertext, minPatternSize, i - 1));
      WindowsSnoc(ciphertext, minPatternSize, i);
      i := i + 1;
    }
  }

  // ---------------------------------------------------------------------------
  // The windows the scan visits

  lemma {:induction false} RowAt(t: string, L: nat, j: nat, s: int)
    requires j <= |t| && 0 <= s < |Row(t, L, j)|
    ensures s + L < |t| && Row(t, L, j)[s] == t[s..s + L]
    decreases j
  {
    var prev := Row(t, L, j - 1);
    assert Row(t, L, j) == prev + [t[j - 1 - L..j - 1]];
    if s < |prev| {
      RowAt(t, L, j - 1, s);
      assert Row(t, L, j)[s] == prev[s];
    } else {
      assert s == j - 1 - L;
    }
  }

  /** The windows of the shorter lengths come first. */
  lemma {:induction false} WindowsPrefix(t: string, lo: nat, L: int, hi: int)
    requires lo - 1 <= L <= hi
    ensures |Windows(t, lo, L)| <= |Windows(t, lo, hi)|
    ensures Windows(t, lo, hi)[..|Windows(t, lo, L)|] == Windows(t, lo, L)
    decreases hi - L
  {
    if L < hi {
      WindowsPrefix(t, lo, L, hi - 1);
      assert Windows(t, lo, hi) == Windows(t, lo, hi - 1) + Row(t, hi, |t|);
    }
  }

  /** The window of length `L` starting at `s` sits at index `|Windows(t, lo, L - 1)| + s`. */
  lemma WindowAt(t: string, lo: nat, hi: int, L: nat, s: int)
    requires lo <= L <= hi && 0 <= s && s + L < |t|
    ensures |Windows(t, lo, L - 1)| + s < |Windows(t, lo, hi)|
    ensures Windows(t, lo, hi)[|Windows(t, lo, L - 1)| + s] == t[s..s + L]
  {
    var w := Windows(t, lo, L);
    assert w == Windows(t, lo, L - 1) + Row(t, L, |t|);
    RowAt(t, L, |t|, s);
    assert w[|Windows(t, lo, L - 1)| + s] == t[s..s + L];
    WindowsPrefix(t, lo, L, hi);
  }

  /** Every visited window is a candidate of some length in range. */
  lemma {:induction false} WindowOrigin(t: string, lo: nat, hi: int, idx: int) returns (L: nat, s: int)
    requires 0 <= idx < |Windows(t, lo, hi)|
    ensures lo <= L <= hi && 0 <= s && s + L < |t|
    ensures idx == |Windows(t, lo, L - 1)| + s && Windows(t, lo, hi)[idx] == t[s..s + L]
    decreases hi - lo
  {
    var prev := Windows(t, lo, hi - 1);
    assert Windows(t, lo, hi) == prev + Row(t, hi, |t|);
    if idx < |prev| {
      L, s := WindowOrigin(t, lo, hi - 1, idx);
      assert Windows(t, lo, hi)[idx] == prev[idx];
    } else {
      L, s := hi, idx - |prev|;
      RowAt(t, hi, |t|, s);
    }
  }

  /** A string is visited exactly when its length is in range and it is a candidate. */
  lemma WindowsMembership(t: string, lo: nat, hi: int, w: string)
    ensures w in Windows(t, lo, hi) <==> lo <= |w| <= hi && exists s :: IsCandidate(t, w, s)
  {
    var ws := Windows(t, lo, hi);
    if w in ws {
      var idx :| 0 <= idx < |ws| && ws[idx] == w;
      var L, s := WindowOrigin(t, lo, hi, idx);
      assert IsCandidate(t, w, s);
    }
    if lo <= |w| <= hi && exists s :: IsCandidate(t, w, s) {
      var s :| IsCandidate(t, w, s);
      WindowAt(t, lo, hi, |w|, s);
    }
  }

  // ---------------------------------------------------------------------------
  // The dictionary built from the windows

  lemma KeysMember(es: seq<PatternEntry>, w: string)
    ensures w in Keys(es) <==> exists k :: 0 <= k < |es| && es[k].pattern == w
  {
    if w in Keys(es) {
      var k :| 0 <= k < |es| && Keys(es)[k] == w;
      assert es[k].pattern == w;
    }
    if exists k :: 0 <= k < |es| && es[k].pattern == w {
      var k :| 0 <= k < |es| && es[k].pattern == w;
      assert Keys(es)[k] == w;
    }
  }

  /** Every recorded entry is a visited window occurring more than once, with its count. */
  lemma {:induction false} DiscoverSound(ws: seq<string>, t: string)
    ensures forall k :: 0 <= k < |Discover(ws, t)| ==>
      var e := Discover(ws, t)[k];
      e.pattern in ws && e.hits == Hits(e.pattern, t) && e.hits > 1
  {
    if ws != [] {
      var init := ws[..|ws| - 1];
      DiscoverSound(init, t);
      assert ws == init + [ws[|ws| - 1]];
      forall w | w in init ensures w in ws { }
    }
  }

  /** Every visited window occurring more than once is recorded. */
  lemma {:induction false} DiscoverComplete(ws: seq<string>, t: string)
    ensures forall w :: w in ws && Hits(w, t) > 1 ==> w in Keys(Discover(ws, t))
  {
    if ws != [] {
      var init := ws[..|ws| - 1];
      var prev := Discover(init, t);
      var last := ws[|ws| - 1];
      DiscoverComplete(init, t);
      assert ws == init + [last];
      forall w | w in ws && Hits(w, t) > 1 ensures w in Keys(Discover(ws, t)) {
        var es := Discover(ws, t);
        if w in Keys(prev) {
          KeysMember(prev, w);
          var k :| 0 <= k < |prev| && prev[k].pattern == w;
          assert es[k] == prev[k];
          KeysMember(es, w);
        } else {
          assert w == last;
          assert es[|es| - 1].pattern == w;
          KeysMember(es, w);
        }
      }
    }
  }

  /** No pattern is recorded twice. */
  lemma {:induction false} DiscoverDistinct(ws: seq<string>, t: string)
    ensures forall a, b :: 0 <= a < b < |Discover(ws, t)| ==>
      Discover(ws, t)[a].pattern != Discover(ws, t)[b].pattern
  {
    if ws != [] {
      var init := ws[..|ws| - 1];
      var prev := Discover(init, t);
      DiscoverDistinct(init, t);
      forall a, b | 0 <= a < b < |Discover(ws, t)|
        ensures Discover(ws, t)[a].pattern != Discover(ws, t)[b].pattern
      {
        var es := Discover(ws, t);
        if b == |prev| {
          assert es[a] == prev[a];
          KeysMember(prev, es[b].pattern);
        }
      }
    }
  }

  /** `p` is met in `ws` before any occurrence of `q`. */
  predicate MetFirst(ws: seq<string>, p: string, q: string)
  {
    exists a :: 0 <= a < |ws| && ws[a] == p && forall c :: 0 <= c < |ws| && ws[c] == q ==> a < c
  }

  /** Entries are recorded in the order their patterns are first met. */
  lemma {:induction false} DiscoverOrder(ws: seq<string>, t: string)
    ensures forall a, b :: 0 <= a < b < |Discover(ws, t)| ==>
      MetFirst(ws, Discover(ws, t)[a].pattern, Discover(ws, t)[b].pattern)
  {
    if ws != [] {
      var init := ws[..|ws| - 1];
      var last := ws[|ws| - 1];
      var prev := Discover(init, t);
      var es := Discover(ws, t);
      DiscoverOrder(init, t);
      assert ws == init + [last];
      forall a, b | 0 <= a < b < |es| ensures MetFirst(ws, es[a].pattern, es[b].pattern) {
        var p, q := es[a].pattern, es[b].pattern;
        if b < |prev| {
          assert es[a] == prev[a] && es[b] == prev[b];
          var i :| 0 <= i < |init| && init[i] == p && forall c :: 0 <= c < |init| && init[c] == q ==> i < c;
          assert ws[i] == p;
          forall c | 0 <= c < |ws| && ws[c] == q ensures i < c {
            if c < |init| {
              assert init[c] == q;
            }
          }
        } else {
          assert es[a] == prev[a];
          DiscoverSound(init, t);
          var i :| 0 <= i < |init| && init[i] == p;
          assert q == last && q !in Keys(prev) && Hits(q, t) > 1;
          DiscoverComplete(init, t);
          assert ws[i] == p;
          assert q !in init;
          forall c | 0 <= c < |ws| && ws[c] == q ensures i < c {
            assert c == |init|;
          }
        }
      }
    }
  }

  // ---------------------------------------------------------------------------
  // The pattern index

  /** A match of `p` from `pos` on, as the index of its start. */
  lemma {:induction false} CountedMatch(p: string, t: string, pos: nat) returns (s: nat)
    requires CountFrom(p, t, pos) >= 1
    ensures pos <= s && s + |p| <= |t| && t[s..s + |p|] == p
    decreases |t| + 1 - pos
  {
    if pos + |p| <= |t| && t[pos..pos + |p|] == p {
      s := pos;
    } else {
      s := CountedMatch(p, t, pos + 1);
    }
  }

  /** A pattern matched twice has a match that ends before the last index. */
  lemma {:induction false} RepeatedIsCandidate(p: string, t: string, pos: nat) returns (s: nat)
    requires CountFrom(p, t, pos) >= 2
    ensures pos <= s && IsCandidate(t, p, s)
    decreases |t| + 1 - pos
  {
    if pos + |p| <= |t| && t[pos..pos + |p|] == p {
      var next := CountedMatch(p, t, pos + (if |p| == 0 then 1 else |p|));
      s := pos;
    } else {
      s := RepeatedIsCandidate(p, t, pos + 1);
    }
  }

  /** One recorded entry: a candidate of a length in range, stored with its count. */
  lemma EntrySound(t: string, lo: nat, hi: int, k: int) returns (s: int)
    requires 0 <= k < |PatternIndex(t, lo, hi)|
    ensures var e := PatternIndex(t, lo, hi)[k];
      lo <= |e.pattern| <= hi && IsCandidate(t, e.pattern, s) &&
      e.hits == Hits(e.pattern, t) && e.hits >= 2
  {
    var ws := Windows(t, lo, hi);
    var e := PatternIndex(t, lo, hi)[k];
    DiscoverSound(ws, t);
    var idx :| 0 <= idx < |ws| && ws[idx] == e.pattern;
    var L;
    L, s := WindowOrigin(t, lo, hi, idx);
  }

  /** What an entry of the index holds: a repeated candidate of a length in range,
      stored with its non-overlapping count. */
  predicate Recorded(t: string, lo: nat, hi: int, e: PatternEntry)
  {
    lo <= |e.pattern| <= hi && (exists s :: 0 <= s < |t| && IsCandidate(t, e.pattern, s)) &&
    e.hits == Hits(e.pattern, t) && e.hits >= 2
  }

  /** Soundness: every entry is a substring with a length in range that occurs more than
      once, stored with its non-overlapping count. */
  lemma PatternIndexSound(t: string, lo: nat, hi: int)
    ensures forall k :: 0 <= k < |PatternIndex(t, lo, hi)| ==> Recorded(t, lo, hi, PatternIndex(t, lo, hi)[k])
  {
    forall k | 0 <= k < |PatternIndex(t, lo, hi)|
      ensures Recorded(t, lo, hi, PatternIndex(t, lo, hi)[k])
    {
      var s := EntrySound(t, lo, hi, k);
      assert IsCandidate(t, PatternIndex(t, lo, hi)[k].pattern, s);
    }
  }

  /** Completeness: every substring with a length in range that occurs more than once is
      recorded, including one whose occurrence ends at the end of the text, although the
      scan never visits that window. */
  lemma PatternIndexComplete(t: string, lo: nat, hi: int, s: int, L: nat)
    requires lo <= L <= hi && 0 <= s && s + L <= |t|
    requires Hits(t[s..s + L], t) >= 2
    ensures t[s..s + L] in Keys(PatternIndex(t, lo, hi))
  {
    var p := t[s..s + L];
    var first := RepeatedIsCandidate(p, t, 0);
    WindowsMembership(t, lo, hi, p);
    DiscoverComplete(Windows(t, lo, hi), t);
  }

  lemma PatternIndexDistinct(t: string, lo: nat, hi: int)
    ensures forall a, b :: 0 <= a < b < |PatternIndex(t, lo, hi)| ==>
      PatternIndex(t, lo, hi)[a].pattern != PatternIndex(t, lo, hi)[b].pattern
  {
    DiscoverDistinct(Windows(t, lo, hi), t);
  }

  /** `p` starts somewhere before every start of `q`. */
  predicate StartsFirst(t: string, p: string, q: string)
  {
    exists s1 :: 0 <= s1 < |t| && IsCandidate(t, p, s1) &&
      forall s2 :: 0 <= s2 < |t| && IsCandidate(t, q, s2) ==> s1 < s2
  }

  /** Windows of a shorter length sit before all windows of a longer one. */
  lemma WindowsOfShorterFirst(t: string, lo: nat, L1: nat, s1: int, L2: nat, s2: int)
    requires lo <= L2 < L1 && 0 <= s2 && s2 + L2 < |t| && 0 <= s1
    ensures |Windows(t, lo, L2 - 1)| + s2 < |Windows(t, lo, L1 - 1)| + s1
  {
    WindowsPrefix(t, lo, L2, L1 - 1);
    assert Windows(t, lo, L2) == Windows(t, lo, L2 - 1) + Row(t, L2, |t|);
  }

  /** Visiting order of two windows: by length, then by start. */
  lemma VisitOrder(t: string, lo: nat, L1: nat, s1: int, L2: nat, s2: int)
    requires lo <= L1 && lo <= L2 && 0 <= s1 && s1 + L1 < |t| && 0 <= s2 && s2 + L2 < |t|
    requires |Windows(t, lo, L1 - 1)| + s1 < |Windows(t, lo, L2 - 1)| + s2
    ensures L1 < L2 || (L1 == L2 && s1 < s2)
  {
    if L2 < L1 {
      WindowsOfShorterFirst(t, lo, L1, s1, L2, s2);
    }
  }

  /** The window at index `i` comes before every visit of `q` of length `L`: then it
      also starts before every such window. */
  lemma StartsBeforeVisits(t: string, lo: nat, hi: int, i: int, L: nat, s1: int, q: string, s: int)
    requires lo <= L == |q| <= hi && 0 <= s1 && s1 + L < |t|
    requires i == |Windows(t, lo, L - 1)| + s1
    requires forall c :: 0 <= c < |Windows(t, lo, hi)| && Windows(t, lo, hi)[c] == q ==> i < c
    requires IsCandidate(t, q, s)
    ensures s1 < s
  {
    WindowAt(t, lo, hi, L, s);
    assert Windows(t, lo, hi)[|Windows(t, lo, L - 1)| + s] == q;
  }

  /** Two windows of one length: the one visited before every visit of the other starts
      before all of its starts. */
  lemma SameLengthStartsFirst(t: string, lo: nat, hi: int, i: int, L: nat, s1: int, p: string, q: string)
    requires lo <= L == |q| <= hi && 0 <= s1 && s1 + L < |t| && p == t[s1..s1 + L]
    requires i == |Windows(t, lo, L - 1)| + s1
    requires forall c :: 0 <= c < |Windows(t, lo, hi)| && Windows(t, lo, hi)[c] == q ==> i < c
    ensures StartsFirst(t, p, q)
  {
    forall s | 0 <= s < |t| && IsCandidate(t, q, s) ensures s1 < s {
      StartsBeforeVisits(t, lo, hi, i, L, s1, q, s);
    }
    assert IsCandidate(t, p, s1);
  }

  /** A visited window met before every visit of another is shorter, or as long and
      starting earlier. */
  lemma MetFirstOrder(t: string, lo: nat, hi: int, i: int, p: string, q: string, s2: int)
    requires 0 <= i < |Windows(t, lo, hi)| && Windows(t, lo, hi)[i] == p
    requires forall c :: 0 <= c < |Windows(t, lo, hi)| && Windows(t, lo, hi)[c] == q ==> i < c
    requires lo <= |q| <= hi && IsCandidate(t, q, s2)
    ensures |p| < |q| || (|p| == |q| && StartsFirst(t, p, q))
  {
    var L1, s1 := WindowOrigin(t, lo, hi, i);
    WindowAt(t, lo, hi, |q|, s2);
    VisitOrder(t, lo, L1, s1, |q|, s2);
    if L1 == |q| {
      SameLengthStartsFirst(t, lo, hi, i, L1, s1, p, q);
    }
  }

  /** Order: shorter patterns first; among patterns of one length, by first occurrence. */
  lemma PatternIndexOrder(t: string, lo: nat, hi: int, a: int, b: int)
    requires 0 <= a < b < |PatternIndex(t, lo, hi)|
    ensures var p, q := PatternIndex(t, lo, hi)[a].pattern, PatternIndex(t, lo, hi)[b].pattern;
      |p| < |q| || (|p| == |q| && StartsFirst(t, p, q))
  {
    var ws := Windows(t, lo, hi);
    var es := PatternIndex(t, lo, hi);
    var p, q := es[a].pattern, es[b].pattern;
    DiscoverOrder(ws, t);
    assert MetFirst(ws, p, q);
    var i :| 0 <= i < |ws| && ws[i] == p && forall c :: 0 <= c < |ws| && ws[c] == q ==> i < c;
    var s2 := EntrySound(t, lo, hi, b);
    MetFirstOrder(t, lo, hi, i, p, q, s2);
  }

  // ---------------------------------------------------------------------------
  // An example

  lemma AbabHits()
    ensures Hits("аб", "абаб") == 2 && Hits("ба", "абаб") == 1
  {
    var t := "абаб";
    assert t[0..2] == "аб" && t[2..4] == "аб";
    assert CountFrom("аб", t, 5) == 0;
    assert CountFrom("аб", t, 4) == 0;
    assert CountFrom("аб", t, 2) == 1;
    assert t[0..2] != "ба" && t[1..3] == "ба" && t[2..4] != "ба";
    assert CountFrom("ба", t, 3) == 0;
    assert CountFrom("ба", t, 1) == 1;
    assert CountFrom("ба", t, 0) == 1;
  }

  lemma AbabWindows()
    ensures Windows("абаб", 2, 2) == ["аб", "ба"]
  {
    var t := "абаб";
    assert Windows(t, 2, 1) == [];
    assert t[0..2] == "аб" && t[1..3] == "ба";
    assert Row(t, 2, 2) == [];
    assert Row(t, 2, 3) == ["аб"];
    assert Row(t, 2, 4) == ["аб", "ба"];
  }

  /** In "абаб" the scan for length 2 records "аб", which occurs twice. */
  lemma AbabPatterns()
    ensures PatternIndex("абаб", 2, 2) == [PatternEntry("аб", 2)]
  {
    var t := "абаб";
    AbabHits();
    AbabWindows();
    assert ["аб", "ба"][..1] == ["аб"];
    assert ["аб"][..0] == [];
    assert Discover(["аб"], t) == [PatternEntry("аб", 2)];
    assert Keys([PatternEntry("аб", 2)]) == ["аб"];
  }
}
