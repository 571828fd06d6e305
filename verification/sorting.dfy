/**
 * The library's list sort with a key function, as the analysis uses it: a stable
 * sort. Modelled by insertion sort; stability is stated as "an input strictly
 * increasing in some rank comes out ordered by key, ties in rank order".
 */
module StableSort {

  /** `a` goes strictly before `b`: smaller key, or equal key and smaller rank. */
  predicate Before<T>(a: T, b: T, key: T -> real, rank: T -> int)
  {
    key(a) < key(b) || (key(a) == key(b) && rank(a) < rank(b))
  }

  predicate SortedBy<T>(s: seq<T>, key: T -> real, rank: T -> int)
  {
    forall i, j :: 0 <= i < j < |s| ==> Before(s[i], s[j], key, rank)
  }

  predicate StrictlyRanked<T>(s: seq<T>, rank: T -> int)
  {
    forall i, j :: 0 <= i < j < |s| ==> rank(s[i]) < rank(s[j])
  }

  /** Insert `x` after every element whose key does not exceed its own. */
  function InsertBy<T>(x: T, s: seq<T>, key: T -> real): (r: seq<T>)
    ensures multiset(r) == multiset(s) + multiset{x}
  {
    if s == [] then [x]
    else if key(x) < key(s[0]) then [x] + s
    else
      assert s == [s[0]] + s[1..];
      [s[0]] + InsertBy(x, s[1..], key)
  }

  /** Sort by `key`, inserting the elements in their original order. */
  function SortBy<T>(s: seq<T>, key: T -> real): (r: seq<T>)
    ensures multiset(r) == multiset(s)
  {
    if s == [] then []
    else
      assert s == s[..|s| - 1] + [s[|s| - 1]];
      InsertBy(s[|s| - 1], SortBy(s[..|s| - 1], key), key)
  }

  /** Whatever the insertion puts after the head of `s` belongs after that head. */
  lemma InsertedAfterHead<T>(x: T, s: seq<T>, key: T -> real, rank: T -> int, e: T)
    requires SortedBy(s, key, rank)
    requires forall e :: e in s ==> rank(e) < rank(x)
    requires s != [] && key(s[0]) <= key(x)
    requires e in InsertBy(x, s[1..], key)
    ensures Before(s[0], e, key, rank)
  {
    assert e in multiset(InsertBy(x, s[1..], key));
    if e != x {
      var k :| 0 <= k < |s[1..]| && s[1..][k] == e;
      assert s[k + 1] == e;
    }
  }

  /** A head that goes before every element of a sorted list keeps it sorted. */
  lemma ConsSorted<T>(h: T, tail: seq<T>, key: T -> real, rank: T -> int)
    requires SortedBy(tail, key, rank)
    requires forall e :: e in tail ==> Before(h, e, key, rank)
    ensures SortedBy([h] + tail, key, rank)
  {
    var r := [h] + tail;
    forall i, j | 0 <= i < j < |r|
      ensures Before(r[i], r[j], key, rank)
    {
      if i == 0 {
        assert r[j] in tail;
      } else {
        assert r[i] == tail[i - 1] && r[j] == tail[j - 1];
      }
    }
  }

  lemma {:induction false} InsertKeepsOrder<T>(x: T, s: seq<T>, key: T -> real, rank: T -> int)
    requires SortedBy(s, key, rank)
    requires forall e :: e in s ==> rank(e) < rank(x)
    ensures SortedBy(InsertBy(x, s, key), key, rank)
  {
    if s == [] || key(x) < key(s[0]) {
      return;
    }
    var tail := InsertBy(x, s[1..], key);
    assert SortedBy(tail, key, rank) by {
      InsertKeepsOrder(x, s[1..], key, rank);
    }
    forall e | e in tail
      ensures Before(s[0], e, key, rank)
    {
      InsertedAfterHead(x, s, key, rank, e);
    }
    ConsSorted(s[0], tail, key, rank);
  }

  /** The sort is stable: given an input strictly increasing in `rank`, the output is
      ordered by key with ties in rank order, and it is a permutation of the input. */
  lemma {:induction false} SortByStable<T>(s: seq<T>, key: T -> real, rank: T -> int)
    requires StrictlyRanked(s, rank)
    ensures SortedBy(SortBy(s, key), key, rank)
    ensures multiset(SortBy(s, key)) == multiset(s)
  {
    if s == [] {
      return;
    }
    var init, last := s[..|s| - 1], s[|s| - 1];
    SortByStable(init, key, rank);
    var sorted := SortBy(init, key);
    forall e | e in sorted
      ensures rank(e) < rank(last)
    {
      assert e in multiset(sorted);
      assert e in init;
    }
    InsertKeepsOrder(last, sorted, key, rank);
  }
}
