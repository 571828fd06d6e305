/**
 * Index arithmetic on the cleaned ciphertext: the key slice (every character whose
 * index is congruent to a key position modulo the key length) and list rotation
 * (Python slicing `seq[n:] + seq[:n]`).
 */
module Slicing {

  /** Euclidean division has unique quotient and remainder. */
  lemma DivModUnique(a: int, d: int, q: int, r: int)
    requires d > 0 && 0 <= r < d && a == q * d + r
    ensures a / d == q && a % d == r
  {
    var q', r' := a / d, a % d;
    assert a == q' * d + r';
    MulMonotone(q' - q, d);
    MulMonotone(q - q', d);
    assert (q' - q) * d == r - r';
  }

  /** `x * d` moves with `x` in whole steps of `d`. */
  lemma MulMonotone(x: int, d: int)
    requires d > 0
    ensures x >= 1 ==> x * d >= d
    ensures x <= -1 ==> x * d <= -d
  {
    if x >= 1 {
      var y := x - 1;
      assert x * d == y * d + d;
      assert y * d >= 0;
    } else if x <= -1 {
      var y := -x - 1;
      assert x * d == -(y * d) - d;
      assert y * d >= 0;
    }
  }

  /** A quotient is at least `b` once the dividend reaches `b` times the divisor. */
  lemma DivAtLeast(a: int, d: int, b: int)
    requires d > 0 && a >= b * d
    ensures a / d >= b
  {
    var q, r := a / d, a % d;
    assert a == q * d + r;
    MulMonotone(b - q, d);
    assert (b - q) * d == b * d - q * d;
  }

  /** The characters of `text` whose index leaves remainder `position` modulo
      `keyLength`, in their original order. */
  function KeySlice(text: string, position: int, keyLength: int): (r: string)
    requires keyLength > 0
    ensures |r| <= |text|
  {
    if text == [] then []
    else
      var last := |text| - 1;
      KeySlice(text[..last], position, keyLength) + (if last % keyLength == position then [text[last]] else [])
  }

  /** Number of indices below `n` congruent to `position` modulo `keyLength`. */
  function SliceLength(n: nat, position: int, keyLength: int): nat
    requires 0 <= position < keyLength
  {
    (n + keyLength - 1 - position) / keyLength
  }

  /** Growing the text by one index grows only the slice that index belongs to. */
  lemma SliceLengthStep(m: nat, position: int, keyLength: int)
    requires 0 <= position < keyLength
    ensures SliceLength(m + 1, position, keyLength) ==
      SliceLength(m, position, keyLength) + (if m % keyLength == position then 1 else 0)
    ensures m % keyLength == position ==> m == position + SliceLength(m, position, keyLength) * keyLength
  {
    var q, r := m / keyLength, m % keyLength;
    var L := keyLength;
    var qL := q * L;
    assert m == qL + r;
    assert (q + 1) * L == qL + L;
    if r == position {
      DivModUnique(m + L - 1 - position, L, q, L - 1);
      DivModUnique(m + L - position, L, q + 1, 0);
    } else if r > position {
      DivModUnique(m + L - 1 - position, L, q + 1, r - position - 1);
      DivModUnique(m + L - position, L, q + 1, r - position);
    } else {
      DivModUnique(m + L - 1 - position, L, q, L - 1 + r - position);
      DivModUnique(m + L - position, L, q, L + r - position);
    }
  }

  /** A slice holds exactly the characters `text[position + j * keyLength]`, for every
      such index inside the text and in that order. */
  lemma {:induction false} KeySliceAt(text: string, position: int, keyLength: int)
    requires 0 <= position < keyLength
    ensures |KeySlice(text, position, keyLength)| == SliceLength(|text|, position, keyLength)
    ensures forall j :: 0 <= j < |KeySlice(text, position, keyLength)| ==>
      position + j * keyLength < |text| &&
      KeySlice(text, position, keyLength)[j] == text[position + j * keyLength]
  {
    if text == [] {
      assert SliceLength(0, position, keyLength) == 0 by {
        DivModUnique(keyLength - 1 - position, keyLength, 0, keyLength - 1 - position);
      }
      return;
    }
    var last := |text| - 1;
    var init := text[..last];
    KeySliceAt(init, position, keyLength);
    SliceLengthStep(last, position, keyLength);
    var s := KeySlice(text, position, keyLength);
    forall j | 0 <= j < |s|
      ensures position + j * keyLength < |text| && s[j] == text[position + j * keyLength]
    {
      if j < |KeySlice(init, position, keyLength)| {
        assert s[j] == KeySlice(init, position, keyLength)[j];
      }
    }
  }

  /** A position outside `0 .. keyLength - 1` selects nothing. */
  lemma {:induction false} KeySliceOutOfRange(text: string, position: int, keyLength: int)
    requires keyLength > 0 && !(0 <= position < keyLength)
    ensures KeySlice(text, position, keyLength) == []
  {
    if text != [] {
      KeySliceOutOfRange(text[..|text| - 1], position, keyLength);
    }
  }

  lemma KeySliceHolds(text: string, keyLength: int, q: nat, r: int)
    requires 0 <= r < keyLength && q * keyLength + r < |text|
    ensures q < |KeySlice(text, r, keyLength)|
    ensures KeySlice(text, r, keyLength)[q] == text[r + q * keyLength]
  {
    var L := keyLength;
    KeySliceAt(text, r, L);
    MulMonotone(q + 1, L);
    assert |text| + L - 1 - r >= (q + 1) * L by {
      assert (q + 1) * L == q * L + L;
    }
    DivAtLeast(|text| + L - 1 - r, L, q + 1);
  }

  /** Every character of the text sits in the slice of its index's remainder, at the
      quotient: the slices interleave back into the text. */
  lemma KeySliceInterleave(text: string, keyLength: int, i: int)
    requires keyLength > 0 && 0 <= i < |text|
    ensures i / keyLength < |KeySlice(text, i % keyLength, keyLength)|
    ensures KeySlice(text, i % keyLength, keyLength)[i / keyLength] == text[i]
  {
    var q, r := i / keyLength, i % keyLength;
    assert i == q * keyLength + r;
    KeySliceHolds(text, keyLength, q, r);
  }

  /** Total length of the slices for positions `0 .. k - 1`. */
  function SliceLengthSum(text: string, keyLength: int, k: nat): nat
    requires keyLength > 0
  {
    if k == 0 then 0 else SliceLengthSum(text, keyLength, k - 1) + |KeySlice(text, k - 1, keyLength)|
  }

  lemma {:induction false} SliceLengthSumStep(text: string, c: char, keyLength: int, k: nat)
    requires keyLength > 0
    ensures SliceLengthSum(text + [c], keyLength, k) ==
      SliceLengthSum(text, keyLength, k) + (if |text| % keyLength < k then 1 else 0)
  {
    if k > 0 {
      SliceLengthSumStep(text, c, keyLength, k - 1);
      assert (text + [c])[..|text|] == text;
    }
  }

  /** The slices for the positions `0 .. keyLength - 1` share out the whole text:
      their lengths add up to the text's length. */
  lemma {:induction false} KeySlicesPartition(text: string, keyLength: int)
    requires keyLength > 0
    ensures SliceLengthSum(text, keyLength, keyLength) == |text|
  {
    if text == [] {
      ZeroSum(keyLength, keyLength);
    } else {
      var init := text[..|text| - 1];
      KeySlicesPartition(init, keyLength);
      SliceLengthSumStep(init, text[|text| - 1], keyLength, keyLength);
      assert init + [text[|text| - 1]] == text;
    }
  }

  lemma {:induction false} ZeroSum(keyLength: int, k: nat)
    requires keyLength > 0
    ensures SliceLengthSum([], keyLength, k) == 0
  {
    if k > 0 {
      ZeroSum(keyLength, k - 1);
    }
  }

  /** Where Python's slice `seq[n:]` starts: negative bounds count from the end and
      every bound is clamped into `0 .. |seq|`. */
  function SliceBound(n: int, length: nat): (k: nat)
    ensures k <= length
  {
    if n < 0 then (if length + n < 0 then 0 else length + n)
    else if n > length then length
    else n
  }

  /** `seq[n:] + seq[:n]`: a left rotation by `n`; the program's own comment on `rotate`
      describes a right rotation. */
  function Rotate<T>(s: seq<T>, n: int): (r: seq<T>)
    ensures |r| == |s| && multiset(r) == multiset(s)
  {
    var k := SliceBound(n, |s|);
    assert s == s[..k] + s[k..];
    s[k..] + s[..k]
  }

  /** For `-|s| <= n <= |s|`, the rotated list holds at `i` the element `n` places further
      on, wrapping round (to the left for positive `n`, to the right for negative `n`). */
  lemma RotateAt<T>(s: seq<T>, n: int, i: int)
    requires -|s| <= n <= |s| && 0 <= i < |s|
    ensures Rotate(s, n)[i] == s[(i + n) % |s|]
  {
    var k := SliceBound(n, |s|);
    var len := |s|;
    if n < 0 {
      DivModUnique(i + n, len, if i + n < 0 then -1 else 0, if i + n < 0 then i + n + len else i + n);
    } else {
      DivModUnique(i + n, len, if i + n < len then 0 else 1, if i + n < len then i + n else i + n - len);
    }
    if i < len - k {
      assert Rotate(s, n)[i] == s[k + i];
    } else {
      assert Rotate(s, n)[i] == s[i - (len - k)];
    }
  }

  /** Rotating by nothing, or by at least the whole length, changes nothing. */
  lemma RotateIdentity<T>(s: seq<T>, n: int)
    requires n == 0 || n >= |s| || n <= -|s|
    ensures Rotate(s, n) == s
  {
    var k := SliceBound(n, |s|);
    if k == 0 {
      assert s[0..] == s;
    } else {
      assert k == |s| && s[..k] == s;
    }
  }
}
