/**
 * The additive (Vigenère) codec: every alphabet letter is shifted by the
 * position of the current key symbol, modulo the alphabet size. A keystream
 * cursor advances once per alphabet letter only; a `_` key slot masks the
 * letter with `_` and still consumes its cursor step; every other character
 * is copied through. Decoding lower-cases its input first, encoding does not.
 */
module Codec {
  import opened Wrappers
  import opened Alphabet

  datatype Direction = Forward | Backward

  /** The exceptions the codec raises: a zero-length key divides by zero as soon as a
      letter is met, and a key symbol outside the alphabet fails its position lookup. */
  datatype CodecError = EmptyKey | UnknownKeySymbol(symbol: char)

  /** A key symbol the codec can use: a letter or the wildcard. */
  predicate ValidSlot(k: char)
  {
    k == WILDCARD || IsLetter(k)
  }

  /** Shift letter `c` by the position of key letter `k`, up for encoding and down for decoding. */
  function ShiftLetter(c: char, k: char, dir: Direction): (r: char)
    requires IsLetter(c) && IsLetter(k)
    ensures IsLetter(r)
  {
    var shift := if dir == Forward then IndexOf(c) + IndexOf(k) else IndexOf(c) - IndexOf(k);
    Letter(shift % N)
  }

  lemma ModInverse(a: int, b: int)
    requires 0 <= a < 33 && 0 <= b < 33
    ensures ((a + b) % 33 - b) % 33 == a
    ensures ((a - b) % 33 + b) % 33 == a
  {
    if a + b < 33 {
      assert (a + b) % 33 == a + b;
    } else {
      assert (a + b) % 33 == a + b - 33;
    }
    if a >= b {
      assert (a - b) % 33 == a - b;
    } else {
      assert (a - b) % 33 == a - b + 33;
    }
  }

  lemma ForwardThenBackward(c: char, k: char)
    requires IsLetter(c) && IsLetter(k)
    ensures ShiftLetter(ShiftLetter(c, k, Forward), k, Backward) == c
  {
    var a: int, b: int := IndexOf(c), IndexOf(k);
    var x := (a + b) % 33;
    var e := ShiftLetter(c, k, Forward);
    assert e == Letter(x);
    assert IndexOf(e) == x by {
      IndexOfLetter(x);
    }
    assert (x - b) % 33 == a by {
      ModInverse(a, b);
    }
    assert ShiftLetter(e, k, Backward) == Letter(a);
  }

  lemma BackwardThenForward(c: char, k: char)
    requires IsLetter(c) && IsLetter(k)
    ensures ShiftLetter(ShiftLetter(c, k, Backward), k, Forward) == c
  {
    var a: int, b: int := IndexOf(c), IndexOf(k);
    var x := (a - b) % 33;
    var e := ShiftLetter(c, k, Backward);
    assert e == Letter(x);
    assert IndexOf(e) == x by {
      IndexOfLetter(x);
    }
    assert (x + b) % 33 == a by {
      ModInverse(a, b);
    }
    assert ShiftLetter(e, k, Forward) == Letter(a);
  }

  /** Shifting down by a key letter undoes shifting up by it, and the other way round. */
  lemma ShiftInverse(c: char, k: char)
    requires IsLetter(c) && IsLetter(k)
    ensures ShiftLetter(ShiftLetter(c, k, Forward), k, Backward) == c
    ensures ShiftLetter(ShiftLetter(c, k, Backward), k, Forward) == c
  {
    ForwardThenBackward(c, k);
    BackwardThenForward(c, k);
  }

  /** Number of alphabet letters in `s`: how far the keystream cursor moves over `s`. */
  function LetterCount(s: string): (n: nat)
    ensures n <= |s|
  {
    if s == [] then 0 else (if IsLetter(s[0]) then 1 else 0) + LetterCount(s[1..])
  }

  /** `prefix` followed by a successful result; an error is passed on. */
  function Join(prefix: string, r: Result<string, CodecError>): Result<string, CodecError>
  {
    match r
    case Ok(s) => Ok(prefix + s)
    case Err(e) => Err(e)
  }

  lemma JoinJoin(prefix: string, c: char, r: Result<string, CodecError>)
    ensures Join(prefix, Join([c], r)) == Join(prefix + [c], r)
  {
    if r.Ok? {
      assert prefix + ([c] + r.value) == (prefix + [c]) + r.value;
    }
  }

  /** The codec over `text` with the keystream cursor starting at `cursor`. */
  function Transform(text: string, key: string, cursor: nat, dir: Direction): (r: Result<string, CodecError>)
    ensures r.Ok? ==> |r.value| == |text|
    ensures r.Err? ==> LetterCount(text) > 0 && (r.error == EmptyKey <==> |key| == 0)
    decreases |text|
  {
    if text == [] then Ok([])
    else if !IsLetter(text[0]) then Join([text[0]], Transform(text[1..], key, cursor, dir))
    else if |key| == 0 then Err(EmptyKey)
    else
      var slot := key[cursor % |key|];
      if slot == WILDCARD then Join([WILDCARD], Transform(text[1..], key, cursor + 1, dir))
      else if !IsLetter(slot) then Err(UnknownKeySymbol(slot))
      else Join([ShiftLetter(text[0], slot, dir)], Transform(text[1..], key, cursor + 1, dir))
  }

  /** What the codec emits for character `x` when the keystream cursor is at `cursor`. */
  predicate Emits(x: char, y: char, key: string, cursor: nat, dir: Direction)
  {
    if !IsLetter(x) then y == x
    else
      |key| > 0 &&
      var slot := key[cursor % |key|];
      if slot == WILDCARD then y == WILDCARD
      else IsLetter(slot) && y == ShiftLetter(x, slot, dir)
  }

  /** Every letter of `text` meets a key slot the codec can use. */
  predicate KeyCovers(text: string, key: string, cursor: nat)
  {
    forall i :: 0 <= i < |text| && IsLetter(text[i]) ==>
      |key| > 0 && ValidSlot(key[(cursor + LetterCount(text[..i])) % |key|])
  }

  /** Encoding: the codec run upward with the cursor at 0. */
  function Encoded(plaintext: string, key: string): (r: Result<string, CodecError>)
    ensures r.Ok? <==> KeyCovers(plaintext, key, 0)
    ensures r.Ok? ==> |r.value| == |plaintext|
    ensures r.Ok? ==> forall i :: 0 <= i < |plaintext| && !IsLetter(plaintext[i]) ==> r.value[i] == plaintext[i]
  {
    TransformSucceeds(plaintext, key, 0, Forward);
    var r := Transform(plaintext, key, 0, Forward);
    if r.Ok? then
      TransformPointwise(plaintext, key, 0, Forward, r.value);
      assert forall i :: 0 <= i < |plaintext| ==>
        Emits(plaintext[i], r.value[i], key, LetterCount(plaintext[..i]), Forward);
      r
    else r
  }

  /** Decoding: the input lower-cased, then the codec run downward with the cursor at 0. */
  function Decoded(ciphertext: string, key: string): (r: Result<string, CodecError>)
    ensures r.Ok? <==> KeyCovers(Lower(ciphertext), key, 0)
    ensures r.Ok? ==> |r.value| == |ciphertext|
    ensures r.Ok? ==> forall i :: 0 <= i < |ciphertext| && !IsLetter(Lower(ciphertext)[i]) ==>
      r.value[i] == ToLower(ciphertext[i])
  {
    var text := Lower(ciphertext);
    TransformSucceeds(text, key, 0, Backward);
    var r := Transform(text, key, 0, Backward);
    if r.Ok? then
      TransformPointwise(text, key, 0, Backward, r.value);
      assert forall i :: 0 <= i < |text| ==>
        Emits(text[i], r.value[i], key, LetterCount(text[..i]), Backward);
      r
    else r
  }

  /** The loop both directions share: build the output one character at a time,
      stepping the keystream cursor on letters. */
  method Shift(text: string, key: string, dir: Direction) returns (r: Result<string, CodecError>)
    ensures r == Transform(text, key, 0, dir)
  {
    var out := "";
    var keyChar: nat := 0;
    assert text[0..] == text;
    assert Join(out, Transform(text, key, 0, dir)) == Transform(text, key, 0, dir) by {
      var r := Transform(text, key, 0, dir);
      if r.Ok? {
        assert out + r.value == r.value;
      }
    }
    for i := 0 to |text|
      invariant Transform(text, key, 0, dir) == Join(out, Transform(text[i..], key, keyChar, dir))
    {
      var c := text[i];
      ghost var rest := text[i..];
      assert rest[0] == c && rest[1..] == text[i + 1..];
      if IsLetter(c) {
        if |key| == 0 {
          assert Transform(rest, key, keyChar, dir) == Err(EmptyKey);
          assert Join(out, Err(EmptyKey)) == Err(EmptyKey);
          return Err(EmptyKey);
        }
        var slot := key[keyChar % |key|];
        if slot != WILDCARD {
          if !IsLetter(slot) {
            assert Transform(rest, key, keyChar, dir) == Err(UnknownKeySymbol(slot));
            assert Join(out, Err(UnknownKeySymbol(slot))) == Err(UnknownKeySymbol(slot));
            return Err(UnknownKeySymbol(slot));
          }
          JoinJoin(out, ShiftLetter(c, slot, dir), Transform(text[i + 1..], key, keyChar + 1, dir));
          out := out + [ShiftLetter(c, slot, dir)];
        } else {
          JoinJoin(out, WILDCARD, Transform(text[i + 1..], key, keyChar + 1, dir));
          out := out + [WILDCARD];
        }
        keyChar := keyChar + 1;
      } else {
        JoinJoin(out, c, Transform(text[i + 1..], key, keyChar, dir));
        out := out + [c];
      }
    }
    assert text[|text|..] == [] && out + [] == out;
    r := Ok(out);
  }

  method Encode(plaintext: string, key: string) returns (r: Result<string, CodecError>)
    ensures r == Encoded(plaintext, key)
  {
    r := Shift(plaintext, key, Forward);
  }

  method Decode(ciphertext: string, key: string) returns (r: Result<string, CodecError>)
    ensures r == Decoded(ciphertext, key)
  {
    r := Shift(Lower(ciphertext), key, Backward);
  }

  lemma {:induction false} LetterCountPrefix(text: string, i: int)
    requires 1 <= i <= |text|
    ensures LetterCount(text[..i]) == (if IsLetter(text[0]) then 1 else 0) + LetterCount(text[1..][..i - 1])
  {
    assert text[..i][1..] == text[1..][..i - 1];
  }

  /** A successful run of the codec keeps the length of its input. */
  lemma {:induction false} TransformLength(text: string, key: string, cursor: nat, dir: Direction)
    ensures Transform(text, key, cursor, dir).Ok? ==> |Transform(text, key, cursor, dir).value| == |text|
    decreases |text|
  {
    if text != [] {
      TransformLength(text[1..], key, if IsLetter(text[0]) then cursor + 1 else cursor, dir);
    }
  }

  /** `out` holds, index by index, what the codec emits for `text`, the cursor
      advanced by the letters before each index. */
  predicate AllEmit(text: string, out: string, key: string, cursor: nat, dir: Direction)
  {
    |out| == |text| &&
    forall i :: 0 <= i < |text| ==> Emits(text[i], out[i], key, cursor + LetterCount(text[..i]), dir)
  }

  lemma AllEmitTail(text: string, out: string, key: string, cursor: nat, dir: Direction)
    requires |text| > 0 && AllEmit(text, out, key, cursor, dir)
    ensures Emits(text[0], out[0], key, cursor, dir)
    ensures AllEmit(text[1..], out[1..], key, cursor + (if IsLetter(text[0]) then 1 else 0), dir)
  {
    var step := if IsLetter(text[0]) then 1 else 0;
    assert text[..0] == [];
    forall i | 0 <= i < |text[1..]|
      ensures Emits(text[1..][i], out[1..][i], key, cursor + step + LetterCount(text[1..][..i]), dir)
    {
      LetterCountPrefix(text, i + 1);
      assert Emits(text[i + 1], out[i + 1], key, cursor + LetterCount(text[..i + 1]), dir);
    }
  }

  lemma AllEmitCons(text: string, out: string, key: string, cursor: nat, dir: Direction)
    requires |text| > 0 && |out| == |text|
    requires Emits(text[0], out[0], key, cursor, dir)
    requires AllEmit(text[1..], out[1..], key, cursor + (if IsLetter(text[0]) then 1 else 0), dir)
    ensures AllEmit(text, out, key, cursor, dir)
  {
    var step := if IsLetter(text[0]) then 1 else 0;
    assert text[..0] == [];
    forall i | 0 <= i < |text|
      ensures Emits(text[i], out[i], key, cursor + LetterCount(text[..i]), dir)
    {
      if i > 0 {
        LetterCountPrefix(text, i);
        assert Emits(text[1..][i - 1], out[1..][i - 1], key, cursor + step + LetterCount(text[1..][..i - 1]), dir);
      }
    }
  }

  /** One step of the codec: the first output character is what it emits for the first
      input character, and the rest is the codec on the rest. */
  lemma TransformCons(text: string, key: string, cursor: nat, dir: Direction, out: string)
    requires |text| > 0 && |out| == |text|
    ensures Transform(text, key, cursor, dir) == Ok(out) <==>
      Emits(text[0], out[0], key, cursor, dir) &&
      Transform(text[1..], key, cursor + (if IsLetter(text[0]) then 1 else 0), dir) == Ok(out[1..])
  {
    assert out == [out[0]] + out[1..];
  }

  /** The codec succeeds with `out` exactly when `out` has the text's length and holds,
      at every index, what the codec emits for that character with the cursor advanced
      by the letters before it: non-letters copied, letters shifted or masked. */
  lemma {:induction false} TransformPointwise(text: string, key: string, cursor: nat, dir: Direction, out: string)
    ensures Transform(text, key, cursor, dir) == Ok(out) <==> AllEmit(text, out, key, cursor, dir)
    decreases |text|
  {
    if text == [] || |out| != |text| {
      return;
    }
    var step := if IsLetter(text[0]) then 1 else 0;
    TransformPointwise(text[1..], key, cursor + step, dir, out[1..]);
    TransformCons(text, key, cursor, dir, out);
    AllEmitStep(text, out, key, cursor, dir);
  }

  lemma AllEmitStep(text: string, out: string, key: string, cursor: nat, dir: Direction)
    requires |text| > 0 && |out| == |text|
    ensures AllEmit(text, out, key, cursor, dir) <==>
      Emits(text[0], out[0], key, cursor, dir) &&
      AllEmit(text[1..], out[1..], key, cursor + (if IsLetter(text[0]) then 1 else 0), dir)
  {
    if AllEmit(text, out, key, cursor, dir) {
      AllEmitTail(text, out, key, cursor, dir);
    }
    if Emits(text[0], out[0], key, cursor, dir) &&
      AllEmit(text[1..], out[1..], key, cursor + (if IsLetter(text[0]) then 1 else 0), dir) {
      AllEmitCons(text, out, key, cursor, dir);
    }
  }

  lemma KeyCoversTail(text: string, key: string, cursor: nat)
    requires |text| > 0 && KeyCovers(text, key, cursor)
    ensures IsLetter(text[0]) ==> |key| > 0 && ValidSlot(key[cursor % |key|])
    ensures KeyCovers(text[1..], key, cursor + (if IsLetter(text[0]) then 1 else 0))
  {
    assert text[..0] == [];
    var step := if IsLetter(text[0]) then 1 else 0;
    forall i | 0 <= i < |text[1..]| && IsLetter(text[1..][i])
      ensures |key| > 0 && ValidSlot(key[(cursor + step + LetterCount(text[1..][..i])) % |key|])
    {
      LetterCountPrefix(text, i + 1);
      assert IsLetter(text[i + 1]);
    }
  }

  lemma KeyCoversCons(text: string, key: string, cursor: nat)
    requires |text| > 0
    requires IsLetter(text[0]) ==> |key| > 0 && ValidSlot(key[cursor % |key|])
    requires KeyCovers(text[1..], key, cursor + (if IsLetter(text[0]) then 1 else 0))
    ensures KeyCovers(text, key, cursor)
  {
    assert text[..0] == [];
    var step := if IsLetter(text[0]) then 1 else 0;
    forall i | 0 <= i < |text| && IsLetter(text[i])
      ensures |key| > 0 && ValidSlot(key[(cursor + LetterCount(text[..i])) % |key|])
    {
      if i > 0 {
        LetterCountPrefix(text, i);
        assert IsLetter(text[1..][i - 1]);
      }
    }
  }

  /** The codec fails exactly when some letter meets no usable key slot, and it reports
      the empty key exactly when the key is empty and the text holds a letter. */
  lemma {:induction false} TransformSucceeds(text: string, key: string, cursor: nat, dir: Direction)
    ensures Transform(text, key, cursor, dir).Ok? <==> KeyCovers(text, key, cursor)
    ensures Transform(text, key, cursor, dir) == Err(EmptyKey) <==> |key| == 0 && LetterCount(text) > 0
    decreases |text|
  {
    if text == [] {
      return;
    }
    var step := if IsLetter(text[0]) then 1 else 0;
    TransformSucceeds(text[1..], key, cursor + step, dir);
    if KeyCovers(text, key, cursor) {
      KeyCoversTail(text, key, cursor);
    } else if (IsLetter(text[0]) ==> |key| > 0 && ValidSlot(key[cursor % |key|])) && KeyCovers(text[1..], key, cursor + step) {
      KeyCoversCons(text, key, cursor);
    }
  }

  /** A key made only of letters (no wildcard) and not empty. */
  predicate PlainKey(key: string)
  {
    |key| > 0 && forall j :: 0 <= j < |key| ==> IsLetter(key[j])
  }

  /** Running the codec down over what it produced going up, from the same cursor,
      gives back the input. */
  lemma {:induction false} TransformInverse(text: string, key: string, cursor: nat)
    requires PlainKey(key)
    ensures Transform(text, key, cursor, Forward).Ok?
    ensures Transform(Transform(text, key, cursor, Forward).value, key, cursor, Backward) == Ok(text)
    decreases |text|
  {
    if text == [] {
      return;
    }
    var c := text[0];
    var step := if IsLetter(c) then 1 else 0;
    TransformInverse(text[1..], key, cursor + step);
    var rest := Transform(text[1..], key, cursor + step, Forward).value;
    var y := if IsLetter(c) then ShiftLetter(c, key[cursor % |key|], Forward) else c;
    assert Transform(text, key, cursor, Forward) == Ok([y] + rest);
    assert ([y] + rest)[0] == y && ([y] + rest)[1..] == rest;
    if IsLetter(c) {
      ShiftInverse(c, key[cursor % |key|]);
    }
    assert text == [c] + text[1..];
  }

  /** With letters in the key and no wildcard, encoding never fails and is lower case
      whenever the plaintext is. */
  lemma EncodedLowerCase(plaintext: string, key: string)
    requires PlainKey(key) && IsLowerCase(plaintext)
    ensures Encoded(plaintext, key).Ok?
    ensures Lower(Encoded(plaintext, key).value) == Encoded(plaintext, key).value
  {
    TransformInverse(plaintext, key, 0);
    var out := Encoded(plaintext, key).value;
    TransformPointwise(plaintext, key, 0, Forward, out);
    forall i | 0 <= i < |out|
      ensures ToLower(out[i]) == out[i]
    {
      assert Emits(plaintext[i], out[i], key, LetterCount(plaintext[..i]), Forward);
      if IsLetter(plaintext[i]) {
        LetterIsLower(out[i]);
      }
    }
  }

  /** Decoding undoes encoding for a non-empty all-letter key without wildcards and a
      plaintext that is already lower case (decoding lower-cases, encoding does not). */
  lemma RoundTrip(plaintext: string, key: string)
    requires PlainKey(key) && IsLowerCase(plaintext)
    ensures Encoded(plaintext, key).Ok?
    ensures Decoded(Encoded(plaintext, key).value, key) == Ok(plaintext)
  {
    EncodedLowerCase(plaintext, key);
    TransformInverse(plaintext, key, 0);
  }

  /** Without the lower-case condition the round trip fails: encoding passes the capital
      `А` through untouched, decoding lower-cases it to `а` and shifts it down by `б`. */
  lemma CapitalBreaksRoundTrip()
    ensures Encoded("А", "б") == Ok("А")
    ensures Decoded("А", "б") == Ok("я")
  {
    assert !IsLetter('А') && "А"[1..] == [];
    assert Transform([], "б", 0, Forward) == Ok([]);
    assert Transform("А", "б", 0, Forward) == Join(['А'], Transform([], "б", 0, Forward));
    assert ['А'] + [] == "А";
    assert Lower("А") == "а" && "а"[1..] == [];
    assert ShiftLetter('а', 'б', Backward) == 'я' by {
      assert IndexOf('а') == 0 && IndexOf('б') == 1;
      assert (0 - 1) % N == 32;
    }
    assert Transform([], "б", 1, Backward) == Ok([]);
    assert Transform("а", "б", 0, Backward) == Join(['я'], Transform([], "б", 1, Backward));
    assert ['я'] + [] == "я";
  }

  /** Replacing key slot `j` by the wildcard masks exactly the letters that meet slot `j`
      and leaves every other output character, and the keystream alignment, unchanged. */
  lemma WildcardMasks(text: string, key: string, cursor: nat, dir: Direction, out: string, j: int)
    requires 0 <= j < |key|
    requires Transform(text, key, cursor, dir) == Ok(out)
    ensures |out| == |text|
    ensures Transform(text, key[j := WILDCARD], cursor, dir) ==
      Ok(seq(|text|, i requires 0 <= i < |text| =>
        if IsLetter(text[i]) && (cursor + LetterCount(text[..i])) % |key| == j then WILDCARD else out[i]))
  {
    TransformPointwise(text, key, cursor, dir, out);
    var masked := seq(|text|, i requires 0 <= i < |text| =>
      if IsLetter(text[i]) && (cursor + LetterCount(text[..i])) % |key| == j then WILDCARD else out[i]);
    var key' := key[j := WILDCARD];
    forall i | 0 <= i < |text|
      ensures Emits(text[i], masked[i], key', cursor + LetterCount(text[..i]), dir)
    {
      assert Emits(text[i], out[i], key, cursor + LetterCount(text[..i]), dir);
    }
    TransformPointwise(text, key', cursor, dir, masked);
  }
}
