/**
 * The fixed alphabet every part of the analysis works over: the 33 lower-case
 * letters of the Russian alphabet in dictionary order, `ё` sitting at position 6
 * right after `е`. A letter's position is its shift value in the cipher.
 */
module Alphabet {

  /** Number of letters in the alphabet. */
  const N: nat := 33

  /** Code point of the letter at position `i`: `а`..`е` are U+0430..U+0435,
      `ё` is U+0451, and `ж`..`я` continue from U+0436. */
  function CodeAt(i: int): int
    requires 0 <= i < N
  {
    if i < 6 then 0x430 + i else if i == 6 then 0x451 else 0x42F + i
  }

  /** The letter at position `i`. */
  function Letter(i: int): char
    requires 0 <= i < N
  {
    CodeAt(i) as char
  }

  /** The alphabet as the program lists it. */
  const LETTERS: seq<char> :=
    [ 'а', 'б', 'в', 'г', 'д', 'е', 'ё', 'ж', 'з', 'и',
      'й', 'к', 'л', 'м', 'н', 'о', 'п', 'р', 'с', 'т',
      'у', 'ф', 'х', 'ц', 'ч', 'ш', 'щ', 'ъ', 'ы', 'ь',
      'э', 'ю', 'я' ]

  /** The list agrees with the code-point description, position by position. */
  lemma LettersByCode()
    ensures |LETTERS| == N
    ensures forall i :: 0 <= i < N ==> LETTERS[i] == Letter(i)
  {
  }

  /** The key symbol that masks a position instead of shifting it. */
  const WILDCARD: char := '_'

  /** Membership in the alphabet, decided on the code point. */
  predicate IsLetter(c: char)
  {
    0x430 <= c as int <= 0x44F || c as int == 0x451
  }

  lemma IsLetterIsMembership(c: char)
    ensures IsLetter(c) <==> c in LETTERS
  {
    LettersByCode();
    if IsLetter(c) {
      assert LETTERS[IndexOf(c)] == c;
    }
  }

  /** The letters are pairwise distinct, so a position determines a letter and back. */
  lemma LettersDistinct()
    ensures forall i, j :: 0 <= i < j < N ==> Letter(i) != Letter(j)
  {
  }

  /** Position of a letter in the alphabet (the list's `index` lookup). */
  function IndexOf(c: char): (i: nat)
    requires IsLetter(c)
    ensures i < N && Letter(i) == c
  {
    if c as int == 0x451 then 6
    else if c as int <= 0x435 then c as int - 0x430
    else c as int - 0x42F
  }

  /** Every letter of the alphabet is a letter, and its lookup gives back its position. */
  lemma IndexOfLetter(i: int)
    requires 0 <= i < N
    ensures IsLetter(Letter(i)) && IndexOf(Letter(i)) == i
  {
  }

  /** Lower-casing of one character: ASCII capitals and the Cyrillic capitals
      U+0400..U+042F (among them `Ё` and `А`..`Я`); every other character is kept. */
  function ToLower(c: char): (r: char)
    ensures IsLetter(c) ==> r == c
    ensures IsLetter(r) <==> IsLetter(c) || 0x410 <= c as int <= 0x42F || c == 'Ё'
  {
    if 'A' <= c <= 'Z' then (c as int + 0x20) as char
    else if 0x410 <= c as int <= 0x42F then (c as int + 0x20) as char
    else if 0x400 <= c as int <= 0x40F then (c as int + 0x50) as char
    else c
  }

  /** Lower-casing of a whole string, character by character. The result is lower
      case, and a character of it is an alphabet letter exactly when the original was
      a letter or one of the letters' capitals `А`..`Я`, `Ё`. */
  function Lower(s: string): (r: string)
    ensures |r| == |s|
    ensures forall i :: 0 <= i < |s| ==> r[i] == ToLower(s[i])
    ensures IsLowerCase(r)
    ensures forall i :: 0 <= i < |s| ==>
      (IsLetter(r[i]) <==> IsLetter(s[i]) || 0x410 <= s[i] as int <= 0x42F || s[i] == 'Ё')
  {
    seq(|s|, i requires 0 <= i < |s| => ToLower(s[i]))
  }

  predicate IsLowerCase(s: string)
  {
    forall i :: 0 <= i < |s| ==> ToLower(s[i]) == s[i]
  }

  /** Letters of the alphabet are already lower case. */
  lemma LetterIsLower(c: char)
    requires IsLetter(c)
    ensures ToLower(c) == c
  {
  }

  /** The capitals of the alphabet's letters lower-case into the alphabet:
      `А`..`Я` onto `а`..`я` and `Ё` onto `ё`. */
  lemma CapitalsLowerToLetters(c: char)
    requires 0x410 <= c as int <= 0x42F || c == 'Ё'
    ensures IsLetter(ToLower(c))
  {
  }
}
