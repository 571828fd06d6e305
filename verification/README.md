# Vigenère analysis over the Russian alphabet — a Dafny model

This project models the analysis half of a Vigenère-cipher breaker that works over a
fixed 33-letter lower-case Russian alphabet (`а`..`я` with `ё` at position 6). The
modelled parts are:

- **Codec.** Each letter is shifted by the position of the current key symbol,
  modulo 33.
  - A keystream cursor advances on letters only.
  - A `_` key slot masks the letter with `_`.
  - Every other character passes through unchanged.
  - Decoding lower-cases its input first; encoding does not.
- **Key slices.** Every character whose index is congruent to a key position modulo
  the key length.
- **Rotation.** Python's `seq[n:] + seq[:n]`.
- **Letter frequencies.** The per-letter counts, then each count as a percentage of
  the text's length.
- **Key-letter ranking.** One `(letter, error)` pair per letter, stably sorted by the
  error.
- **Pattern index.** Every substring with a length in a given range that occurs more
  than once, with its non-overlapping count, in scan order.
- **Key-length estimate.**
  1. The end positions of every pattern's occurrences are collected, and the gaps
     between consecutive ones are pooled.
  2. Each candidate length gets the share of gaps it divides (successes) and the
     share it does not (failures).
  3. The candidates are stably sorted by failure ratio.

In the codec, the frequency count and the key-length estimate, every error the program
raises is modelled as an `Err` result rather than excluded by a precondition:

- an empty key, or a key symbol outside the alphabet, in the codec;
- a character with no counter, or an empty text, in the frequency count;
- an empty pattern dictionary, or a division by zero, in the key-length estimate.

The files are:

- `wrappers.dfy`: the `Result` type.
- `alphabet.dfy`: the alphabet, positions and lower-casing.
- `codec.dfy`: encode and decode. One loop, `Shift`, is proved against the spec
  function `Transform`.
- `slicing.dfy`: key slices and rotation.
- `sorting.dfy`: the stable sort by key.
- `frequency.dfy`: letter frequencies and the key-letter ranking.
- `patterns.dfy`: the pattern scan.
- `keylength.dfy`: the key-length estimate.

Each loop of the program is a Dafny `method` with invariants, proved equal to a
recursive specification function. The properties are lemmas about those functions.

Three details of the code are modelled as written:

- **The pattern scan skips the window that ends at the text's last character**
  (`range(i, len(ciphertext))` at ViginereAnalysis.py:24). This loses no pattern.
  Any substring that occurs twice has an earlier occurrence that is a visited window
  (`Patterns.RepeatedIsCandidate`, `Patterns.PatternIndexComplete`).
- **The location scan in the key-length estimate has the same bound**
  (ViginereAnalysis.py:53), so an occurrence ending at the text's end is never
  located. Here it does matter. In `абаб` the pattern `аб` repeats but only one
  location is found. The gap pool is then empty and the estimate divides by zero
  (`KeyLength.SkippedLastOccurrence`).
- **The rotation's comment (lines 173-174) describes a right rotation, but
  `seq[n:] + seq[:n]` rotates left.** The model follows the code (`Slicing.RotateAt`).

## Model

| member | source | states |
|---|---|---|
| `Alphabet.LettersByCode` | ViginereAnalysis.py:5-9 | The listed alphabet has 33 letters, and position `i` holds the code point `Letter(i)` (`ё` at 6). |
| `Alphabet.IsLetterIsMembership` | ViginereAnalysis.py:136 | The arithmetic letter test agrees with membership in the list, both ways. |
| `Alphabet.LettersDistinct` | ViginereAnalysis.py:5-9 | No letter is listed twice, so a position determines its letter. |
| `Alphabet.IndexOf` | ViginereAnalysis.py:140 | The position lookup of a letter gives a position below 33 that holds that letter. |
| `Alphabet.IndexOfLetter` | ViginereAnalysis.py:162 | Looking up the letter at position `i` gives back `i`. |
| `Alphabet.ToLower` | ViginereAnalysis.py:135 | Lower-casing one character leaves the alphabet's letters alone. Its result is a letter exactly when the character was a letter or one of the capitals `А`..`Я`, `Ё`. |
| `Alphabet.Lower` | ViginereAnalysis.py:135 | The lower-cased text is lower case. A character of it is an alphabet letter exactly when the original was a letter or one of the capitals `А`..`Я`, `Ё`. |
| `Alphabet.LetterIsLower` | ViginereAnalysis.py:135 | Letters of the alphabet are unchanged by lower-casing. |
| `Alphabet.CapitalsLowerToLetters` | ViginereAnalysis.py:135 | The capitals `А`..`Я` and `Ё` lower-case into the alphabet. |
| `Codec.ShiftLetter` | ViginereAnalysis.py:140 | Shifting a letter by a key letter, up or down modulo 33, gives a letter. |
| `Codec.ShiftInverse` | ViginereAnalysis.py:140 | Shifting down by a key letter undoes shifting up by it, and the other way round. |
| `Codec.LetterCount` | ViginereAnalysis.py:144 | The cursor advances at most once per character. |
| `Codec.Transform` | ViginereAnalysis.py:135-147 | This is the codec loop's result from a given cursor. A success keeps the length. An error needs a letter in the text, and it is the empty-key error exactly when the key is empty. |
| `Codec.Encoded` | ViginereAnalysis.py:152-171 | Encoding succeeds iff every letter meets a usable key slot. A success keeps the length and passes every non-letter through unchanged. |
| `Codec.Decoded` | ViginereAnalysis.py:130-149 | Decoding succeeds iff every letter of the lower-cased input meets a usable key slot. A success keeps the length and passes every non-letter through lower-cased. |
| `Codec.Shift` | ViginereAnalysis.py:130-171 | The shared encode/decode loop returns exactly `Transform(text, key, 0, dir)`, including both error results. |
| `Codec.Encode` | ViginereAnalysis.py:152-171 | Encoding is the upward codec on the raw plaintext, cursor at 0. |
| `Codec.Decode` | ViginereAnalysis.py:130-149 | Decoding is the downward codec on the lower-cased ciphertext, cursor at 0. |
| `Codec.TransformLength` | ViginereAnalysis.py:135-147 | A successful run keeps the input's length. |
| `Codec.TransformPointwise` | ViginereAnalysis.py:135-147 | The output is `out` iff each index holds what the codec emits there: non-letters copied, letters masked by `_` or shifted by the key slot the cursor reaches. |
| `Codec.TransformSucceeds` | ViginereAnalysis.py:136-140 | The codec succeeds iff every letter meets a usable key slot (a letter or `_`). It reports the empty key iff the key is empty and the text has a letter. |
| `Codec.TransformInverse` | ViginereAnalysis.py:140 | With a non-empty all-letter key, the downward codec undoes the upward one from any cursor. |
| `Codec.EncodedLowerCase` | ViginereAnalysis.py:152-171 | With such a key, encoding lower-case text cannot fail and its output is lower case. |
| `Codec.RoundTrip` | ViginereAnalysis.py:130-171 | `decode(encode(p, k), k) == p` for lower-case `p` and a non-empty all-letter key without `_`. |
| `Codec.CapitalBreaksRoundTrip` | ViginereAnalysis.py:135 | Encoding keeps the capital `А`, but decoding turns it into `я`: the round trip needs lower-case input. |
| `Codec.WildcardMasks` | ViginereAnalysis.py:138-142 | Turning key slot `j` into `_` masks exactly the letters that meet slot `j`. Every other output character stays the same. |
| `Slicing.KeySlice` | ViginereAnalysis.py:90-91 | The characters whose index leaves remainder `position` modulo `keyLength`, in order. The slice is no longer than the text; `KeySliceAt` states its exact contents. |
| `Slicing.KeySliceAt` | ViginereAnalysis.py:90-91 | Slice `position` has `SliceLength` characters, and its `j`-th is `text[position + j * keyLength]`. |
| `Slicing.KeySliceOutOfRange` | ViginereAnalysis.py:91 | A position outside `0 .. keyLength - 1` gives the empty slice. |
| `Slicing.KeySliceHolds` | ViginereAnalysis.py:91 | The character at `q * keyLength + r` is entry `q` of slice `r`. |
| `Slicing.KeySliceInterleave` | ViginereAnalysis.py:90-91 | Every character sits in the slice of its index's remainder, at the quotient. |
| `Slicing.KeySlicesPartition` | ViginereAnalysis.py:90-91 | The slice lengths over all key positions add up to the text's length. |
| `Slicing.SliceBound` | ViginereAnalysis.py:176 | Python's slice start, counted from the end for negative `n` and clamped, lies within the list. |
| `Slicing.Rotate` | ViginereAnalysis.py:175-176 | Rotation keeps the length and the multiset of elements. |
| `Slicing.RotateAt` | ViginereAnalysis.py:175-176 | For `-len <= n <= len`, the rotated list holds at `i` the element at `(i + n) mod len`: a left rotation. |
| `Slicing.RotateIdentity` | ViginereAnalysis.py:176 | Rotating by 0 or by at least the whole length changes nothing. |
| `StableSort.InsertBy` | ViginereAnalysis.py:81 | Insertion adds exactly the inserted element to the multiset. |
| `StableSort.SortBy` | ViginereAnalysis.py:81 | The sort by key is a permutation of its input. |
| `StableSort.InsertKeepsOrder` | ViginereAnalysis.py:81 | Inserting an element of higher rank after every element with a key not above its own keeps the list sorted by key, then rank. |
| `StableSort.SortByStable` | ViginereAnalysis.py:125 | The sort is stable: input in increasing rank comes out ordered by key, equal keys in rank order, as a permutation. |
| `Frequency.FirstNonLetter` | ViginereAnalysis.py:98-99 | The first character without a counter: everything before it is a letter. |
| `Frequency.Histogram` | ViginereAnalysis.py:96-99 | There is one counter per letter. |
| `Frequency.Percentages` | ViginereAnalysis.py:101 | There is one percentage per counter. |
| `Frequency.LetterFrequencies` | ViginereAnalysis.py:95-101 | There are 33 frequencies exactly when the text is non-empty and all letters. The empty-text error comes exactly for the empty text. A stray-character error names a non-letter of the text. |
| `Frequency.CalculateLetterFrequency` | ViginereAnalysis.py:95-101 | The counting loop returns the first stray character's error, the empty-text error, or the percentages of the histogram. |
| `Frequency.HistogramSum` | ViginereAnalysis.py:98-99 | On letter-only text the counters add up to the text's length. |
| `Frequency.PercentagesSum` | ViginereAnalysis.py:101 | The percentages add up to the counts' total times `100 / len`. |
| `Frequency.FrequenciesAreADistribution` | ViginereAnalysis.py:95-101 | A successful result has 33 entries, one per letter in alphabet order; each is that letter's count over the length times 100, and together they make 100. |
| `Frequency.RotationScores` | ViginereAnalysis.py:119-123 | There is one scored entry per letter. |
| `Frequency.PredictKeySliceLetters` | ViginereAnalysis.py:115-127 | The ranking is the frequency error passed on, or the stable sort by error of each letter paired with the misfit of the frequencies rotated by its position. |
| `Frequency.RotationScoresRanked` | ViginereAnalysis.py:119-123 | Before sorting, entry `i` is the letter at position `i`. |
| `Frequency.RankingIsSortedPermutation` | ViginereAnalysis.py:125-127 | The ranking holds every letter once, with its own rotation's score, ordered by score, ties in alphabet order. |
| `Frequency.RankingHoldsEveryLetter` | ViginereAnalysis.py:119-123 | Every letter's scored pair is in the ranking. |
| `Frequency.RankingScoresOwnRotation` | ViginereAnalysis.py:119-123 | Every pair in the ranking is a letter scored on its own rotation. |
| `Frequency.ScoreOfMember` | ViginereAnalysis.py:121-123 | An unsorted entry is a letter with the score of its own rotation. |
| `Patterns.Hits` | ViginereAnalysis.py:29 | This is the number of `findall` matches. The empty pattern matches `len + 1` times, and the matches of a non-empty pattern fit side by side in the text. |
| `Patterns.CountFromFits` | ViginereAnalysis.py:29 | Non-overlapping matches of a non-empty pattern fit side by side in the rest of the text. |
| `Patterns.Discover` | ViginereAnalysis.py:28-32 | Every entry the dictionary collects holds its pattern's match count, which is at least 2. |
| `Patterns.PatternIndex` | ViginereAnalysis.py:20-37 | The pattern index holds each entry with its match count of at least 2, and no pattern twice. |
| `Patterns.ScanLength` | ViginereAnalysis.py:24-32 | The inner loop extends the dictionary exactly as discovering the length-`L` windows does. |
| `Patterns.FindPatterns` | ViginereAnalysis.py:20-37 | The scan returns exactly the pattern index of the length range. |
| `Patterns.RowAt` | ViginereAnalysis.py:24-26 | Window `s` of a row is the substring of length `L` at `s`, and it ends before the last index. |
| `Patterns.WindowsPrefix` | ViginereAnalysis.py:23 | Windows of shorter lengths form a prefix of the visiting order. |
| `Patterns.WindowAt` | ViginereAnalysis.py:23-26 | The window of length `L` at start `s` is visited at index `|Windows(lo..L-1)| + s`. |
| `Patterns.WindowOrigin` | ViginereAnalysis.py:23-26 | Every visited window has a length in range and a start whose window ends before the last index. |
| `Patterns.WindowsMembership` | ViginereAnalysis.py:23-26 | A string is visited iff its length is in range and it is a candidate window somewhere. |
| `Patterns.KeysMember` | ViginereAnalysis.py:28 | The dictionary's key test agrees with some entry holding that pattern. |
| `Patterns.DiscoverSound` | ViginereAnalysis.py:28-32 | Every recorded entry is a visited window, counted more than once, stored with its count. |
| `Patterns.DiscoverComplete` | ViginereAnalysis.py:28-32 | Every visited window counted more than once is recorded. |
| `Patterns.DiscoverDistinct` | ViginereAnalysis.py:28 | No pattern is recorded twice. |
| `Patterns.DiscoverOrder` | ViginereAnalysis.py:28-32 | Entries appear in the order their patterns are first visited. |
| `Patterns.CountedMatch` | ViginereAnalysis.py:29 | A positive count has a match at or after the starting index. |
| `Patterns.RepeatedIsCandidate` | ViginereAnalysis.py:24-29 | A pattern matched twice has a match ending before the last index, so the scan visits it. |
| `Patterns.EntrySound` | ViginereAnalysis.py:20-37 | Every entry is the window of a length in range at some start, with the count of its matches (≥ 2). |
| `Patterns.PatternIndexSound` | ViginereAnalysis.py:20-37 | Soundness: every entry is a repeated substring with a length in range, stored with its non-overlapping count. |
| `Patterns.PatternIndexComplete` | ViginereAnalysis.py:20-37 | Completeness: every substring with a length in range and at least two non-overlapping occurrences is a key, including one ending at the text's end. |
| `Patterns.PatternIndexDistinct` | ViginereAnalysis.py:28-32 | The keys are distinct. |
| `Patterns.WindowsOfShorterFirst` | ViginereAnalysis.py:23-24 | Windows of a shorter length are visited before all windows of a longer one. |
| `Patterns.VisitOrder` | ViginereAnalysis.py:23-24 | Visiting order is by length, then by start. |
| `Patterns.StartsBeforeVisits` | ViginereAnalysis.py:24 | A window met before every visit of a same-length pattern starts before each of its candidate starts. |
| `Patterns.SameLengthStartsFirst` | ViginereAnalysis.py:24-28 | A same-length pattern met earlier starts before every start of the later one. |
| `Patterns.MetFirstOrder` | ViginereAnalysis.py:23-28 | A window met before every visit of another is shorter, or as long and starting first. |
| `Patterns.PatternIndexOrder` | ViginereAnalysis.py:20-37 | Entries are ordered by pattern length, then by first start. |
| `Patterns.AbabHits` | ViginereAnalysis.py:29 | In `абаб`, `аб` is matched twice and `ба` once. |
| `Patterns.AbabWindows` | ViginereAnalysis.py:24-26 | For length 2 in `абаб` the scan visits `аб`, `ба` and not the final `аб`. |
| `Patterns.AbabPatterns` | ViginereAnalysis.py:20-37 | The index of `абаб` for length 2 is `{аб: 2}`. |
| `KeyLength.Locations` | ViginereAnalysis.py:51-55 | The recorded locations strictly increase. Each ends an occurrence of the pattern before the text's end. |
| `KeyLength.FindLocations` | ViginereAnalysis.py:51-55 | The location loop returns exactly `Locations(pattern, ciphertext)`. |
| `KeyLength.EndsBounds` | ViginereAnalysis.py:53-55 | Recorded end indices lie in range, each ends an occurrence, and they increase strictly. |
| `KeyLength.EndsComplete` | ViginereAnalysis.py:53-55 | Every occurrence ending below the bound is recorded. |
| `KeyLength.LocationsAreOccurrenceEnds` | ViginereAnalysis.py:53-55 | `i` is a location iff an occurrence, overlapping or not, ends at `i` before the text's end. Locations increase strictly. |
| `KeyLength.Gaps` | ViginereAnalysis.py:57 | There is one gap fewer than there are locations. |
| `KeyLength.GapsPositive` | ViginereAnalysis.py:57 | Every gap is positive. |
| `KeyLength.Distances` | ViginereAnalysis.py:47-57 | There is one gap list per pattern. |
| `KeyLength.CollectDistances` | ViginereAnalysis.py:47-57 | The loop over patterns returns each pattern's gap list in dictionary order. |
| `KeyLength.CountList` | ViginereAnalysis.py:71-75 | The loop over one gap list adds its successes and failures to the running totals. |
| `KeyLength.CountGaps` | ViginereAnalysis.py:66-75 | The totals for a length are the successes and failures over the pooled gaps. |
| `KeyLength.SuccessesPlusFailures` | ViginereAnalysis.py:77 | Successes plus failures is the number of pooled gaps. |
| `KeyLength.Scores` | ViginereAnalysis.py:65-79 | There is one candidate per length in range. |
| `KeyLength.ScoreLengths` | ViginereAnalysis.py:63-79 | The loop over lengths returns a division-by-zero error iff the range is non-empty and the pool is empty or the range reaches 0; otherwise it returns the scores in length order. |
| `KeyLength.Rank` | ViginereAnalysis.py:42-81 | The estimate is the no-patterns error exactly for an empty dictionary. It is a division by zero exactly when the range is non-empty and there is no gap or the range contains 0. A success has one tuple per length in range. |
| `KeyLength.PredictKeyLength` | ViginereAnalysis.py:42-86 | The estimate returns exactly `Rank`: no patterns is an error; then division by zero, or the stably sorted scores. |
| `KeyLength.ScoresAt` | ViginereAnalysis.py:65-79 | Unsorted candidate `k` scores length `lo + k`. |
| `KeyLength.ScoresRanked` | ViginereAnalysis.py:65-79 | Unsorted candidates have strictly increasing lengths. |
| `KeyLength.ScoresMember` | ViginereAnalysis.py:79 | Every unsorted candidate is the score of a non-zero length in range. |
| `KeyLength.SortedMember` | ViginereAnalysis.py:81 | After sorting, every candidate is the score of a non-zero length in range. |
| `KeyLength.SortedHolds` | ViginereAnalysis.py:81 | After sorting, every length in range still has its candidate. |
| `KeyLength.RankValue` | ViginereAnalysis.py:63-81 | A successful estimate over a non-empty range has gaps and no zero length, and is the sorted scores. |
| `KeyLength.RankLengthsInRange` | ViginereAnalysis.py:65-81 | A success has one tuple per length in range, and every length lies in range. |
| `KeyLength.RankHasEveryLength` | ViginereAnalysis.py:65-81 | Every length in range has a tuple. |
| `KeyLength.RankLengthsDistinct` | ViginereAnalysis.py:65-81 | No length has two tuples. |
| `KeyLength.RankCoversEveryLength` | ViginereAnalysis.py:65-81 | A success has exactly one tuple per length in range. |
| `KeyLength.RatiosComplement` | ViginereAnalysis.py:77-79 | Successes and failures over their total add up to 1. |
| `KeyLength.RankRatios` | ViginereAnalysis.py:77-79 | Each tuple's ratios are its successes and failures over the pooled gap count. They add up to 1. |
| `KeyLength.RankSortedByFailure` | ViginereAnalysis.py:81 | The result is sorted by failure ratio, equal ratios in length order (stable sort). |
| `KeyLength.RankOrderIsFailureCountOrder` | ViginereAnalysis.py:79-81 | Order by failure ratio is order by failure count, ties by length. |
| `KeyLength.AbabLocations` | ViginereAnalysis.py:53-55 | In `абаб` only the first `аб` is located, at end index 2. |
| `KeyLength.SkippedLastOccurrence` | ViginereAnalysis.py:53 | For `абаб` and `{аб: 2}` no gap is found, and every non-empty range of key lengths divides by zero. |

## Left out

- `BreakViginere.py` is not part of this model. It reads files, prints and waits for
  input. Its cleaning regex `а-я` also drops `ё`. The functions here take any string
  and handle non-letters as the code does.
- The root-mean-square misfit (`calculateFrequencyFit`, `math.sqrt`, the `FREQUENCIES`
  table) and `predictKeyFit` are not modelled. `Frequency.PredictKeySliceLetters`
  takes the misfit as a function parameter `fit`. The unused dictionary at line 16 is
  left out too.
- Floating-point division is modelled as exact `real` division. All ratios of one
  estimate share the pooled gap count as their denominator. Equal exact ratios
  therefore come from equal counts, and they give equal floats too. Two rounding
  effects are not modelled:
  - floats can round two different failure ratios to the same value, which changes
    the ties the stable sort keeps in length order;
  - `successRatio + failureRatio` can differ from 1.0 in floating point.
  The percentages of the letter frequencies are likewise exact.
- `verbose` printing is left out. It has no effect on the results.
- The `re.findall` search is replaced by a literal non-overlapping count
  (`Patterns.Hits`). It agrees with the regular expression when the pattern has no
  metacharacters, as in letter-only text. On text containing regex metacharacters,
  the program's behaviour is not modelled.
- `Patterns.FindPatterns` takes `minPatternSize` as a natural number. Negative sizes
  would make Python slice from the end of the text.
- The pattern dictionary is a sequence of entries in insertion order. Its keys are
  distinct (`Patterns.PatternIndexDistinct`). `KeyLength.PredictKeyLength` accepts
  any such sequence.
- Python's `str.lower` is modelled only for ASCII capitals and the Cyrillic capitals
  U+0400..U+042F. Every other character is treated as already lower case.
- `Alphabet.Lower` maps each character to exactly one character, so it keeps the length.
  Python's lower-casing can turn one character into several (`'İ'.lower()` is two code
  points); that is not modelled.
- `Codec.RoundTrip` requires the plaintext to be lower case under the model's partial
  lower-casing. It therefore also covers capitals outside ASCII and Cyrillic, such as
  `À`, which Python's decode would lower-case. It holds for those only because of that
  abstraction.
- Python's sort (Timsort) is modelled by a stable insertion sort. Only its result,
  not its comparison sequence, is modelled.
- `Slicing.KeySlice` requires `keyLength > 0`. A zero key length makes Python's
  `i % 0` raise on any non-empty text, and that error is not modelled. A negative key
  length is excluded too. Python accepts it and selects the indices whose floored
  remainder, which lies in `keyLength + 1 .. 0`, equals the position.
