# Pattern matching: Knuth-Morris-Pratt and Rabin-Karp in Dafny

This project models the two substring-search scripts of the `pattern-matching`
repository and proves them correct against one naive definition of "where does a
pattern occur in a text".

- `occurrences.dfy` (module `Occurrences`) holds that reference meaning.
  - `OccursAt` says the pattern matches the text character by character at an offset.
  - `AllOccurrences` lists every such offset, overlapping ones included, in increasing order.
  - `FirstOccurrence` is the smallest such offset, if there is one.
- `kmp.dfy` (module `KnuthMorrisPratt`) models `knutt-morris-pratt.py`.
  - The prefix/suffix table is defined through borders. A border of `w` is a length `k` with
    `w[..k] == w[|w|-k..]`. Entry `i` of the table is the longest proper border of `s[..i+1]`.
  - `BuildPrefixSuffixArray` is the source's table builder, written in place on an array.
    It keeps the two cursors `i` and `j`, including the rewind `i -= 1` on a fallback and the
    redundant write `arr[j] = 0`.
  - `KmpSearch` is the source's scan loop with its three branches.
    - The source prints one line per match. The model returns the printed offsets, in the
      order they are printed, as `matches`.
    - `found` is the source's `b_found`, which decides whether the "No matches" line is printed.
    - The proof shows that `matches` is exactly `AllOccurrences`.
- `rabin_karp.dfy` (module `RabinKarp`) models `rabin-karp.py`.
  - `ToVal` is the code point of a character. `ToHashValue` is `ToVal(c) * PRIME^n`.
  - `Hash` is the from-scratch sum that the `for` loop of `rabin_karp_rolling_hash` computes.
    Base `PRIME = 3` is the source's constant.
  - `Roll` is the rolling update of the `else` branch. Python's floor division `//` by the
    positive divisor 3 agrees with Dafny's `/`.
  - `RabinKarpRollingHash` is the method with both branches. The old hash `0` selects a
    fresh hash, exactly as in the source.
  - `RabinKarpPatternMatch` is the sliding loop. It returns `Some(i)` where the source prints
    "Match was found starting at index i". It returns `None` where the source prints that the
    string has ended, or where the loop simply finishes.
  - The proof shows that the result is `FirstOccurrence`. Every window hash the loop carries
    equals the from-scratch hash of that window, including after a window whose hash is 0.
    A hash is 0 only for windows made entirely of NUL characters (`HashZero`). For such a
    window the next call re-hashes from scratch, which agrees with rolling
    (`RollingHashEquivalence`).

The docstring of `build_prefix_suffix_array` names the input 'ABCABAD' but shows eight
characters 'A B C A B A D A' and eight entries. `PrefixSuffixArrayExample` proves the table
for the eight-character string 'ABCABADA' the docstring lists, [0, 0, 0, 1, 2, 1, 0, 1].

## Model

| member | source | states |
|---|---|---|
| Occurrences.OccursAtSlice | rabin-karp.py:78-79 | an occurrence at `off` is the same as the slice `text[off:off+len(pattern)]` being equal to the pattern, the comparison the matcher makes |
| Occurrences.OccurrencesBelowSpec | knutt-morris-pratt.py:65-67 | the offsets below `hi` listed by the naive scan are exactly the occurrences below `hi`, strictly increasing |
| Occurrences.AllOccurrences | knutt-morris-pratt.py:60-78 | an offset is listed if and only if the pattern occurs there, and the list is strictly increasing (so each occurrence appears once) |
| Occurrences.FirstOccurrence | rabin-karp.py:68-81 | `Some(k)` only for an occurrence `k` with no occurrence before it; `None` exactly when the pattern occurs nowhere |
| Occurrences.OccurrencesBelowSkip | knutt-morris-pratt.py:69-75 | offsets skipped over that are not occurrences add nothing to the list of occurrences |
| Occurrences.PatternLongerThanText | rabin-karp.py:71-73 | a pattern longer than the text occurs nowhere: no occurrences and no first occurrence |
| Occurrences.PatternEqualsText | knutt-morris-pratt.py:60-68 | a text equal to the pattern has exactly one occurrence, at 0 |
| Occurrences.OverlappingOccurrences | knutt-morris-pratt.py:65-68 | overlapping occurrences all count: "aa" occurs in "aaa" at 0 and at 1 |
| Occurrences.FirstOccurrenceSome | rabin-karp.py:78-81 | an occurrence with none before it is the first occurrence |
| Occurrences.FirstOccurrenceNone | rabin-karp.py:71-73 | with no occurrence anywhere there is no first occurrence |
| KnuthMorrisPratt.LongestBorderUpTo | knutt-morris-pratt.py:5-12 | the result is a border of `w` of length at most `c`, and no longer border of length at most `c` exists |
| KnuthMorrisPratt.LongestProperBorder | knutt-morris-pratt.py:5-12 | the result is a proper border of `w`, and no longer proper border exists |
| KnuthMorrisPratt.PrefixSuffixArray | knutt-morris-pratt.py:5-23 | one entry per character of `s`; entry `i` is the longest proper border of `s[..i+1]` |
| KnuthMorrisPratt.PrefixSuffixArrayUnique | knutt-morris-pratt.py:24-38 | any table meeting that description equals `PrefixSuffixArray(s)`, so the builder's result is determined |
| KnuthMorrisPratt.PrefixSuffixArrayBounds | knutt-morris-pratt.py:26-36 | every entry `i` is at most `i`, and entry 0 is 0 |
| KnuthMorrisPratt.BorderOfBorder | knutt-morris-pratt.py:32-34 | a border of a border is a border, which is why falling back to `arr[j-1]` keeps a border |
| KnuthMorrisPratt.BorderOfLongerBorder | knutt-morris-pratt.py:32-34 | a shorter border of `w` is a border of every longer border of `w` |
| KnuthMorrisPratt.BorderShrink | knutt-morris-pratt.py:28-30 | a non-empty border of `s[..i+1]` is a border of `s[..i]` extended by a character equal to `s[i]` |
| KnuthMorrisPratt.BorderExtend | knutt-morris-pratt.py:28-30 | a border `j` of `s[..i]` with `s[j] == s[i]` gives the border `j+1` of `s[..i+1]` |
| KnuthMorrisPratt.CandidateMatch | knutt-morris-pratt.py:28-30 | on `s[i] == s[j]`, `j+1` is the longest proper border of `s[..i+1]`, and the loop state holds at `i+1` |
| KnuthMorrisPratt.CandidateNone | knutt-morris-pratt.py:35-36 | on a mismatch with `j == 0`, entry `i` is 0, and the loop state holds at `i+1` |
| KnuthMorrisPratt.CandidateFallback | knutt-morris-pratt.py:32-34 | on a mismatch with `j > 0`, falling back to the entry for `j-1` keeps the loop state at the same `i` |
| KnuthMorrisPratt.BuildMatch | knutt-morris-pratt.py:28-30 | the match branch, writing `j+1` into entry `i`, preserves the builder's loop invariant |
| KnuthMorrisPratt.BuildFallback | knutt-morris-pratt.py:32-34 | the fallback branch strictly shortens `j` and preserves the invariant with `i` unchanged after the rewind and increment |
| KnuthMorrisPratt.BuildNone | knutt-morris-pratt.py:35-37 | the write `arr[0] = 0` changes nothing, and the branch preserves the invariant at `i+1` |
| KnuthMorrisPratt.BuildEnd | knutt-morris-pratt.py:27-38 | when the loop exits every entry is final, so the returned array is the prefix/suffix table |
| KnuthMorrisPratt.BuildPrefixSuffixArray | knutt-morris-pratt.py:5-38 | the array returned satisfies the table description, entry by entry, for every input including the empty string |
| KnuthMorrisPratt.BorderEnds | knutt-morris-pratt.py:10-12 | a non-empty border agrees with the word on its first and its last character |
| KnuthMorrisPratt.LongestProperBorderByEnds | knutt-morris-pratt.py:10-12 | a border is the longest proper one when every longer candidate disagrees at one of its ends |
| KnuthMorrisPratt.ExtendTable | knutt-morris-pratt.py:10-12 | the table of a one-character extension is the old table followed by the new entry |
| KnuthMorrisPratt.ExampleStep | knutt-morris-pratt.py:10-12 | one step of the docstring example, extending the table by one entry |
| KnuthMorrisPratt.PrefixSuffixArrayExampleHead | knutt-morris-pratt.py:10-12 | the table of 'ABCA' is [0, 0, 0, 1] |
| KnuthMorrisPratt.PrefixSuffixArrayExampleMiddle | knutt-morris-pratt.py:10-12 | the table of 'ABCABA' is [0, 0, 0, 1, 2, 1] |
| KnuthMorrisPratt.PrefixSuffixArrayExample | knutt-morris-pratt.py:10-12 | the table of 'ABCABADA' is [0, 0, 0, 1, 2, 1, 0, 1], as the docstring lists |
| KnuthMorrisPratt.OccurrenceInsideMatchIsBorder | knutt-morris-pratt.py:69-73 | an occurrence starting inside the matched part makes its overlap a border of the matched prefix |
| KnuthMorrisPratt.KmpFallback | knutt-morris-pratt.py:68-73 | falling back to the table entry keeps a matched prefix and skips only offsets where the pattern does not occur |
| KnuthMorrisPratt.ScannedMatch | knutt-morris-pratt.py:61-63 | matching one more character keeps the scan state |
| KnuthMorrisPratt.ScannedDone | knutt-morris-pratt.py:65-68 | after a full match, recording `t_index - p_index` and falling back keeps the scan state, and the new `p_index` is smaller |
| KnuthMorrisPratt.ScannedFallback | knutt-morris-pratt.py:69-73 | a mismatch after a non-empty match falls back to a shorter prefix and keeps the scan state |
| KnuthMorrisPratt.ScannedSkip | knutt-morris-pratt.py:74-75 | a mismatch at the pattern's first character skips one text character and keeps the scan state |
| KnuthMorrisPratt.ScannedEnd | knutt-morris-pratt.py:60-78 | once the text is exhausted, the recorded offsets are all the occurrences |
| KnuthMorrisPratt.KmpScenario | knutt-morris-pratt.py:60-78 | the pattern 'ABABCABAB' occurs in 'ABABDABACDABABCABAB' only at offset 10 |
| KnuthMorrisPratt.KmpSearch | knutt-morris-pratt.py:41-78 | the reported offsets are exactly the occurrences, overlapping ones included, in increasing order; `found` is true exactly when there is at least one |
| RabinKarp.ToVal | rabin-karp.py:5-7 | the value of a character is its code point, below 0x110000 |
| RabinKarp.Pow | rabin-karp.py:11-12 | a positive base gives a positive power |
| RabinKarp.ToHashValue | rabin-karp.py:10-12 | a character's contribution, its value times the base to the power of its position, is 0 exactly for the NUL character, or for base 0 at a positive position |
| RabinKarp.Hash | rabin-karp.py:54-55 | the from-scratch sum of the contributions of a window; its first character enters with weight 1, so a non-empty window hashes to at least that character's value |
| RabinKarp.Roll | rabin-karp.py:57-58 | the rolling update: subtract the dropped character's value, floor-divide by 3, add the new character's contribution at position `m - 1`; the result keeps at least the new character's contribution exactly when the old hash still contains the removed character's value |
| RabinKarp.HashCons | rabin-karp.py:54-55 | the from-scratch hash in Horner form: prepending `c` multiplies the hash by 3 and adds the value of `c` |
| RabinKarp.RollingHashEquivalence | rabin-karp.py:56-58 | removing the old character leaves exactly 3 times the hash of the kept characters, and the rolling update equals the from-scratch hash of the new window |
| RabinKarp.ExactDivision | rabin-karp.py:57 | the floor division of a multiple of 3 by 3 is exact |
| RabinKarp.HashZero | rabin-karp.py:52 | a hash is 0, the value read as "no previous hash", exactly when every character of the window is NUL |
| RabinKarp.HashCollision | rabin-karp.py:78-79 | different windows can share a hash ("ab" and "da"), so the character comparison after the hash comparison is needed |
| RabinKarp.RabinKarpRollingHash | rabin-karp.py:15-59 | with old hash 0 the result is the from-scratch hash of `text`; otherwise it is the rolling update, which equals the from-scratch hash whenever the old hash belongs to the previous window |
| RabinKarp.SlidingWindow | rabin-karp.py:75 | a non-zero carried hash is the hash of the old character followed by the current window without its last character, the form the rolling update needs |
| RabinKarp.WindowShift | rabin-karp.py:69-76 | the previous window is the old character followed by the current window without its last character |
| RabinKarp.SlidingStep | rabin-karp.py:75-81 | a window that is not the pattern moves the loop state to the next offset, carrying the new window's hash |
| RabinKarp.SlidingFound | rabin-karp.py:78-81 | a window equal to the pattern, with no occurrence before it, is the first occurrence |
| RabinKarp.SlidingEnd | rabin-karp.py:71-73 | once the window runs past the end of the text the pattern occurs nowhere |
| RabinKarp.RabinKarpPatternMatch | rabin-karp.py:62-81 | the result is the first occurrence: `Some(k)` with the pattern at `k` and nowhere before, or `None` exactly when the pattern occurs nowhere |
| RabinKarp.DemoMatch | rabin-karp.py:84 | in the module's demo call, "eda" first occurs in "abeda" at offset 2 |

## Left out

- Printing: the `print` calls of both scripts are not modelled as output. Their content is the
  return values: the list of match offsets with the `found` flag, and the optional first offset.
- `KmpSearch`: requires a non-empty pattern. With an empty pattern the source raises
  `IndexError` at `pattern[0]` on any non-empty text. With an empty pattern and an empty text it
  prints "No matches were found"; that one corner is not modelled.
- `RabinKarpPatternMatch`: requires a non-empty pattern. With an empty pattern the source raises
  `IndexError` on `curr_text[-1]` for any non-empty text. With an empty text it returns without
  printing; that corner is not modelled.
- `RabinKarpRollingHash`: the rolling branch (old hash not 0) requires single characters for
  `old_char` and `new_char` and a non-empty `text`. Otherwise Python raises `TypeError` from
  `ord`, or computes `pow(3, -1)` as a float; those error and float paths are left out.
- The default arguments of `rabin_karp_rolling_hash` are passed explicitly.
- The `lru_cache` memoisation of `to_hash_value` is left out; it does not change any result.
- The module-level demo call of `knutt-morris-pratt.py` (line 81, a 62-character text) has no
  scenario lemma. The demo of `rabin-karp.py` does (`DemoMatch`).
- The complexity claims in the docstrings (O(n), O(m + n)) are not modelled.
- Characters are Dafny `char`s, the Unicode scalar values. Python strings can also hold lone
  surrogate code points; those are not representable.
- Python integers are unbounded, like Dafny's `int`, so the hashes need no overflow model.
