/**
 Knuth-Morris-Pratt search: the prefix/suffix (failure) table and the scan
 that reports every occurrence of a pattern in a text, overlapping ones
 included.
 */
module KnuthMorrisPratt {
  import opened Occurrences

  // ---------------------------------------------------------------------
  // Borders
  // ---------------------------------------------------------------------

  /** `k` is the length of a border of `w`: its first `k` characters are also its last `k`. */
  predicate IsBorder(w: string, k: nat) {
    k <= |w| && w[..k] == w[|w| - k..]
  }

  /** `k` is the longest proper border of `w` (a border shorter than `w` itself). */
  predicate IsLongestProperBorder(w: string, k: nat) {
    k < |w| && IsBorder(w, k) && forall b: nat :: k < b < |w| ==> !IsBorder(w, b)
  }

  /** What the table builder promises: entry `i` is the longest proper border of s[..i+1]. */
  predicate IsPrefixSuffixArray(s: string, table: seq<nat>) {
    |table| == |s| &&
    forall i {:trigger IsLongestProperBorder(s[..i + 1], table[i])} ::
      0 <= i < |s| ==> IsLongestProperBorder(s[..i + 1], table[i])
  }

  /** Reference search for the longest border of `w` of length at most `c`, downwards from `c`. */
  function LongestBorderUpTo(w: string, c: nat): (k: nat)
    requires c <= |w|
    ensures k <= c && IsBorder(w, k)
    ensures forall b: nat :: k < b <= c ==> !IsBorder(w, b)
  {
    if IsBorder(w, c) then c
    else
      assert IsBorder(w, 0) by { assert w[..0] == w[|w|..]; }
      LongestBorderUpTo(w, c - 1)
  }

  /** The longest proper border of a non-empty string, found by the downward search. */
  function LongestProperBorder(w: string): (k: nat)
    requires |w| >= 1
    ensures IsLongestProperBorder(w, k)
  {
    LongestBorderUpTo(w, |w| - 1)
  }

  /** The reference failure table, entry by entry. */
  function PrefixSuffixArray(s: string): (table: seq<nat>)
    ensures IsPrefixSuffixArray(s, table)
  {
    seq(|s|, i requires 0 <= i < |s| => LongestProperBorder(s[..i + 1]))
  }

  /** A string has only one longest proper border, so only one table satisfies the promise. */
  lemma PrefixSuffixArrayUnique(s: string, table: seq<nat>)
    requires IsPrefixSuffixArray(s, table)
    ensures table == PrefixSuffixArray(s)
  {
    var spec := PrefixSuffixArray(s);
    forall i | 0 <= i < |s| ensures table[i] == spec[i] {
      var w := s[..i + 1];
      assert IsLongestProperBorder(w, table[i]) && IsLongestProperBorder(w, spec[i]);
    }
  }

  /** Every entry is at most its index, and the first entry is 0. */
  lemma PrefixSuffixArrayBounds(s: string, table: seq<nat>)
    requires IsPrefixSuffixArray(s, table)
    ensures forall i :: 0 <= i < |s| ==> table[i] <= i
    ensures |s| > 0 ==> table[0] == 0
  {
    forall i | 0 <= i < |s| ensures table[i] <= i {
      assert IsLongestProperBorder(s[..i + 1], table[i]);
    }
  }

  /** A border of a border of `w` is a border of `w`. */
  lemma BorderOfBorder(w: string, j: nat, b: nat)
    requires IsBorder(w, j) && IsBorder(w[..j], b)
    ensures IsBorder(w, b)
  {
    calc {
      w[..b];
      w[..j][..b];
      w[..j][j - b..];
      w[|w| - j..][j - b..];
      w[|w| - b..];
    }
  }

  /** A shorter border of `w` is also a border of a longer one. */
  lemma BorderOfLongerBorder(w: string, k: nat, j: nat)
    requires IsBorder(w, k) && IsBorder(w, j) && k <= j
    ensures IsBorder(w[..j], k)
  {
    calc {
      w[..j][..k];
      w[..k];
      w[|w| - k..];
      w[|w| - j..][j - k..];
      w[..j][j - k..];
    }
  }

  /** A non-empty border of s[..i+1] is a border of s[..i] extended by a matching character. */
  lemma BorderShrink(s: string, i: nat, k: nat)
    requires i < |s| && 0 < k && IsBorder(s[..i + 1], k)
    ensures IsBorder(s[..i], k - 1) && s[k - 1] == s[i]
  {
    assert s[..k] == s[..i + 1][..k] == s[..i + 1][i + 1 - k..] == s[i + 1 - k..i + 1];
    assert s[k - 1] == s[..k][k - 1];
    calc {
      s[..i][..k - 1];
      s[..k][..k - 1];
      s[i + 1 - k..i + 1][..k - 1];
      s[..i][i - (k - 1)..];
    }
  }

  /** A border of s[..i] followed by a matching character is a border of s[..i+1]. */
  lemma BorderExtend(s: string, i: nat, j: nat)
    requires j < i < |s| && IsBorder(s[..i], j) && s[j] == s[i]
    ensures IsBorder(s[..i + 1], j + 1)
  {
    calc {
      s[..i + 1][..j + 1];
      s[..j] + [s[j]];
      { assert s[..j] == s[..i][..j]; }
      s[..i][i - j..] + [s[i]];
      s[..i + 1][i - j..];
    }
  }

  /**
   The table builder's state at the head of its loop: `j` is a border of s[..i], every
   longer border of s[..i] fails to extend by s[i], and no border is longer than `i`.
   */
  predicate Candidate(s: string, i: nat, j: nat)
    requires i <= |s|
  {
    j < i && IsBorder(s[..i], j) &&
    forall k: nat {:trigger IsBorder(s[..i], k)} :: j < k < i && IsBorder(s[..i], k) ==> i < |s| && s[k] != s[i]
  }

  /** When s[i] matches s[j], the entry for `i` is j + 1. */
  lemma CandidateMatch(s: string, i: nat, j: nat)
    requires i < |s| && Candidate(s, i, j) && s[i] == s[j]
    ensures IsLongestProperBorder(s[..i + 1], j + 1)
    ensures Candidate(s, i + 1, j + 1)
  {
    BorderExtend(s, i, j);
    var w := s[..i + 1];
    forall b: nat | j + 1 < b < i + 1 ensures !IsBorder(w, b) {
      if IsBorder(w, b) {
        BorderShrink(s, i, b);
      }
    }
  }

  /** When s[i] does not match s[0] and no longer candidate is left, the entry for `i` is 0. */
  lemma CandidateNone(s: string, i: nat)
    requires i < |s| && Candidate(s, i, 0) && s[i] != s[0]
    ensures IsLongestProperBorder(s[..i + 1], 0)
    ensures Candidate(s, i + 1, 0)
  {
    var w := s[..i + 1];
    assert IsBorder(w, 0) by { assert w[..0] == w[i + 1..]; }
    forall b: nat | 0 < b < i + 1 ensures !IsBorder(w, b) {
      if IsBorder(w, b) {
        BorderShrink(s, i, b);
      }
    }
  }

  /** On a mismatch with j > 0, falling back to the table entry for j - 1 keeps the candidate state. */
  lemma CandidateFallback(s: string, i: nat, j: nat, q: nat)
    requires i < |s| && Candidate(s, i, j) && 0 < j && s[i] != s[j]
    requires IsLongestProperBorder(s[..j], q)
    ensures Candidate(s, i, q)
  {
    var w := s[..i];
    assert w[..j] == s[..j];
    BorderOfBorder(w, j, q);
    forall k: nat | q < k < i && IsBorder(w, k) ensures s[k] != s[i] {
      if k < j {
        BorderOfLongerBorder(w, k, j);
        assert false;
      }
    }
  }

  /** The first `i` entries of `t` (or all of them, once `i` passes the end) are final. */
  predicate EntriesDone(s: string, t: seq<nat>, i: nat)
    requires |t| == |s|
  {
    (forall m {:trigger IsLongestProperBorder(s[..m + 1], t[m])} ::
       0 <= m < i && m < |s| ==> IsLongestProperBorder(s[..m + 1], t[m])) &&
    forall m :: i <= m < |s| ==> t[m] == 0
  }

  /** The loop invariant of the table builder: cursor bounds, the candidate state and the finished entries. */
  predicate BuildState(s: string, t: seq<nat>, i: nat, j: nat) {
    |t| == |s| && j < i && (|s| == 0 || i <= |s|) &&
    (i <= |s| ==> Candidate(s, i, j)) && EntriesDone(s, t, i)
  }

  /** Branch `s[i] == s[j]`: j grows by one and becomes the entry for `i`. */
  lemma BuildMatch(s: string, t: seq<nat>, u: seq<nat>, i: nat, j: nat)
    requires i < |s| && BuildState(s, t, i, j) && s[i] == s[j]
    requires u == t[i := j + 1]
    ensures BuildState(s, u, i + 1, j + 1)
  {
    CandidateMatch(s, i, j);
  }

  /** Branch mismatch with j > 0: j falls back to the entry for j - 1, which is shorter, and i is retried. */
  lemma BuildFallback(s: string, t: seq<nat>, i: nat, j: nat)
    requires i < |s| && BuildState(s, t, i, j) && s[i] != s[j] && j != 0
    ensures t[j - 1] < j
    ensures BuildState(s, t, i - 1 + 1, t[j - 1])
  {
    var m := j - 1;
    assert IsLongestProperBorder(s[..m + 1], t[m]);
    CandidateFallback(s, i, j, t[m]);
  }

  /** Branch mismatch with j == 0: the entry for `i` stays 0, and entry 0, rewritten with 0, already holds it. */
  lemma BuildNone(s: string, t: seq<nat>, i: nat)
    requires i < |s| && BuildState(s, t, i, 0) && s[i] != s[0]
    ensures t[0 := 0] == t
    ensures BuildState(s, t, i + 1, 0)
  {
    CandidateNone(s, i);
    var m := 0;
    assert IsLongestProperBorder(s[..m + 1], t[m]);
  }

  /** When the loop ends every entry is final. */
  lemma BuildEnd(s: string, t: seq<nat>, i: nat, j: nat)
    requires BuildState(s, t, i, j) && i >= |s|
    ensures IsPrefixSuffixArray(s, t)
  {
  }

  /**
   Builds the prefix/suffix table of `s` in place in an array, with the cursors `i` and `j`
   of `build_prefix_suffix_array`, including the rewind of `i` on a fallback.
   */
  method BuildPrefixSuffixArray(s: string) returns (table: seq<nat>)
    ensures IsPrefixSuffixArray(s, table)
  {
    var i: nat := 1;
    var j: nat := 0;
    var arr := new nat[|s|](_ => 0);
    while i < |s|
      invariant BuildState(s, arr[..], i, j)
      decreases |s| - i, j
    {
      ghost var t := arr[..];
      if s[i] == s[j] {
        j := j + 1;
        arr[i] := j;
        BuildMatch(s, t, arr[..], i, j - 1);
      } else {
        if j != 0 {
          BuildFallback(s, t, i, j);
          j := arr[j - 1];
          i := i - 1;
        } else {
          BuildNone(s, t, i);
          // j == 0 here, so this writes arr[0], which already holds 0.
          arr[j] := 0;
          assert arr[..] == t[0 := 0];
        }
      }
      i := i + 1;
    }
    table := arr[..];
    BuildEnd(s, table, i, j);
  }

  /** A border must agree with `w` on its first and on its last character. */
  lemma BorderEnds(w: string, b: nat)
    requires 0 < b && IsBorder(w, b)
    ensures w[0] == w[|w| - b] && w[b - 1] == w[|w| - 1]
  {
    assert w[..b][0] == w[|w| - b..][0];
    assert w[..b][b - 1] == w[|w| - b..][b - 1];
  }

  /** A candidate border of length `b` that disagrees with `w` at its first or its last character. */
  predicate EndsDiffer(w: string, b: nat)
    requires 0 < b <= |w|
  {
    w[0] != w[|w| - b] || w[b - 1] != w[|w| - 1]
  }

  /** A border `k` is the longest proper one when every longer candidate disagrees with `w` at one of its ends. */
  lemma LongestProperBorderByEnds(w: string, k: nat)
    requires k < |w| && IsBorder(w, k)
    requires forall b :: k < b < |w| ==> EndsDiffer(w, b)
    ensures IsLongestProperBorder(w, k)
  {
    forall b: nat | k < b < |w| ensures !IsBorder(w, b) {
      assert EndsDiffer(w, b);
      if IsBorder(w, b) {
        BorderEnds(w, b);
      }
    }
  }

  /** The table of a one-character extension `w` of `s` is the table of `s` followed by the entry for `w`. */
  lemma ExtendTable(s: string, t: seq<nat>, w: string, u: seq<nat>, k: nat)
    requires IsPrefixSuffixArray(s, t)
    requires |w| == |s| + 1 && w[..|s|] == s && IsLongestProperBorder(w, k)
    requires u == t + [k]
    ensures IsPrefixSuffixArray(w, u)
  {
    forall i | 0 <= i < |w| ensures IsLongestProperBorder(w[..i + 1], u[i]) {
      if i < |s| {
        assert w[..i + 1] == s[..i + 1];
        var m := i;
        assert IsLongestProperBorder(s[..m + 1], t[m]);
      } else {
        assert w[..i + 1] == w;
      }
    }
  }

  /** One step of the doc-comment example: extend the table of `s` by the entry `k` of `w`. */
  lemma ExampleStep(s: string, t: seq<nat>, w: string, u: seq<nat>, k: nat)
    requires IsPrefixSuffixArray(s, t)
    requires |w| == |s| + 1 && w[..|s|] == s && u == t + [k]
    requires k < |w| && IsBorder(w, k)
    requires forall b :: k < b < |w| ==> EndsDiffer(w, b)
    ensures IsPrefixSuffixArray(w, u)
  {
    LongestProperBorderByEnds(w, k);
    ExtendTable(s, t, w, u, k);
  }

  /** The first four entries of the doc-comment example. */
  lemma PrefixSuffixArrayExampleHead()
    ensures IsPrefixSuffixArray("ABCA", [0, 0, 0, 1])
  {
    ExampleStep("", [], "A", [0], 0);
    ExampleStep("A", [0], "AB", [0, 0], 0);
    ExampleStep("AB", [0, 0], "ABC", [0, 0, 0], 0);
    ExampleStep("ABC", [0, 0, 0], "ABCA", [0, 0, 0, 1], 1);
  }

  /** The first six entries of the doc-comment example. */
  lemma PrefixSuffixArrayExampleMiddle()
    ensures IsPrefixSuffixArray("ABCABA", [0, 0, 0, 1, 2, 1])
  {
    PrefixSuffixArrayExampleHead();
    ExampleStep("ABCA", [0, 0, 0, 1], "ABCAB", [0, 0, 0, 1, 2], 2);
    ExampleStep("ABCAB", [0, 0, 0, 1, 2], "ABCABA", [0, 0, 0, 1, 2, 1], 1);
  }

  /** The doc-comment example: 'ABCABADA' gives [0, 0, 0, 1, 2, 1, 0, 1]. */
  lemma PrefixSuffixArrayExample()
    ensures PrefixSuffixArray("ABCABADA") == [0, 0, 0, 1, 2, 1, 0, 1]
  {
    PrefixSuffixArrayExampleMiddle();
    ExampleStep("ABCABA", [0, 0, 0, 1, 2, 1], "ABCABAD", [0, 0, 0, 1, 2, 1, 0], 0);
    ExampleStep("ABCABAD", [0, 0, 0, 1, 2, 1, 0], "ABCABADA", [0, 0, 0, 1, 2, 1, 0, 1], 1);
    PrefixSuffixArrayUnique("ABCABADA", [0, 0, 0, 1, 2, 1, 0, 1]);
  }

  // ---------------------------------------------------------------------
  // The search
  // ---------------------------------------------------------------------

  /** The `p` characters of `text` before position `t` are the first `p` characters of `pattern`. */
  predicate MatchedPrefix(pattern: string, text: string, t: nat, p: nat) {
    p <= |pattern| && p <= t <= |text| &&
    forall x :: 0 <= x < p ==> text[t - p + x] == pattern[x]
  }

  /** An occurrence that starts inside a matched prefix of length `p` makes the overlap a border of pattern[..p]. */
  lemma OccurrenceInsideMatchIsBorder(pattern: string, text: string, t: nat, p: nat, off: nat)
    requires MatchedPrefix(pattern, text, t, p)
    requires t - p < off < t && OccursAt(pattern, text, off)
    ensures IsBorder(pattern[..p], t - off)
  {
    var w := pattern[..p];
    var k := t - off;
    forall x | 0 <= x < k ensures w[..k][x] == w[p - k..][x] {
      calc {
        w[..k][x];
        pattern[x];
        text[off + x];
        text[t - p + (p - k + x)];
        pattern[p - k + x];
        w[p - k..][x];
      }
    }
    assert w[..k] == w[p - k..];
  }

  /**
   Falling back from a matched prefix of length `p` to its longest proper border `q` keeps
   a matched prefix and skips only offsets at which the pattern cannot occur.
   */
  lemma KmpFallback(pattern: string, text: string, t: nat, p: nat, q: nat)
    requires 0 < p && MatchedPrefix(pattern, text, t, p)
    requires IsLongestProperBorder(pattern[..p], q)
    ensures MatchedPrefix(pattern, text, t, q)
    ensures forall off: nat :: t - p < off < t - q ==> !OccursAt(pattern, text, off)
  {
    var w := pattern[..p];
    forall x | 0 <= x < q ensures text[t - q + x] == pattern[x] {
      calc {
        text[t - q + x];
        text[t - p + (p - q + x)];
        pattern[p - q + x];
        w[p - q..][x];
        w[..q][x];
        pattern[x];
      }
    }
    forall off: nat | t - p < off < t - q ensures !OccursAt(pattern, text, off) {
      if OccursAt(pattern, text, off) {
        OccurrenceInsideMatchIsBorder(pattern, text, t, p, off);
      }
    }
  }

  /**
   The search's state: the last `p` characters of text[..t] are the first `p` of the
   pattern, and `matches` lists every occurrence that starts before them.
   */
  predicate Scanned(pattern: string, text: string, t: nat, p: nat, matches: seq<nat>) {
    MatchedPrefix(pattern, text, t, p) && matches == OccurrencesBelow(pattern, text, t - p)
  }

  /** Matching one more character keeps the state. */
  lemma ScannedMatch(pattern: string, text: string, t: nat, p: nat, matches: seq<nat>)
    requires Scanned(pattern, text, t, p, matches) && t < |text| && p < |pattern|
    requires pattern[p] == text[t]
    ensures Scanned(pattern, text, t + 1, p + 1, matches)
  {
  }

  /** After a full match, recording it and falling back through the table keeps the state. */
  lemma ScannedDone(pattern: string, text: string, table: seq<nat>, t: nat, matches: seq<nat>)
    requires |pattern| >= 1 && IsPrefixSuffixArray(pattern, table)
    requires Scanned(pattern, text, t, |pattern|, matches)
    ensures table[|pattern| - 1] < |pattern|
    ensures Scanned(pattern, text, t, table[|pattern| - 1], matches + [t - |pattern|])
  {
    var start := t - |pattern|;
    var m := |pattern| - 1;
    var q := table[m];
    assert IsLongestProperBorder(pattern[..m + 1], q);
    assert pattern[..m + 1] == pattern;
    assert OccursAt(pattern, text, start);
    KmpFallback(pattern, text, t, |pattern|, q);
    OccurrencesBelowSkip(pattern, text, start + 1, t - q);
  }

  /** After a mismatch past a non-empty matched prefix, falling back through the table keeps the state. */
  lemma ScannedFallback(pattern: string, text: string, table: seq<nat>, t: nat, p: nat, matches: seq<nat>)
    requires IsPrefixSuffixArray(pattern, table)
    requires Scanned(pattern, text, t, p, matches) && t < |text| && 0 < p < |pattern|
    requires pattern[p] != text[t]
    ensures table[p - 1] < p
    ensures Scanned(pattern, text, t, table[p - 1], matches)
  {
    var m := p - 1;
    var q := table[m];
    assert IsLongestProperBorder(pattern[..m + 1], q);
    assert !OccursAt(pattern, text, t - p) by {
      assert text[t - p + p] != pattern[p];
    }
    KmpFallback(pattern, text, t, p, q);
    OccurrencesBelowSkip(pattern, text, t - p, t - q);
  }

  /** After a mismatch on the first pattern character, skipping a text character keeps the state. */
  lemma ScannedSkip(pattern: string, text: string, t: nat, matches: seq<nat>)
    requires Scanned(pattern, text, t, 0, matches) && t < |text| && 0 < |pattern|
    requires pattern[0] != text[t]
    ensures Scanned(pattern, text, t + 1, 0, matches)
  {
    assert !OccursAt(pattern, text, t) by {
      assert text[t + 0] != pattern[0];
    }
  }

  /** Once the text is exhausted with a partial match shorter than the pattern, every occurrence is listed. */
  lemma ScannedEnd(pattern: string, text: string, p: nat, matches: seq<nat>)
    requires Scanned(pattern, text, |text|, p, matches) && p < |pattern|
    ensures matches == AllOccurrences(pattern, text)
  {
    OccurrencesBelowSkip(pattern, text, |text| - p, |text| + 1);
  }

  /**
   Reports every offset at which `pattern` occurs in `text`, overlapping occurrences
   included, in the order the scan finds them; `found` is false exactly when there is none.
   */
  method KmpSearch(pattern: string, text: string) returns (matches: seq<nat>, found: bool)
    requires |pattern| >= 1
    ensures matches == AllOccurrences(pattern, text)
    ensures forall off: nat :: off in matches <==> OccursAt(pattern, text, off)
    ensures StrictlyIncreasing(matches)
    ensures found <==> matches != []
  {
    var tLen := |text|;
    var tIndex := 0;
    var pLen := |pattern|;
    var pIndex := 0;
    var table := BuildPrefixSuffixArray(pattern);

    matches := [];
    found := false;
    while tIndex < tLen
      invariant 0 <= pIndex < pLen
      invariant Scanned(pattern, text, tIndex, pIndex, matches)
      invariant found <==> matches != []
      decreases tLen - tIndex, pIndex
    {
      if pattern[pIndex] == text[tIndex] {
        ScannedMatch(pattern, text, tIndex, pIndex, matches);
        pIndex := pIndex + 1;
        tIndex := tIndex + 1;
      }

      if pIndex == pLen {
        ScannedDone(pattern, text, table, tIndex, matches);
        var start: nat := tIndex - pIndex;
        matches := matches + [start];
        found := true;
        pIndex := table[pIndex - 1];
      } else if tIndex < tLen && pattern[pIndex] != text[tIndex] {
        if pIndex != 0 {
          ScannedFallback(pattern, text, table, tIndex, pIndex, matches);
          pIndex := table[pIndex - 1];
        } else {
          ScannedSkip(pattern, text, tIndex, matches);
          tIndex := tIndex + 1;
        }
      }
    }
    ScannedEnd(pattern, text, pIndex, matches);
  }

  /** The classic scenario: "ABABCABAB" occurs in "ABABDABACDABABCABAB" only at offset 10. */
  lemma KmpScenario()
    ensures AllOccurrences("ABABCABAB", "ABABDABACDABABCABAB") == [10]
  {
    var p, t := "ABABCABAB", "ABABDABACDABABCABAB";
    forall off: nat | off < 10 ensures !OccursAt(p, t, off) {
      // the first position at which the window at `off` differs from the pattern
      var x := if off == 0 then 4 else if off == 2 then 2 else if off == 5 then 3 else if off == 7 then 1 else 0;
      NoOccurrenceAt(p, t, off, x);
    }
    assert OccursAt(p, t, 10);
    OccurrencesBelowSkip(p, t, 0, 10);
    OccurrencesBelowSkip(p, t, 11, |t| + 1);
  }
}
