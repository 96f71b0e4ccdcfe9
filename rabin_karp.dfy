/**
 Rabin-Karp search: a polynomial hash with base 3 over character codes, its
 constant-time rolling update, and a matcher that slides a window over the
 text and reports the first offset whose window equals the pattern.
 */
module RabinKarp {
  import opened Occurrences

  /** The fixed base of the polynomial hash. */
  const PRIME: nat := 3

  /** The integer value of a character: its code point. */
  function ToVal(c: char): (v: nat)
    ensures v < 0x11_0000
  {
    c as nat
  }

  /** b^n; a positive base gives a positive power. */
  function Pow(b: nat, n: nat): (r: nat)
    ensures b >= 1 ==> r >= 1
  {
    if n == 0 then 1 else b * Pow(b, n - 1)
  }

  /** The contribution of character `c` at position `n` of a window: its value times prime^n. */
  function ToHashValue(c: char, prime: nat, n: nat): (r: nat)
    ensures r == 0 <==> c == '\0' || (prime == 0 && n > 0)
  {
    ToVal(c) * Pow(prime, n)
  }

  /** The hash of a window computed from scratch: the sum of ToHashValue(w[k], PRIME, k) over its positions. */
  function Hash(w: string): (r: nat)
    ensures w != [] ==> r >= ToVal(w[0])
  {
    if w == [] then 0 else Hash(w[..|w| - 1]) + ToHashValue(w[|w| - 1], PRIME, |w| - 1)
  }

  /** The rolling update: drop `oldChar` from the front, shift every exponent down, add `newChar` at position m - 1. */
  function Roll(oldHash: int, oldChar: char, newChar: char, m: nat): (r: int)
    requires m >= 1
    ensures r >= ToHashValue(newChar, PRIME, m - 1) <==> oldHash >= ToVal(oldChar)
  {
    // Python's `//` floors; for the positive divisor PRIME it agrees with Dafny's `/`.
    (oldHash - ToVal(oldChar)) / PRIME + ToHashValue(newChar, PRIME, m - 1)
  }

  /** The hash in Horner form: prepending `c` multiplies the rest by PRIME and adds the value of `c`. */
  lemma {:induction false} HashCons(c: char, w: string)
    ensures Hash([c] + w) == ToVal(c) + PRIME * Hash(w)
  {
    if w == [] {
      assert [c] + w == [c];
      assert [c][..0] == [];
    } else {
      var n := |w|;
      var init := w[..n - 1];
      var last := w[n - 1];
      assert ([c] + w)[..n] == [c] + init;
      HashCons(c, init);
      calc {
        Hash([c] + w);
        Hash([c] + init) + ToVal(last) * Pow(PRIME, n);
        ToVal(c) + PRIME * Hash(init) + ToVal(last) * (PRIME * Pow(PRIME, n - 1));
        { assert ToVal(last) * (PRIME * Pow(PRIME, n - 1)) == PRIME * (ToVal(last) * Pow(PRIME, n - 1)); }
        ToVal(c) + PRIME * (Hash(init) + ToVal(last) * Pow(PRIME, n - 1));
        ToVal(c) + PRIME * Hash(w);
      }
    }
  }

  /**
   Rolling equivalence: when `oldHash` is the hash of `oldChar` followed by the first m - 1
   characters of `w`, removing `oldChar` leaves an exact multiple of PRIME, and the rolling
   update yields the hash of `w` computed from scratch.
   */
  lemma RollingHashEquivalence(oldChar: char, w: string)
    requires |w| >= 1
    ensures Hash([oldChar] + w[..|w| - 1]) - ToVal(oldChar) == PRIME * Hash(w[..|w| - 1])
    ensures Roll(Hash([oldChar] + w[..|w| - 1]), oldChar, w[|w| - 1], |w|) == Hash(w)
  {
    var init := w[..|w| - 1];
    var h := Hash(init);
    HashCons(oldChar, init);
    ExactDivision(Hash([oldChar] + init) - ToVal(oldChar), h);
    assert Hash(w) == h + ToHashValue(w[|w| - 1], PRIME, |w| - 1);
  }

  /** Dividing a multiple of PRIME by PRIME is exact: Python's `//` and Dafny's `/` both give `h`. */
  lemma ExactDivision(d: int, h: nat)
    requires d == PRIME * h
    ensures d % PRIME == 0 && d / PRIME == h
  {
  }

  /**
   A hash of 0, which the rolling function reads as "no previous hash", arises exactly for
   windows made only of NUL characters.
   */
  lemma {:induction false} HashZero(w: string)
    ensures Hash(w) == 0 <==> forall k :: 0 <= k < |w| ==> w[k] == '\0'
  {
    if w != [] {
      var init := w[..|w| - 1];
      HashZero(init);
      assert Pow(PRIME, |w| - 1) >= 1;
      assert forall k :: 0 <= k < |init| ==> init[k] == w[k];
    }
  }

  /** The hash is not injective: "ab" and "da" collide under base 3. */
  lemma HashCollision()
    ensures Hash("ab") == Hash("da") && "ab" != "da"
  {
    HashCons('a', "b");
    HashCons('d', "a");
    assert Hash("b") == ToVal('b') && Hash("a") == ToVal('a');
  }

  /**
   Hashes `text`. With `oldHash == 0` it sums the contributions of every character; otherwise
   it rolls `oldHash` forward, removing `oldChar` and appending `newChar`.
   */
  method RabinKarpRollingHash(text: string, oldHash: int, oldChar: string, newChar: string) returns (h: int)
    requires oldHash != 0 ==> |text| >= 1 && |oldChar| == 1 && |newChar| == 1
    ensures oldHash == 0 ==> h == Hash(text)
    ensures oldHash != 0 ==> h == Roll(oldHash, oldChar[0], newChar[0], |text|)
    ensures (oldHash != 0 && oldHash == Hash(oldChar + text[..|text| - 1]) &&
             newChar == [text[|text| - 1]]) ==> h == Hash(text)
  {
    var res := 0;
    if oldHash == 0 {
      for i := 0 to |text|
        invariant res == Hash(text[..i])
      {
        assert text[..i + 1][..i] == text[..i];
        res := res + ToHashValue(text[i], PRIME, i);
      }
      assert text[..|text|] == text;
    } else {
      if oldHash == Hash(oldChar + text[..|text| - 1]) && newChar == [text[|text| - 1]] {
        assert oldChar == [oldChar[0]];
        RollingHashEquivalence(oldChar[0], text);
      }
      return Roll(oldHash, oldChar[0], newChar[0], |text|);
    }
    return res;
  }

  /**
   The matcher's state before the window at offset `i`: no occurrence starts before `i`, and
   after the first window `oldChar` is the character that slid out and `currHash` the hash of
   the window that started at i - 1.
   */
  predicate Sliding(pattern: string, text: string, i: nat, oldChar: string, currHash: int) {
    i <= |text| &&
    (forall off: nat {:trigger OccursAt(pattern, text, off)} :: off < i ==> !OccursAt(pattern, text, off)) &&
    (i == 0 ==> currHash == 0 && oldChar == "") &&
    (0 < i ==> i - 1 + |pattern| <= |text| && oldChar == [text[i - 1]] &&
               currHash == Hash(text[i - 1..i - 1 + |pattern|]))
  }

  /** A non-zero `currHash` is the hash of `oldChar` followed by all but the last character of the window at `i`. */
  lemma SlidingWindow(pattern: string, text: string, i: nat, oldChar: string, currHash: int)
    requires |pattern| >= 1 && Sliding(pattern, text, i, oldChar, currHash) && i + |pattern| <= |text|
    ensures currHash != 0 ==>
              |oldChar| == 1 && currHash == Hash(oldChar + text[i..i + |pattern|][..|pattern| - 1])
  {
    if currHash != 0 {
      assert 0 < i;
      WindowShift(text, i, |pattern|);
      assert oldChar + text[i..i + |pattern|][..|pattern| - 1] == text[i - 1..i - 1 + |pattern|];
    }
  }

  /** The previous window is its first character followed by all but the last character of the current one. */
  lemma WindowShift(text: string, i: nat, m: nat)
    requires 0 < i && 1 <= m && i + m <= |text|
    ensures [text[i - 1]] + text[i..i + m][..m - 1] == text[i - 1..i - 1 + m]
  {
  }

  /** A window that is not the pattern moves the state on to offset i + 1. */
  lemma SlidingStep(pattern: string, text: string, i: nat, oldChar: string, currHash: int, h: int)
    requires Sliding(pattern, text, i, oldChar, currHash) && i + |pattern| <= |text|
    requires h == Hash(text[i..i + |pattern|]) && text[i..i + |pattern|] != pattern
    ensures Sliding(pattern, text, i + 1, [text[i]], h)
  {
    OccursAtSlice(pattern, text, i);
  }

  /** A window that is the pattern, with none before it, is the first occurrence. */
  lemma SlidingFound(pattern: string, text: string, i: nat, oldChar: string, currHash: int)
    requires Sliding(pattern, text, i, oldChar, currHash) && i + |pattern| <= |text|
    requires text[i..i + |pattern|] == pattern
    ensures FirstOccurrence(pattern, text) == Some(i)
  {
    OccursAtSlice(pattern, text, i);
    FirstOccurrenceSome(pattern, text, i);
  }

  /** Once the window at `i` runs past the end of the text there is no occurrence at all. */
  lemma SlidingEnd(pattern: string, text: string, i: nat, oldChar: string, currHash: int)
    requires Sliding(pattern, text, i, oldChar, currHash) && i + |pattern| > |text|
    ensures FirstOccurrence(pattern, text) == None
  {
    FirstOccurrenceNone(pattern, text);
  }

  /**
   Slides a window of the pattern's length over `text`, keeping its hash up to date with the
   rolling update, and returns the first offset whose hash and characters both match.
   */
  method RabinKarpPatternMatch(pattern: string, text: string) returns (r: Option<nat>)
    requires |pattern| >= 1
    ensures r == FirstOccurrence(pattern, text)
    ensures r.Some? ==> OccursAt(pattern, text, r.value)
    ensures r.None? <==> forall off: nat :: !OccursAt(pattern, text, off)
  {
    var pLen := |pattern|;
    var pHash := RabinKarpRollingHash(pattern, 0, "", "");

    var oldChar := "";
    var currHash := 0;
    for i: nat := 0 to |text|
      invariant Sliding(pattern, text, i, oldChar, currHash)
    {
      var c := text[i];
      var currText := text[i..if i + pLen <= |text| then i + pLen else |text|];

      if |currText| != pLen {
        SlidingEnd(pattern, text, i, oldChar, currHash);
        return None;
      }

      SlidingWindow(pattern, text, i, oldChar, currHash);
      ghost var prevChar, prevHash := oldChar, currHash;
      currHash := RabinKarpRollingHash(currText, currHash, oldChar, [currText[|currText| - 1]]);
      oldChar := [c];

      if currHash == pHash && pattern == currText {
        SlidingFound(pattern, text, i, prevChar, prevHash);
        return Some(i);
      }
      SlidingStep(pattern, text, i, prevChar, prevHash, currHash);
    }
    SlidingEnd(pattern, text, |text|, oldChar, currHash);
    return None;
  }

  /** The scenario of the module's demo call: "eda" first occurs in "abeda" at offset 2. */
  lemma DemoMatch()
    ensures FirstOccurrence("eda", "abeda") == Some(2)
  {
    var p, t := "eda", "abeda";
    assert OccursAt(p, t, 2);
    assert !OccursAt(p, t, 0) by { assert t[0 + 0] != p[0]; }
    assert !OccursAt(p, t, 1) by { assert t[1 + 0] != p[0]; }
    FirstOccurrenceSome(p, t, 2);
  }
}
