/**
 The naive meaning of substring search, shared by both matchers: where a
 pattern occurs in a text, every occurrence in increasing order, and the
 first one.  Both algorithms are proved against these definitions.
 */
module Occurrences {

  datatype Option<T> = None | Some(value: T)

  /**
   `pattern` occurs in `text` at offset `off`: the slice text[off : off + |pattern|] is the
   pattern, character by character.
   */
  predicate OccursAt(pattern: string, text: string, off: nat) {
    off + |pattern| <= |text| && forall x :: 0 <= x < |pattern| ==> text[off + x] == pattern[x]
  }

  /** The same fact, stated on the slice. */
  lemma OccursAtSlice(pattern: string, text: string, off: nat)
    requires off + |pattern| <= |text|
    ensures OccursAt(pattern, text, off) <==> text[off..off + |pattern|] == pattern
  {
    if text[off..off + |pattern|] == pattern {
      forall x | 0 <= x < |pattern| ensures text[off + x] == pattern[x] {
        assert text[off..off + |pattern|][x] == pattern[x];
      }
    }
  }

  predicate StrictlyIncreasing(xs: seq<nat>) {
    forall a, b :: 0 <= a < b < |xs| ==> xs[a] < xs[b]
  }

  /** The naive scan: every offset below `hi` at which `pattern` occurs, in increasing order. */
  function OccurrencesBelow(pattern: string, text: string, hi: nat): seq<nat> {
    if hi == 0 then []
    else
      var below := OccurrencesBelow(pattern, text, hi - 1);
      if OccursAt(pattern, text, hi - 1) then below + [hi - 1] else below
  }

  /** The naive scan lists exactly the occurrences below `hi`, each once, in increasing order. */
  lemma {:induction false} OccurrencesBelowSpec(pattern: string, text: string, hi: nat)
    ensures forall off: nat :: off in OccurrencesBelow(pattern, text, hi) <==> off < hi && OccursAt(pattern, text, off)
    ensures StrictlyIncreasing(OccurrencesBelow(pattern, text, hi))
  {
    if hi > 0 {
      OccurrencesBelowSpec(pattern, text, hi - 1);
      var below := OccurrencesBelow(pattern, text, hi - 1);
      assert forall a :: 0 <= a < |below| ==> below[a] in below;
    }
  }

  /** Every offset at which `pattern` occurs in `text`, overlapping ones included, in increasing order. */
  function AllOccurrences(pattern: string, text: string): (r: seq<nat>)
    ensures forall off: nat :: off in r <==> OccursAt(pattern, text, off)
    ensures StrictlyIncreasing(r)
  {
    OccurrencesBelowSpec(pattern, text, |text| + 1);
    OccurrencesBelow(pattern, text, |text| + 1)
  }

  /** The smallest offset at which `pattern` occurs in `text`, if there is one. */
  function FirstOccurrence(pattern: string, text: string): (r: Option<nat>)
    ensures r.Some? ==> OccursAt(pattern, text, r.value)
    ensures r.Some? ==> forall off: nat :: off < r.value ==> !OccursAt(pattern, text, off)
    ensures r.None? <==> forall off: nat :: !OccursAt(pattern, text, off)
  {
    var all := AllOccurrences(pattern, text);
    if all == [] then None
    else
      assert all[0] in all;
      Some(all[0])
  }

  /** Offsets in [lo, hi) that are not occurrences leave the naive scan unchanged. */
  lemma {:induction false} OccurrencesBelowSkip(pattern: string, text: string, lo: nat, hi: nat)
    requires lo <= hi
    requires forall off: nat :: lo <= off < hi ==> !OccursAt(pattern, text, off)
    ensures OccurrencesBelow(pattern, text, hi) == OccurrencesBelow(pattern, text, lo)
  {
    if lo < hi {
      OccurrencesBelowSkip(pattern, text, lo, hi - 1);
    }
  }

  /** A pattern longer than the text occurs nowhere in it. */
  lemma PatternLongerThanText(pattern: string, text: string)
    requires |pattern| > |text|
    ensures AllOccurrences(pattern, text) == []
    ensures FirstOccurrence(pattern, text) == None
  {
    OccurrencesBelowSkip(pattern, text, 0, |text| + 1);
  }

  /** A pattern that is the whole text occurs in it exactly once, at offset 0. */
  lemma PatternEqualsText(pattern: string)
    ensures AllOccurrences(pattern, pattern) == [0]
  {
    assert OccursAt(pattern, pattern, 0);
    OccurrencesBelowSkip(pattern, pattern, 1, |pattern| + 1);
  }

  /** Overlapping occurrences are all listed: "aa" occurs in "aaa" at 0 and at 1. */
  lemma OverlappingOccurrences()
    ensures AllOccurrences("aa", "aaa") == [0, 1]
  {
    var p, t := "aa", "aaa";
    assert OccursAt(p, t, 0) && OccursAt(p, t, 1);
    OccurrencesBelowSkip(p, t, 2, 4);
    assert OccurrencesBelow(p, t, 1) == [0];
  }

  /** A single mismatching character rules out an occurrence. */
  lemma NoOccurrenceAt(pattern: string, text: string, off: nat, x: nat)
    requires x < |pattern| && off + x < |text| && text[off + x] != pattern[x]
    ensures !OccursAt(pattern, text, off)
  {
  }

  /** An occurrence with none before it is the first occurrence. */
  lemma FirstOccurrenceSome(pattern: string, text: string, k: nat)
    requires OccursAt(pattern, text, k)
    requires forall off: nat :: off < k ==> !OccursAt(pattern, text, off)
    ensures FirstOccurrence(pattern, text) == Some(k)
  {
    var r := FirstOccurrence(pattern, text);
    assert r.Some?;
    assert !(r.value < k) && !(k < r.value);
  }

  /** Without any occurrence there is no first one. */
  lemma FirstOccurrenceNone(pattern: string, text: string)
    requires forall off: nat :: !OccursAt(pattern, text, off)
    ensures FirstOccurrence(pattern, text) == None
  {
  }
}
