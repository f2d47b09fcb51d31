/**
 * The meaning of one order-k counter of the n-gram ladder: which k-grams a
 * symbol sequence contains, and what feeding that sequence does to a counter.
 */
module Ngrams {
  import opened MapSums

  /** An order-k counter: each k-gram seen so far, with its number of occurrences. */
  type Counter<G(==)> = map<seq<G>, nat>

  /** The invariant of an order-k counter: keys are k-grams, absent keys mean 0. */
  ghost predicate WellFormed<G>(m: Counter<G>, k: nat)
  {
    forall gram | gram in m :: |gram| == k && m[gram] >= 1
  }

  /** One more occurrence of `gram`. */
  function Inc<G(==)>(m: Counter<G>, gram: seq<G>): (r: Counter<G>)
    ensures r.Keys == m.Keys + {gram}
    ensures Get(r, gram) == Get(m, gram) + 1
    ensures forall other | other in m && other != gram :: r[other] == m[other]
  {
    m[gram := Get(m, gram) + 1]
  }

  /** Incrementing one key changes the count of that key only. */
  lemma GetInc<G>(m: Counter<G>, gram: seq<G>, other: seq<G>)
    ensures Get(Inc(m, gram), other) == Get(m, other) + (if other == gram then 1 else 0)
  {
  }

  /** The k-gram of `s` that ends just before position `i`. */
  function GramEndingAt<G>(s: seq<G>, k: nat, i: nat): (gram: seq<G>)
    requires k <= i <= |s|
    ensures |gram| == k
  {
    s[i - k..i]
  }

  /** `gram` is one of the contiguous k-symbol windows of `s`. */
  ghost predicate IsGramOf<G>(s: seq<G>, k: nat, gram: seq<G>)
  {
    exists i | k <= i <= |s| :: GramEndingAt(s, k, i) == gram
  }

  /**
   * The counter after feeding `s` once into `m`: every k-gram of `s`, taken
   * left to right as a sliding window, is counted once more.
   */
  function AddGrams<G(==)>(m: Counter<G>, s: seq<G>, k: nat): Counter<G>
    requires 1 <= k
    decreases |s|
  {
    if |s| < k then m
    else Inc(AddGrams(m, s[..|s| - 1], k), GramEndingAt(s, k, |s|))
  }

  /** Feeding one symbol more adds the k-gram that ends at it, if there is one. */
  lemma AddGramsStep<G>(m: Counter<G>, s: seq<G>, n: nat, k: nat)
    requires 1 <= k && 1 <= n <= |s|
    ensures AddGrams(m, s[..n], k)
         == if k <= n then Inc(AddGrams(m, s[..n - 1], k), GramEndingAt(s, k, n)) else AddGrams(m, s[..n - 1], k)
  {
    assert s[..n][..n - 1] == s[..n - 1];
    if k <= n {
      assert GramEndingAt(s[..n], k, n) == GramEndingAt(s, k, n);
    }
  }

  /** The number of positions at which `gram` occurs in `s`, scanning from the front. */
  function Occurrences<G(==)>(s: seq<G>, k: nat, gram: seq<G>): nat
    requires 1 <= k
    decreases |s|
  {
    if |s| < k then 0
    else (if s[..k] == gram then 1 else 0) + Occurrences(s[1..], k, gram)
  }

  /** The number of k-grams in a sequence of length `len`. */
  function GramCount(len: nat, k: nat): nat
  {
    if len < k then 0 else len - k + 1
  }

  /** Appending a symbol adds exactly the occurrence that ends at the new symbol. */
  lemma {:induction false} OccurrencesSnoc<G>(s: seq<G>, x: G, k: nat, gram: seq<G>)
    requires 1 <= k <= |s| + 1
    ensures Occurrences(s + [x], k, gram)
         == Occurrences(s, k, gram) + (if GramEndingAt(s + [x], k, |s| + 1) == gram then 1 else 0)
    decreases |s|
  {
    if |s| < k {
      OccurrencesSingle(s + [x], k, gram);
    } else {
      var u := s[1..];
      OccurrencesSnoc(u, x, k, gram);
      SnocFront(s, x, k);
    }
  }

  /** A sequence of exactly k symbols occurs once, as its only window. */
  lemma OccurrencesSingle<G>(t: seq<G>, k: nat, gram: seq<G>)
    requires 1 <= k && |t| == k
    ensures Occurrences(t, k, gram) == if GramEndingAt(t, k, k) == gram then 1 else 0
  {
    assert t[..k] == GramEndingAt(t, k, k);
    assert Occurrences(t[1..], k, gram) == 0;
  }

  /** Appending to a sequence of at least k symbols does not change its front window or its tail. */
  lemma SnocFront<G>(s: seq<G>, x: G, k: nat)
    requires 1 <= k <= |s|
    ensures (s + [x])[..k] == s[..k]
    ensures (s + [x])[1..] == s[1..] + [x]
    ensures GramEndingAt(s[1..] + [x], k, |s|) == GramEndingAt(s + [x], k, |s| + 1)
  {
    assert (s + [x])[1..] == s[1..] + [x];
  }

  /**
   * Feeding adds, to the old count of every key, exactly the number of times
   * that key occurs as a k-gram of the input.
   */
  lemma {:induction false} AddGramsCount<G>(m: Counter<G>, s: seq<G>, k: nat, gram: seq<G>)
    requires 1 <= k
    ensures Get(AddGrams(m, s, k), gram) == Get(m, gram) + Occurrences(s, k, gram)
    decreases |s|
  {
    if |s| >= k {
      var prefix := s[..|s| - 1];
      AddGramsCount(m, prefix, k, gram);
      GetInc(AddGrams(m, prefix, k), GramEndingAt(s, k, |s|), gram);
      OccurrencesLast(s, k, gram);
    }
  }

  /** The occurrences in `s` are those in `s` without its last symbol, plus the window ending there. */
  lemma OccurrencesLast<G>(s: seq<G>, k: nat, gram: seq<G>)
    requires 1 <= k <= |s|
    ensures Occurrences(s, k, gram)
         == Occurrences(s[..|s| - 1], k, gram) + (if GramEndingAt(s, k, |s|) == gram then 1 else 0)
  {
    var prefix := s[..|s| - 1];
    assert s == prefix + [s[|s| - 1]];
    OccurrencesSnoc(prefix, s[|s| - 1], k, gram);
  }

  /** A key occurs in `s` exactly when it is one of the windows of `s`. */
  lemma {:induction false} OccurrencesPositive<G>(s: seq<G>, k: nat, gram: seq<G>)
    requires 1 <= k
    ensures Occurrences(s, k, gram) > 0 <==> IsGramOf(s, k, gram)
    decreases |s|
  {
    if |s| >= k {
      OccurrencesPositive(s[1..], k, gram);
      assert GramEndingAt(s, k, k) == s[..k];
      forall i | k <= i <= |s| - 1
        ensures GramEndingAt(s[1..], k, i) == GramEndingAt(s, k, i + 1)
      {
        assert s[1..][i - k..i] == s[i + 1 - k..i + 1];
      }
      if s[..k] != gram && IsGramOf(s, k, gram) {
        var i :| k <= i <= |s| && GramEndingAt(s, k, i) == gram;
        assert GramEndingAt(s[1..], k, i - 1) == gram;
      }
    }
  }

  /** Feeding `s` adds exactly as many k-grams as `s` has windows of width k. */
  lemma {:induction false} AddGramsTotal<G>(m: Counter<G>, s: seq<G>, k: nat)
    requires 1 <= k
    ensures Total(AddGrams(m, s, k)) == Total(m) + GramCount(|s|, k)
    decreases |s|
  {
    if |s| >= k {
      AddGramsTotal(m, s[..|s| - 1], k);
      TotalIncrement(AddGrams(m, s[..|s| - 1], k), GramEndingAt(s, k, |s|));
    }
  }

  /** Feeding keeps the counter invariant: keys are k-grams, counts are positive. */
  lemma {:induction false} AddGramsWellFormed<G>(m: Counter<G>, s: seq<G>, k: nat)
    requires 1 <= k && WellFormed(m, k)
    ensures WellFormed(AddGrams(m, s, k), k)
    decreases |s|
  {
    if |s| >= k {
      AddGramsWellFormed(m, s[..|s| - 1], k);
    }
  }

  /** A sequence shorter than k leaves the order-k counter exactly as it was. */
  lemma ShortInputUnchanged<G>(m: Counter<G>, s: seq<G>, k: nat)
    requires 1 <= k && |s| < k
    ensures AddGrams(m, s, k) == m
    ensures Total(AddGrams(m, s, k)) == Total(m)
  {
  }

  /**
   * Feeding only adds: no count decreases, the keys that are not windows of
   * the input keep their counts, and every window of the input is present.
   */
  lemma FeedOnlyAdds<G>(m: Counter<G>, s: seq<G>, k: nat, gram: seq<G>)
    requires 1 <= k
    ensures Get(AddGrams(m, s, k), gram) >= Get(m, gram)
    ensures !IsGramOf(s, k, gram) ==> Get(AddGrams(m, s, k), gram) == Get(m, gram)
    ensures IsGramOf(s, k, gram) ==> gram in AddGrams(m, s, k)
  {
    AddGramsCount(m, s, k, gram);
    OccurrencesPositive(s, k, gram);
  }

  /** Every key recorded by feeding was already there or is a window of the input. */
  lemma KeysAreWindows<G>(m: Counter<G>, s: seq<G>, k: nat, gram: seq<G>)
    requires 1 <= k && WellFormed(m, k)
    ensures gram in AddGrams(m, s, k) <==> gram in m || IsGramOf(s, k, gram)
  {
    AddGramsWellFormed(m, s, k);
    AddGramsCount(m, s, k, gram);
    OccurrencesPositive(s, k, gram);
  }

  /**
   * Two feeds accumulate: the counts after feeding `s1` and then `s2` are the
   * old counts plus the occurrences in each part; no k-gram spans the two.
   */
  lemma FeedsAccumulate<G>(m: Counter<G>, s1: seq<G>, s2: seq<G>, k: nat, gram: seq<G>)
    requires 1 <= k
    ensures Get(AddGrams(AddGrams(m, s1, k), s2, k), gram)
         == Get(m, gram) + Occurrences(s1, k, gram) + Occurrences(s2, k, gram)
  {
    AddGramsCount(m, s1, k, gram);
    AddGramsCount(AddGrams(m, s1, k), s2, k, gram);
  }
}
