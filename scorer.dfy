/**
 * The chrF scorer: per order, the candidate's total, the reference's total
 * and the clipped number of matching n-grams, combined into an F-beta value
 * and averaged over the orders of the ladder.
 *
 * The arithmetic of the score is stated over `real`: the substitution of
 * 1e-16 for an undefined ratio and the floor of 1e-16 under the denominator
 * are kept exactly; the rounding of 64-bit floating point is not modelled.
 */
module ChrfScore {
  import opened MapSums
  import opened Ngrams
  import opened NgramLadder

  /** The 1e-16 that stands in for an undefined ratio and floors the denominator. */
  const Epsilon: real := 0.0000000000000001

  function Min(a: nat, b: nat): nat
  {
    if a <= b then a else b
  }

  /** For each reference k-gram the candidate also has, the smaller of its two counts. */
  ghost function Clipped<G>(tl: Counter<G>, refs: Counter<G>): Counter<G>
  {
    map gram | gram in refs && gram in tl :: Min(refs[gram], tl[gram])
  }

  /** The clipped overlap of candidate and reference at one order. */
  ghost function Matching<G>(tl: Counter<G>, refs: Counter<G>): nat
  {
    Total(Clipped(tl, refs))
  }

  /** No more n-grams match than either side holds. */
  lemma MatchingBounds<G>(tl: Counter<G>, refs: Counter<G>)
    ensures Matching(tl, refs) <= Total(refs)
    ensures Matching(tl, refs) <= Total(tl)
  {
    TotalMonotonic(Clipped(tl, refs), refs);
    TotalMonotonic(Clipped(tl, refs), tl);
  }

  /** Against itself, every n-gram matches. */
  lemma MatchingSelf<G>(m: Counter<G>)
    ensures Matching(m, m) == Total(m)
  {
    assert Clipped(m, m) == m;
  }

  /** The clipped overlap does not depend on which side is the reference. */
  lemma MatchingSymmetric<G>(tl: Counter<G>, refs: Counter<G>)
    ensures Matching(tl, refs) == Matching(refs, tl)
  {
    assert Clipped(tl, refs) == Clipped(refs, tl);
  }

  /**
   * The integer part of one order's score: the candidate total, then the
   * reference total and the clipped matches in one pass over the reference.
   */
  method OrderTotals<G(==)>(tl: Counter<G>, refs: Counter<G>) returns (totalTl: nat, totalRef: nat, matching: nat)
    ensures totalTl == Total(tl)
    ensures totalRef == Total(refs)
    ensures matching == Matching(tl, refs)
    ensures matching <= totalTl && matching <= totalRef
  {
    totalTl := 0;
    var rest := tl.Keys;
    RestrictCovering(tl, tl.Keys);
    while rest != {}
      invariant rest <= tl.Keys
      invariant totalTl + Total(Restrict(tl, rest)) == Total(tl)
      decreases rest
    {
      var gram :| gram in rest;
      RestrictTotalRemove(tl, rest, gram);
      totalTl := totalTl + tl[gram];
      rest := rest - {gram};
    }
    
    ghost var clipped := Clipped(tl, refs);
    matching, totalRef := 0, 0;
    rest := refs.Keys;
    RestrictCovering(refs, refs.Keys);
    RestrictCovering(clipped, refs.Keys);
    while rest != {}
      invariant rest <= refs.Keys
      invariant totalRef + Total(Restrict(refs, rest)) == Total(refs)
      invariant matching + Total(Restrict(clipped, rest)) == Total(clipped)
      decreases rest
    {
      var gram :| gram in rest;
      RestrictTotalRemove(refs, rest, gram);
      RestrictTotalRemove(clipped, rest, gram);
      totalRef := totalRef + refs[gram];
      if gram in tl {
        matching := matching + Min(refs[gram], tl[gram]);
      }
      rest := rest - {gram};
    }
    MatchingBounds(tl, refs);
  }

  /** `matching / total`, or 1e-16 when there is nothing to divide by. */
  function Ratio(matching: nat, total: nat): real
  {
    if total > 0 then matching as real / total as real else Epsilon
  }

  /**
   * The F-beta combination of precision and recall, with `beta2` the square
   * of beta and the denominator floored at 1e-16.
   */
  function FBeta(beta2: real, precision: real, recall: real): real
  {
    var numerator := (1.0 + beta2) * (precision * recall);
    var denominator := if beta2 * precision + recall < Epsilon then Epsilon else beta2 * precision + recall;
    numerator / denominator
  }

  /** The score of one order, from its totals and clipped matches. */
  function OrderScore(beta: real, totalTl: nat, totalRef: nat, matching: nat): real
  {
    FBeta(beta * beta, Ratio(matching, totalTl), Ratio(matching, totalRef))
  }

  /** Precision and recall lie in [0, 1] whenever the matches do not exceed the total. */
  lemma RatioBounds(matching: nat, total: nat)
    requires matching <= total
    ensures 0.0 < Ratio(matching, total) || matching == 0
    ensures 0.0 <= Ratio(matching, total) <= 1.0
  {
    if total > 0 {
      var r := Ratio(matching, total);
      assert r * total as real == matching as real;
    }
  }

  /** The square of a real is not negative. */
  lemma SquareNonNegative(beta: real)
    ensures beta * beta >= 0.0
  {
    if beta < 0.0 {
      assert beta * beta == (-beta) * (-beta);
    }
  }

  /** With precision and recall in [0, 1], the F-beta numerator does not exceed its denominator. */
  lemma NumeratorBounds(beta2: real, p: real, r: real)
    requires beta2 >= 0.0 && 0.0 <= p <= 1.0 && 0.0 <= r <= 1.0
    ensures 0.0 <= (1.0 + beta2) * (p * r) <= beta2 * p + r
  {
    assert p * r <= r by {
      assert r - p * r == r * (1.0 - p);
    }
    assert beta2 * (p * r) <= beta2 * p by {
      assert beta2 * p - beta2 * (p * r) == (beta2 * p) * (1.0 - r);
    }
    assert (1.0 + beta2) * (p * r) == p * r + beta2 * (p * r);
  }

  /** A quotient of a non-negative real by a real no smaller and positive lies in [0, 1]. */
  lemma QuotientBounds(numerator: real, denominator: real)
    requires 0.0 <= numerator <= denominator && denominator > 0.0
    ensures 0.0 <= numerator / denominator <= 1.0
  {
    var q := numerator / denominator;
    assert q * denominator == numerator;
  }

  /** With precision and recall in [0, 1], the F-beta value lies in [0, 1]. */
  lemma FBetaBounds(beta2: real, p: real, r: real)
    requires beta2 >= 0.0 && 0.0 <= p <= 1.0 && 0.0 <= r <= 1.0
    ensures 0.0 <= FBeta(beta2, p, r) <= 1.0
  {
    NumeratorBounds(beta2, p, r);
    var sum := beta2 * p + r;
    QuotientBounds((1.0 + beta2) * (p * r), if sum < Epsilon then Epsilon else sum);
  }

  /** Every per-order score lies in [0, 1]. */
  lemma OrderScoreBounds(beta: real, totalTl: nat, totalRef: nat, matching: nat)
    requires matching <= totalTl && matching <= totalRef
    ensures 0.0 <= OrderScore(beta, totalTl, totalRef, matching) <= 1.0
  {
    RatioBounds(matching, totalTl);
    RatioBounds(matching, totalRef);
    SquareNonNegative(beta);
    FBetaBounds(beta * beta, Ratio(matching, totalTl), Ratio(matching, totalRef));
  }

  /** Precision and recall both 1 give 1; both 1e-16 give 1e-16. */
  lemma FBetaEqual(beta2: real, ratio: real)
    requires beta2 >= 0.0 && (ratio == 1.0 || ratio == Epsilon)
    ensures FBeta(beta2, ratio, ratio) == ratio
  {
    var denominator := beta2 * ratio + ratio;
    assert denominator == (1.0 + beta2) * ratio;
    assert denominator >= Epsilon;
    assert (1.0 + beta2) * (ratio * ratio) == denominator * ratio;
  }

  /**
   * An order scored against itself gives 1 when it holds any n-gram; an
   * empty order gives 1e-16, not 1.
   */
  lemma OrderScoreSelf(beta: real, total: nat)
    ensures OrderScore(beta, total, total, total) == if total > 0 then 1.0 else Epsilon
  {
    SquareNonNegative(beta);
    if total > 0 {
      var t := total as real;
      assert t / t == 1.0;
    }
    FBetaEqual(beta * beta, Ratio(total, total));
  }

  /**
   * A well-formed counter scored against itself gives 1 exactly when it
   * holds some n-gram and 1e-16 when it is empty.
   */
  lemma CounterScoreSelf<G>(beta: real, m: Counter<G>, k: nat)
    requires WellFormed(m, k)
    ensures OrderScore(beta, Total(m), Total(m), Matching(m, m)) == if m != map[] then 1.0 else Epsilon
  {
    MatchingSelf(m);
    OrderScoreSelf(beta, Total(m));
    TotalZero(m);
  }

  /**
   * The sum of the per-order scores of orders `k` down to 1, as the scorer
   * accumulates it walking down the chain.
   */
  ghost function ScoreSum<G>(beta: real, tls: seq<Counter<G>>, refss: seq<Counter<G>>, k: nat): real
    requires k <= |tls| && k <= |refss|
  {
    if k == 0 then 0.0
    else
      var tl, refs := tls[k - 1], refss[k - 1];
      OrderScore(beta, Total(tl), Total(refs), Matching(tl, refs)) + ScoreSum(beta, tls, refss, k - 1)
  }

  /** The sum over k orders lies in [0, k]. */
  lemma {:induction false} ScoreSumBounds<G>(beta: real, tls: seq<Counter<G>>, refss: seq<Counter<G>>, k: nat)
    requires k <= |tls| && k <= |refss|
    ensures 0.0 <= ScoreSum(beta, tls, refss, k) <= k as real
  {
    if k > 0 {
      var tl, refs := tls[k - 1], refss[k - 1];
      MatchingBounds(tl, refs);
      OrderScoreBounds(beta, Total(tl), Total(refs), Matching(tl, refs));
      ScoreSumBounds(beta, tls, refss, k - 1);
    }
  }

  /** The number of orders among the first `k` that hold at least one n-gram. */
  ghost function NonEmptyOrders<G>(counters: seq<Counter<G>>, k: nat): (n: nat)
    requires k <= |counters|
    ensures n <= k
  {
    if k == 0 then 0
    else (if Total(counters[k - 1]) > 0 then 1 else 0) + NonEmptyOrders(counters, k - 1)
  }

  /**
   * A ladder scored against itself: every order holding an n-gram scores 1,
   * every empty order scores 1e-16.
   */
  lemma {:induction false} ScoreSumSelf<G>(beta: real, counters: seq<Counter<G>>, k: nat)
    requires k <= |counters|
    ensures ScoreSum(beta, counters, counters, k)
         == NonEmptyOrders(counters, k) as real + (k - NonEmptyOrders(counters, k)) as real * Epsilon
  {
    if k > 0 {
      var m := counters[k - 1];
      MatchingSelf(m);
      OrderScoreSelf(beta, Total(m));
      ScoreSumSelf(beta, counters, k - 1);
    }
  }

  /**
   * The recursion of the scorer down the chain from order `k`: the sum of the
   * per-order scores and the number of orders visited. The sentinel, order
   * 0, contributes nothing and ends the recursion.
   */
  method ChrfImpl<G(==, 0)>(beta: real, tl: Ladder<G>, refs: Ladder<G>, k: nat) returns (sum: real, count: nat)
    requires tl.Valid() && refs.Valid() && tl.width == refs.width && k <= tl.width
    ensures count == k
    ensures sum == ScoreSum(beta, tl.counters, refs.counters, k)
    ensures 0.0 <= sum <= k as real
    decreases k
  {
    if k == 0 {
      return 0.0, 0;
    }
    var totalTl, totalRef, matching := OrderTotals(tl.Order(k), refs.Order(k));
    OrderScoreBounds(beta, totalTl, totalRef, matching);
    var score := OrderScore(beta, totalTl, totalRef, matching);
    var nextScore, nextCount := ChrfImpl(beta, tl, refs, k - 1);
    sum, count := score + nextScore, nextCount + 1;
  }

  /** The chrF score with weight `beta`: the mean of the per-order scores, in [0, 1]. */
  method Chrf<G(==, 0)>(beta: real, tl: Ladder<G>, refs: Ladder<G>) returns (score: real)
    requires tl.Valid() && refs.Valid() && tl.width == refs.width
    ensures score == ScoreSum(beta, tl.counters, refs.counters, tl.width) / tl.width as real
    ensures 0.0 <= score <= 1.0
  {
    var sum, count := ChrfImpl(beta, tl, refs, tl.width);
    QuotientBounds(sum, count as real);
    score := sum / count as real;
  }

  /** chrF3: beta 3 over character n-grams of orders 6 down to 1, on a 0 to 100 scale. */
  method Chrf3(tl: Ladder<char>, refs: Ladder<char>) returns (score: real)
    requires tl.Valid() && refs.Valid() && tl.width == 6 && refs.width == 6
    ensures score == ScoreSum(3.0, tl.counters, refs.counters, 6) / 6.0 * 100.0
    ensures 0.0 <= score <= 100.0
  {
    var s := Chrf(3.0, tl, refs);
    score := s * 100.0;
  }

  /** Feeding `s` into an empty counter of order k gives it an n-gram exactly when |s| >= k. */
  lemma FedOrderNonEmpty<G>(s: seq<G>, k: nat)
    requires 1 <= k
    ensures Total(AddGrams(map[], s, k)) > 0 <==> |s| >= k
  {
    AddGramsTotal(map[], s, k);
  }

  /** Of the orders 1..k of a ladder fed `s` once from empty, exactly min(|s|, k) hold n-grams. */
  lemma {:induction false} FedNonEmptyOrders<G>(counters: seq<Counter<G>>, s: seq<G>, k: nat)
    requires k <= |counters|
    requires forall i | 0 <= i < |counters| :: counters[i] == AddGrams(map[], s, i + 1)
    ensures NonEmptyOrders(counters, k) == Min(|s|, k)
  {
    if k > 0 {
      FedOrderNonEmpty(s, k);
      FedNonEmptyOrders(counters, s, k - 1);
    }
  }

  /**
   * chrF3 of a text against itself, both ladders fed once from empty:
   * 100 when the text has at least 6 non-space characters, and otherwise
   * the mean over 6 orders in which each empty order scores 1e-16, so that
   * two empty texts score 100 * 1e-16 and "abc" against "abc" scores
   * 50 * (1 + 1e-16).
   */
  lemma Chrf3Identical(counters: seq<Counter<char>>, text: string)
    requires |counters| == 6
    requires forall i | 0 <= i < 6 :: counters[i] == AddGrams(map[], WithoutSpaces(text), i + 1)
    ensures var n := Min(|WithoutSpaces(text)|, 6);
      ScoreSum(3.0, counters, counters, 6) / 6.0 * 100.0
      == 100.0 * (n as real + (6 - n) as real * Epsilon) / 6.0
    ensures |WithoutSpaces(text)| >= 6 ==> ScoreSum(3.0, counters, counters, 6) / 6.0 * 100.0 == 100.0
    ensures WithoutSpaces(text) == [] ==> ScoreSum(3.0, counters, counters, 6) / 6.0 * 100.0 == 100.0 * Epsilon
  {
    ScoreSumSelf(3.0, counters, 6);
    FedNonEmptyOrders(counters, WithoutSpaces(text), 6);
  }
}
