/**
 * The n-gram ladder: one counter per order, from the maximum order `width`
 * down to 1, ending in an order-0 sentinel that holds nothing. It is filled
 * in one pass by sliding a single window of `width` symbols over the input;
 * the node of order k reads the trailing k symbols of that shared window.
 */
module NgramLadder {
  import opened MapSums
  import opened Ngrams

  class Ladder<G(==, 0)> {
    /** The maximum order W; the counters have orders W down to 1. */
    const width: nat
    /** `counters[k - 1]` is the order-k counter. */
    var counters: seq<Counter<G>>

    ghost predicate Valid()
      reads this
    {
      && 1 <= width
      && |counters| == width
      && forall i | 0 <= i < width :: WellFormed(counters[i], i + 1)
    }

    /** The counter of order `k`. */
    function Order(k: nat): Counter<G>
      reads this
      requires Valid() && 1 <= k <= width
    {
      counters[k - 1]
    }

    /** An empty ladder of maximum order `width`; order 0 is not a counter. */
    constructor (width: nat)
      requires 1 <= width
      ensures Valid() && this.width == width
      ensures forall k | 1 <= k <= width :: Order(k) == map[]
    {
      this.width := width;
      counters := seq(width, _ => map[]);
    }

    /**
     * One step at the node of order `k` and, through the chain, at every
     * node below it: when at least k symbols have been read, the trailing k
     * symbols of `buffer` are counted once more. Order 0 is the sentinel.
     */
    method FeedAt(k: nat, count: nat, buffer: seq<G>)
      requires Valid() && k <= width && k <= |buffer|
      modifies this
      ensures Valid()
      ensures counters == StepAll(old(counters), k, count, buffer)
      decreases k
    {
      if k == 0 {
        return;
      }
      ghost var before := counters;
      if count >= k {
        var gram := buffer[|buffer| - k..];
        counters := counters[k - 1 := Inc(counters[k - 1], gram)];
      }
      StepAllDown(before, counters, k, count, buffer);
      FeedAt(k - 1, count, buffer);
    }

    /**
     * Feeds every symbol of `input` in order. The window and the symbol
     * count start afresh on every call, so no n-gram spans two calls.
     */
    method FeedFrom(input: seq<G>)
      requires Valid()
      modifies this
      ensures Valid()
      ensures forall k | 1 <= k <= width :: Order(k) == AddGrams(old(Order(k)), input, k)
    {
      var window := new G[width];
      var count: nat := 0;
      ghost var start := counters;
      while count < |input|
        invariant Valid() && window.Length == width && count <= |input|
        invariant WindowEndsAt(window[..], input, count)
        invariant counters == FeedAll(start, input[..count])
      {
        ghost var before := window[..];
        for n := 0 to width - 1
          modifies window
          invariant forall j | 0 <= j < n :: window[j] == before[j + 1]
          invariant forall j | n <= j < width :: window[j] == before[j]
        {
          window[n] := window[n + 1];
        }
        window[width - 1] := input[count];
        ShiftedWindowEndsAt(before, window[..], input, count);
        count := count + 1;
        var buffer := window[..];
        FeedAt(width, count, buffer);
        FeedAllStep(start, buffer, input, count);
      }
      assert input[..count] == input;
      FeedAllOrders(start, input);
    }

    /** Empties every counter of the chain. */
    method Clear()
      requires Valid()
      modifies this
      ensures Valid()
      ensures forall k | 1 <= k <= width :: Order(k) == map[] && Total(Order(k)) == 0
    {
      counters := seq(width, _ => map[]);
    }
  }

  /**
   * The counters after one step of the chain at and below order `k`: each
   * order i + 1 <= k, once `count` reaches it, counts the trailing i + 1
   * symbols of `buffer` once more; the other orders are unchanged.
   */
  function StepAll<G(==)>(counters: seq<Counter<G>>, k: nat, count: nat, buffer: seq<G>): (r: seq<Counter<G>>)
    requires k <= |buffer|
    ensures |r| == |counters|
  {
    seq(|counters|, i requires 0 <= i < |counters| =>
      if i < k && i < count then Inc(counters[i], buffer[|buffer| - (i + 1)..]) else counters[i])
  }

  /** Stepping order `k` first and then the orders below it is stepping them all. */
  lemma StepAllDown<G>(before: seq<Counter<G>>, after: seq<Counter<G>>, k: nat, count: nat, buffer: seq<G>)
    requires 1 <= k <= |before| && k <= |buffer|
    requires after == if k <= count then before[k - 1 := Inc(before[k - 1], buffer[|buffer| - k..])] else before
    ensures StepAll(after, k - 1, count, buffer) == StepAll(before, k, count, buffer)
  {
  }

  /** The counters of `start`, each fed with `s` at its own order. */
  ghost function FeedAll<G>(start: seq<Counter<G>>, s: seq<G>): (r: seq<Counter<G>>)
    ensures |r| == |start|
  {
    seq(|start|, i requires 0 <= i < |start| => AddGrams(start[i], s, i + 1))
  }

  /**
   * One pass of the feeding loop over the whole chain: if the window ends at
   * `count`, stepping the counters of the first `count - 1` symbols gives
   * the counters of the first `count`.
   */
  lemma FeedAllStep<G>(start: seq<Counter<G>>, window: seq<G>, s: seq<G>, count: nat)
    requires |start| == |window| && 1 <= count <= |s|
    requires WindowEndsAt(window, s, count)
    ensures StepAll(FeedAll(start, s[..count - 1]), |window|, count, window) == FeedAll(start, s[..count])
  {
    var before := FeedAll(start, s[..count - 1]);
    var after := StepAll(before, |window|, count, window);
    var fed := FeedAll(start, s[..count]);
    forall i | 0 <= i < |start|
      ensures after[i] == fed[i]
    {
      var k := i + 1;
      assert before[i] == AddGrams(start[i], s[..count - 1], k);
      assert after[i] == if k <= count then Inc(before[i], window[|window| - k..]) else before[i];
      FeedAtExtends(start[i], before[i], after[i], window, s, count, k);
    }
  }

  /** Entry i of `FeedAll` is the order-(i + 1) counter fed with `s`. */
  lemma FeedAllOrders<G>(start: seq<Counter<G>>, s: seq<G>)
    ensures forall i | 0 <= i < |start| :: FeedAll(start, s)[i] == AddGrams(start[i], s, i + 1)
  {
  }

  /** The window holds, in its trailing positions, the last symbols of `s[..count]`. */
  ghost predicate WindowEndsAt<G>(window: seq<G>, s: seq<G>, count: nat)
  {
    forall j | 0 <= j < |window| && |window| - j <= count <= |s| :: window[j] == s[count - |window| + j]
  }

  /** Shifting the window left and appending `s[count]` makes it end at `count + 1`. */
  lemma ShiftedWindowEndsAt<G>(before: seq<G>, after: seq<G>, s: seq<G>, count: nat)
    requires WindowEndsAt(before, s, count) && count < |s|
    requires |after| == |before| >= 1 && after[|after| - 1] == s[count]
    requires forall j | 0 <= j < |after| - 1 :: after[j] == before[j + 1]
    ensures WindowEndsAt(after, s, count + 1)
  {
    forall j | 0 <= j < |after| && |after| - j <= count + 1
      ensures after[j] == s[count + 1 - |after| + j]
    {
      if j < |after| - 1 {
        assert before[j + 1] == s[count - |before| + (j + 1)];
      }
    }
  }

  /** The trailing k symbols of a window ending at `count` are the k-gram ending there. */
  lemma WindowSuffix<G>(window: seq<G>, s: seq<G>, count: nat, k: nat)
    requires WindowEndsAt(window, s, count) && k <= |window| && k <= count <= |s|
    ensures window[|window| - k..] == GramEndingAt(s, k, count)
  {
    var suffix, gram := window[|window| - k..], s[count - k..count];
    forall t | 0 <= t < k
      ensures suffix[t] == gram[t]
    {
      assert window[|window| - k + t] == s[count - |window| + (|window| - k + t)];
    }
  }

  /**
   * One pass of the feeding loop, for the order-k counter: if `before` holds
   * the counts of the first `count - 1` symbols and the window ends at
   * `count`, the step FeedAt takes gives the counts of the first `count`.
   */
  lemma FeedAtExtends<G>(start: Counter<G>, before: Counter<G>, after: Counter<G>,
                         window: seq<G>, s: seq<G>, count: nat, k: nat)
    requires 1 <= k <= |window| && 1 <= count <= |s|
    requires WindowEndsAt(window, s, count)
    requires before == AddGrams(start, s[..count - 1], k)
    requires after == if k <= count then Inc(before, window[|window| - k..]) else before
    ensures after == AddGrams(start, s[..count], k)
  {
    AddGramsStep(start, s, count, k);
    if k <= count {
      WindowSuffix(window, s, count, k);
    }
  }

  /** The characters of `text` that are not spaces, in their order. */
  function WithoutSpaces(text: string): (r: string)
    ensures ' ' !in r
    ensures |r| <= |text|
    ensures forall c | c != ' ' :: multiset(r)[c] == multiset(text)[c]
    ensures ' ' !in text ==> r == text
    ensures |text| == 1 ==> r == if text[0] == ' ' then [] else text
  {
    if text == [] then []
    else
      assert text == [text[0]] + text[1..];
      if text[0] == ' ' then WithoutSpaces(text[1..])
      else [text[0]] + WithoutSpaces(text[1..])
  }

  /**
   * Filtering keeps order: the filtered concatenation is the concatenation
   * of the filtered parts. With the one-character case in the contract of
   * `WithoutSpaces`, this determines the filter completely.
   */
  lemma {:induction false} WithoutSpacesConcat(a: string, b: string)
    ensures WithoutSpaces(a + b) == WithoutSpaces(a) + WithoutSpaces(b)
    decreases |a|
  {
    if a == [] {
      assert a + b == b;
    } else {
      assert (a + b)[0] == a[0];
      assert (a + b)[1..] == a[1..] + b;
      WithoutSpacesConcat(a[1..], b);
    }
  }

  /** Feeds the characters of `text`, leaving out spaces. */
  method Feed(ladder: Ladder<char>, text: string)
    requires ladder.Valid()
    modifies ladder
    ensures ladder.Valid()
    ensures forall k | 1 <= k <= ladder.width ::
      ladder.Order(k) == AddGrams(old(ladder.Order(k)), WithoutSpaces(text), k)
  {
    ladder.FeedFrom(WithoutSpaces(text));
  }

  /** A fresh ladder holding the n-grams of `text`, spaces left out. */
  method FromText(width: nat, text: string) returns (ladder: Ladder<char>)
    requires 1 <= width
    ensures fresh(ladder) && ladder.Valid() && ladder.width == width
    ensures forall k | 1 <= k <= width :: ladder.Order(k) == AddGrams(map[], WithoutSpaces(text), k)
  {
    ladder := new Ladder(width);
    Feed(ladder, text);
  }
}
