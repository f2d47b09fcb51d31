# chrF character n-gram F-score, modelled in Dafny

This project models the `chrf` crate: the chrF / chrF3 score, which rates a
candidate text against a reference text by comparing their character n-grams.
The crate has two parts, and so does the model.

- **The n-gram ladder** (`ngrams.dfy`, `ladder.dfy`). A chain of per-order
  counters, orders W down to 1, ends in an order-0 sentinel. `feed_from`
  slides one window of W symbols over its input. At each symbol it passes
  the symbol count and the window down the chain. The node of order k counts
  the trailing k symbols of the window once at least k symbols have been
  read. `clear` empties every counter. The text front end drops spaces.
- **The scorer** (`map_sums.dfy`, `scorer.dfy`). For each order it computes
  three integers: the candidate's total, the reference's total and the
  clipped matches. Clipped matches are the sum, over reference n-grams, of
  the smaller of the two counts. It combines them into an F-beta value and
  sums these down the chain. `chrf` divides the sum by the number of orders.
  `chrf3` fixes beta = 3 and order 6 and scales by 100.

Modules:

- `MapSums`: sums of the counts in a finite map, and the facts about them the scorer needs.
- `Ngrams`: what one order-k counter means. `AddGrams` is the counter after one feed.
  `Occurrences` counts a k-gram independently, scanning from the front.
  `IsGramOf` says that a key is a contiguous window of the input.
- `NgramLadder`: the class `Ladder`. Its field `counters` holds one map per order.
  It has the methods `FeedAt` (`_feed_impl`), `FeedFrom` (the in-place window loop)
  and `Clear`, plus the character front end.
- `ChrfScore`: the loops computing the per-order totals, the F-beta value over
  `real`, the recursion down the chain, `Chrf` and `Chrf3`.

The symbol type is a type parameter `G` with equality and a default value.
The window is an `array<G>` created with default values, as `G::default()`
fills it in the source. Counts are unbounded `nat`.

chrF3 of "abc" against "abc" is 50 * (1 + 1e-16), not 100. Orders 4 to 6
hold no n-grams on either side, and each of them scores 1e-16 instead of 1.
`ChrfScore.Chrf3Identical` states the score of any text against itself.

## Model

| member | source | states |
|---|---|---|
| `NgramLadder.Ladder.constructor` | src/lib.rs:46-54 | a default ladder of order W >= 1 has W empty counters, orders W down to 1; order 0 is rejected |
| `NgramLadder.Ladder.FeedAt` | src/lib.rs:73-81 | the node of order k, and through the chain every node below it, counts the trailing k symbols of the buffer exactly when count >= k; other orders, and the order-0 sentinel, are unchanged; the buffer is at least as long as the order |
| `NgramLadder.Ladder.FeedFrom` | src/lib.rs:128-140 | after shifting the window in place for every symbol, each order-k counter equals `AddGrams` of its old value and the input: a fresh window and count per call, so exactly the k-grams of this input are added |
| `NgramLadder.Ladder.Clear` | src/lib.rs:123-126 | every counter from order W down to 1 is empty and has total 0 |
| `NgramLadder.WithoutSpaces` | src/lib.rs:66-67 | the result has no space and keeps every other character with its multiplicity; a text without spaces is kept as it is; one character is dropped exactly when it is a space |
| `NgramLadder.WithoutSpacesConcat` | src/lib.rs:67 | filtering keeps order: the filtered concatenation of two texts is the concatenation of the filtered texts |
| `NgramLadder.Feed` | src/lib.rs:66-68 | feeding text is feeding its characters without spaces |
| `NgramLadder.FromText` | src/lib.rs:56-62 | a ladder built from text holds, at each order, the k-grams of the text without spaces, starting from empty counters |
| `Ngrams.Inc` | src/lib.rs:78 | incrementing an entry adds the key if absent, raises its count by one and leaves every other entry unchanged |
| `Ngrams.AddGramsCount` | src/lib.rs:75-78 | after a feed, the count of every key is its old count plus the number of times it occurs as a k-gram of the input |
| `Ngrams.OccurrencesPositive` | src/lib.rs:75-77 | a key occurs in the input exactly when it is the window ending at some position i >= k |
| `Ngrams.KeysAreWindows` | src/lib.rs:75-78 | a key is present after a feed if and only if it was present before or is a contiguous k-window of the input, so padding never enters a key |
| `Ngrams.AddGramsTotal` | src/lib.rs:128-139 | a feed of L symbols raises the order-k total by exactly max(0, L - k + 1) |
| `Ngrams.AddGramsWellFormed` | src/lib.rs:76-78 | feeding keeps every key of length k and every count at least 1 |
| `Ngrams.ShortInputUnchanged` | src/lib.rs:75 | an input shorter than k leaves the order-k counter exactly as it was |
| `Ngrams.FeedOnlyAdds` | src/lib.rs:78 | no count decreases; keys that are not windows of the input keep their counts; every window of the input is present |
| `Ngrams.FeedsAccumulate` | src/lib.rs:129-130 | two feeds add the occurrences of each input separately; no k-gram spans the two calls |
| `MapSums.TotalRemove` | src/lib.rs:86-88 | the sum of a count map does not depend on the order its entries are visited |
| `ChrfScore.OrderTotals` | src/lib.rs:85-97 | the two loops give the candidate total, the reference total and the clipped matches, and the matches are at most both totals |
| `ChrfScore.MatchingBounds` | src/lib.rs:90-97 | clipped matches never exceed the reference total or the candidate total |
| `ChrfScore.MatchingSelf` | src/lib.rs:90-97 | a counter matched against itself matches its whole total |
| `ChrfScore.MatchingSymmetric` | src/lib.rs:92-96 | the clipped matches are the same with candidate and reference swapped |
| `ChrfScore.RatioBounds` | src/lib.rs:99-109 | precision and recall lie in [0, 1] when the matches do not exceed the total, 1e-16 standing in for an empty total |
| `ChrfScore.FBetaBounds` | src/lib.rs:111-118 | with precision and recall in [0, 1] the floored F-beta quotient lies in [0, 1] |
| `ChrfScore.OrderScoreBounds` | src/lib.rs:99-118 | every per-order score lies in [0, 1] |
| `ChrfScore.OrderScoreSelf` | src/lib.rs:99-118 | an order scored against itself gives 1 when it has n-grams and 1e-16 when it is empty |
| `ChrfScore.CounterScoreSelf` | src/lib.rs:99-118 | a well-formed counter scored against itself gives 1 exactly when it holds an n-gram and 1e-16 when it is empty |
| `ChrfScore.ScoreSumBounds` | src/lib.rs:119-120 | the sum of k per-order scores lies in [0, k] |
| `ChrfScore.ScoreSumSelf` | src/lib.rs:111-120 | a ladder scored against itself sums to its number of non-empty orders plus 1e-16 for each empty one |
| `ChrfScore.ChrfImpl` | src/lib.rs:84-121 | walking down from order k, the number of orders visited is exactly k, since the sentinel returns (0, 0); the sum is the sum of the per-order scores and lies in [0, k] |
| `ChrfScore.Chrf` | src/lib.rs:164-170 | the score is the sum of the per-order scores divided by the ladder's order W, and lies in [0, 1] |
| `ChrfScore.Chrf3` | src/lib.rs:173-175 | chrF with beta 3 on order-6 character ladders, times 100, lies in [0, 100] |
| `ChrfScore.Chrf3Identical` | src/lib.rs:173-175 | a text scored against itself gives 100 when it has at least 6 non-space characters; otherwise 100 * (n + (6 - n) * 1e-16) / 6 for n characters, so two empty texts give 100 * 1e-16 |

## Left out

- Floating point: the scorer's ratios, the F-beta value, the mean and the scaling by 100 are exact `real` arithmetic. The 1e-16 substitutions and the 1e-16 floor under the denominator are kept. Rounding of `f64` is not modelled.
- `ChrfScore.Chrf3`: the two fixed scores of the crate's tests (37.7778 and 69.8328) depend on float rounding and are not stated.
- `NgramLadder.Ladder.FeedAt`: the `u32` counters are unbounded `nat`, so overflow on `+= 1` is not modelled. The same holds for the `u32` sums in the scorer.
- The hash map behind each counter, and the `ahash` feature that swaps it, have no effect on results. Counters are Dafny `map`s, and the scorer's loops visit their keys in an arbitrary order.
- The macro that generates the node types `N1` to `N12` and the const-generic buffer width become one class with a run-time order `width >= 1`. The compile-time check `width != 0` and the run-time `assert!(N >= width)` become preconditions.
- The sentinel `N0` holds no counter. Its `_feed_impl` and `_chrf_impl` are the order-0 base cases of `FeedAt` and `ChrfImpl`. Its own `feed_from` and `clear` do nothing and are not reachable from outside the crate, so they have no member.
- Text is a `seq<char>` already split into characters; Unicode decoding of `&str` is not modelled.
