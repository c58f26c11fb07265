# RandomEngine in Dafny

A model of `RandomEngine`, a small seeded pseudo-random generator written in C#.
The generator owns one 64-bit state cell `current`, set from an `int` seed. Each draw
advances that state once by the linear congruential recurrence
`current = (a * current + c) % m`, with `a = 1664525`, `c = 1013904223` and
`m = 2^32`. On a list of two or more elements, `Shuffle` makes `Count - 1` draws
unless a round throws; on a null or shorter list it makes none. A call that throws
during argument validation makes none. The operations built on that step are:

- `Next(min, max)`: an `int`, in `[min, max]` from a non-negative state;
- `RandomElement(list)`: an element of a list;
- `NextDouble(min, max)`: a `double`;
- `NextBool()`: a boolean;
- `Shuffle(list)`: an in-place Fisher–Yates shuffle;
- `WeightedRandom(weights)`: a key picked with probability proportional to its weight.

The project has three modules:

- `Lcg` (`lcg.dfy`) holds the arithmetic. It defines the constants and C#'s
  truncating `%` on `long` (`TruncRem`). It defines the `(int)` cast of a `long`
  (`Wrap32`), one step of the recurrence (`Advance`) and `n` steps (`AdvanceN`).
  It also defines the value `Next` derives from a new state (`Draw`), the boolean
  `NextBool` derives (`BoolOf`) and the scaling `NextDouble` performs (`Scale`).
- `Sampling` (`sampling.dfy`) holds value-level specifications of the two loops:
  - the rounds of the shuffle (`Round`, `Rounds`, `Shuffled`);
  - the running weight totals (`Before`, `Total`);
  - the selection scan (`SelectFrom`, `Select`);
  - the properties of each, such as permutation, the advance count, interval
    selection and the unreachable fall-through.
- `Engine` (`engine.dfy`) holds `class RandomEngine`. Its field `current` is updated
  in place by methods that carry the same branches and loops as the C# methods.
  Each method is proved against the functions of `Lcg` and `Sampling`.

Exceptions are values. A method that throws in C# returns `Failure(e)` (or
`Fail(e)` for `Shuffle`, which returns nothing). The contract states whether the
state moved before the throw. A `List<T>` is an `array?<T>`, where `null` is the
null list. A `Dictionary<K, int>` is an `Option<seq<(K, int)>>` of its entries in
enumeration order, where `None` is the null dictionary.

### Negative seeds

This behaviour is recorded under "## Findings". C#'s `%` takes the sign of the
dividend. A seed of `-610` or below therefore gives a negative first state (`Lcg.FirstStateSign`). Each later step keeps the
dividend's sign, so the state can stay negative. The model follows the code
here. It does not follow the reading that the state always lies in `[0, m)`
after the first step. From a negative state:

- `Next(1, 6)` can return a value below `min`. From seed `-1000` it returns `0`
  (`Lcg.SeedMinusThousand`).
- `RandomElement` and `Shuffle` can index a list at a negative position, which
  throws `ArgumentOutOfRangeException`.
- `WeightedRandom` returns the first key with positive weight
  (`Sampling.SelectNegative`).

The range guarantees of the single draws are therefore proved for a non-negative
new state, and the permutation and advance-count guarantees of `Shuffle` for a
state that is non-negative or becomes so at its first step. Every seed from `-609`
upwards gives a non-negative state after its first step (`Lcg.FirstStateSign`),
and every later state stays non-negative (`Lcg.AdvanceNAfterFirst`).

## Model

| member | source | states |
|---|---|---|
| Lcg.TruncRem | RandomEngineCSharp/RandomEngine.cs:25-26 | C#'s `%`: the remainder is smaller in magnitude than the divisor and never has the opposite sign to the dividend |
| Lcg.TruncDivision | RandomEngineCSharp/RandomEngine.cs:25-26 | truncated quotient and remainder recombine to the dividend (`x == (x / d) * d + x % d`), with the quotient of the dividend's sign |
| Lcg.TruncRemOfNonNegative | RandomEngineCSharp/RandomEngine.cs:25-26 | on a non-negative dividend C#'s `%` is the mathematical remainder |
| Lcg.Wrap32 | RandomEngineCSharp/RandomEngine.cs:26 | the `(int)` cast yields an `int` congruent to its argument modulo 2^32, and is the identity on values that already fit |
| Lcg.Advance | RandomEngineCSharp/RandomEngine.cs:25 | one step of the recurrence lands strictly inside `(-m, m)` and keeps a non-negative state non-negative |
| Lcg.AdvanceFitsInLong | RandomEngineCSharp/RandomEngine.cs:7-10 | for every state in `(-m, m)` the product `a * current` and the sum with `c` fit in a `long`, so the 64-bit computation is exact |
| Lcg.FirstStateSign | RandomEngineCSharp/RandomEngine.cs:12-25 | seeds from -609 upwards give a non-negative first state; seeds from -610 downwards give a first state that is not positive |
| Lcg.AdvanceN | RandomEngineCSharp/RandomEngine.cs:25 | any number of steps keeps the state inside `(-m, m)` and keeps a non-negative state non-negative |
| Lcg.AdvanceNAfterFirst | RandomEngineCSharp/RandomEngine.cs:25 | once the first step gives a non-negative state, every state after one or more steps is non-negative |
| Lcg.TruncRemKeepsParity | RandomEngineCSharp/RandomEngine.cs:25 | C#'s `%` by the even `m` keeps the dividend's parity, whatever its sign |
| Lcg.AdvanceFlipsParity | RandomEngineCSharp/RandomEngine.cs:8-10 | since `a` and `c` are odd and `m` is even, each step flips the state's parity, for every state in `(-m, m)` |
| Lcg.Draw | RandomEngineCSharp/RandomEngine.cs:26 | from a non-negative state the drawn value lies in `[min, max]`; from a non-positive state, when `min - (max - min)` is at least `int.MinValue`, it lies in `[min - (max - min), min]`; without that side condition the `(int)` cast can wrap |
| Lcg.DrawIsRemainder | RandomEngineCSharp/RandomEngine.cs:26 | from a non-negative state the drawn value is `min` plus the state's remainder by the width `max - min + 1` |
| Lcg.BoolOf | RandomEngineCSharp/RandomEngine.cs:56 | `Next(0, 1) == 1` holds exactly when the new state is non-negative and odd |
| Lcg.BoolsAlternate | RandomEngineCSharp/RandomEngine.cs:54-57 | from a non-negative state, two consecutive `NextBool` results differ |
| Lcg.SeedFortyTwo | RandomEngineCSharp/RandomEngine.cs:23-27 | from seed 42 the states are 1083814273, 378494188, 2479403867 and `Next(1, 6)` returns 2, 5, 6 |
| Lcg.SeedMinusThousand | RandomEngineCSharp/RandomEngine.cs:23-27 | from seed -1000 the first state is -650620777 and `Next(1, 6)` returns 0, outside `[1, 6]` |
| Lcg.Normalized | RandomEngineCSharp/RandomEngine.cs:47 | a state in `[0, m)` normalises into `[0, 1)`; a negative state normalises below 0 |
| Lcg.Scale | RandomEngineCSharp/RandomEngine.cs:48 | `min + normalized * (max - min)` over exact reals equals `min` exactly when the state is 0 or the interval is a single point |
| Lcg.IntendedAdvance | RandomEngineCSharp/RandomEngine.cs:25 | the step with a non-negative remainder, as the `[0, m)` reading of the state calls for, always lies in `[0, m)` |
| Lcg.IntendedNextInRange | RandomEngineCSharp/RandomEngine.cs:17-27 | with the non-negative remainder, `Next` lands in `[min, max]` from every state, and the step agrees with C#'s `%` on non-negative states |
| Lcg.ScaleInRange | RandomEngineCSharp/RandomEngine.cs:41-49 | from a state in `[0, m)` and `min <= max`, `NextDouble` lies in `[min, max]`, and below `max` when `min < max` |
| Sampling.Swap | RandomEngineCSharp/RandomEngine.cs:71 | the tuple swap keeps the list's length |
| Sampling.SwapElements | RandomEngineCSharp/RandomEngine.cs:71 | the swap exchanges positions `i` and `j` and leaves every other position as it was |
| Sampling.SwapPermutes | RandomEngineCSharp/RandomEngine.cs:71 | the swap keeps the same elements, as a multiset |
| Sampling.Round | RandomEngineCSharp/RandomEngine.cs:70-71 | one loop round keeps the list's length |
| Sampling.RoundPermutes | RandomEngineCSharp/RandomEngine.cs:70-71 | one loop round, whether it swaps or throws, keeps the same elements |
| Sampling.Rounds | RandomEngineCSharp/RandomEngine.cs:68-72 | the loop's run at any index keeps the list's length |
| Sampling.RoundsAdvance | RandomEngineCSharp/RandomEngine.cs:68-72 | when the rounds down to index `i` complete, they have advanced the state exactly `Count - 1 - i` times |
| Sampling.RoundsPermute | RandomEngineCSharp/RandomEngine.cs:68-72 | the rounds down to any index keep the same elements |
| Sampling.RoundsStopAtFailure | RandomEngineCSharp/RandomEngine.cs:68-72 | once a round has thrown, no later round changes the list, the state or the outcome |
| Sampling.RoundsPass | RandomEngineCSharp/RandomEngine.cs:68-72 | from a state that is non-negative or becomes so at its first step, every `j` is in `[0, i]`, so no round throws and the rounds down to `i` advance the state `Count - 1 - i` times |
| Sampling.Shuffled | RandomEngineCSharp/RandomEngine.cs:64-73 | the whole of `Shuffle` on a list: it keeps the length; below two elements the list, the state and the outcome are unchanged; otherwise it is the loop run down to index 0 (`Rounds(s, state, 0)`) |
| Sampling.ShuffledPermutes | RandomEngineCSharp/RandomEngine.cs:64-73 | `Shuffle`, whether it completes or throws, leaves a permutation of its input |
| Sampling.ShuffledFromNonNegative | RandomEngineCSharp/RandomEngine.cs:64-73 | from a state that is non-negative or becomes so at its first step (every seed from -609 up), `Shuffle` completes, returns a permutation, and advances the state `Count - 1` times (none below two elements) |
| Sampling.Before | RandomEngineCSharp/RandomEngine.cs:86-91 | the running `totalWeight` before entry `k` is non-negative when no weight is negative |
| Sampling.Total | RandomEngineCSharp/RandomEngine.cs:93 | the `totalWeight` tested against 0 is non-negative when no weight is negative |
| Sampling.BeforeMonotone | RandomEngineCSharp/RandomEngine.cs:86-91 | with no negative weight, the running `totalWeight` never decreases |
| Sampling.BeforeBounds | RandomEngineCSharp/RandomEngine.cs:86-91 | with no negative weight, every running total lies between 0 and the final `totalWeight` |
| Sampling.SelectFrom | RandomEngineCSharp/RandomEngine.cs:100-108 | the scan returns only a position at or after where it started, inside the dictionary, whose weight is positive, so a zero-weight key is never returned |
| Sampling.Select | RandomEngineCSharp/RandomEngine.cs:100-110 | the whole scan over the drawn value returns only a position inside the dictionary whose weight is positive; `None` is the throw at line 110 |
| Sampling.SelectFromFinds | RandomEngineCSharp/RandomEngine.cs:100-110 | while positive weight remains and the value left is below it, the scan returns |
| Sampling.SelectFinds | RandomEngineCSharp/RandomEngine.cs:93-110 | for a positive total and a drawn value below it the scan returns, so the final `InvalidOperationException` is unreachable |
| Sampling.SelectFromInterval | RandomEngineCSharp/RandomEngine.cs:100-108 | from position `j` with a value `v >= 0`, the scan returns `k` exactly when `k >= j`, `k` has positive weight, and `v` lies in `k`'s cumulative interval counted from `j` |
| Sampling.SelectInterval | RandomEngineCSharp/RandomEngine.cs:96-108 | for a drawn value `v >= 0` the key at `k` is returned exactly when its weight is positive and `v` lies in `[Before(k), Before(k) + weight)` |
| Sampling.SelectNegative | RandomEngineCSharp/RandomEngine.cs:100-108 | for a negative drawn value the scan returns exactly the first position with positive weight |
| Engine.RandomEngine.constructor | RandomEngineCSharp/RandomEngine.cs:12-15 | the state starts as the seed |
| Engine.RandomEngine.Next | RandomEngineCSharp/RandomEngine.cs:23-27 | the state advances once and the result is `Draw` of the new state; from a non-negative state the new state is in `[0, m)`, and whenever the new state is non-negative the result is in `[min, max]` |
| Engine.RandomEngine.RandomElement | RandomEngineCSharp/RandomEngine.cs:32-39 | a null or empty list throws `ArgumentException` with the state untouched; otherwise the state advances once and the element at the drawn index is returned, or `ArgumentOutOfRangeException` for a negative index; whenever the new state is non-negative the index is in range |
| Engine.RandomEngine.NextDouble | RandomEngineCSharp/RandomEngine.cs:44-49 | the state advances once and the result is the new state scaled onto `[min, max]`; from a non-negative state the new state is in `[0, m)`; whenever the new state is non-negative the result lies in `[min, max]`, and below `max` when `min < max` |
| Engine.RandomEngine.NextBool | RandomEngineCSharp/RandomEngine.cs:54-57 | the state advances once and the result is true exactly when the new state is non-negative and odd |
| Engine.RandomEngine.SwapRound | RandomEngineCSharp/RandomEngine.cs:70-71 | one loop body in place: the list and state afterwards are `Round` of the list and state before; from a non-negative state it never throws |
| Engine.RandomEngine.Shuffle | RandomEngineCSharp/RandomEngine.cs:64-73 | a null list is ignored; otherwise the list, the state and the outcome afterwards are those of `Shuffled` applied to the list and state before; a list below two elements and the state are left unchanged |
| Engine.RandomEngine.WeightedRandom | RandomEngineCSharp/RandomEngine.cs:79-111 | a null or empty dictionary or a negative weight throws `ArgumentException`, and a zero total throws `InvalidOperationException`, all before the state moves; otherwise the state advances once and the returned key is the one `Select` picks for `Next(0, total - 1)` |

## Findings

| source | as written | input that shows it | evidently intended | confidence | as-written member | corrected member |
|---|---|---|---|---|---|---|
| RandomEngineCSharp/RandomEngine.cs:17-27 | `current = (a * current + c) % m` uses C#'s truncating `%`, so a negative seed gives a negative state, and `Next` then returns `min + (negative remainder)`, below `min` | seed `-1000`: the state becomes `-650620777` and `Next(1, 6)` returns `0` | `Next` returns a value in `[min, max]`, both inclusive, as its doc comment says, with the state in `[0, m)` after each step | not executed | Lcg.SeedMinusThousand | Lcg.IntendedNextInRange |

The engine keeps the arithmetic as written, so its negative-state paths (`Lcg.Draw`'s
non-positive clause, `ArgumentOutOfRangeException` in `RandomElement` and `Shuffle`)
stay modelled. `Engine.RandomEngine.Next` promises `[min, max]` whenever the state is
non-negative, which the intended step guarantees from every state.

## Left out

- Engine.RandomEngine.Next: requires `min <= max` and a width `max - min + 1` that fits in an `int`. Outside that range, C# computes the width with `int` wrap-around and divides by it, which can throw `DivideByZeroException` after the state has advanced. Every internal caller stays inside the range.
- Engine.RandomEngine.NextDouble: uses exact `real` arithmetic. The IEEE 754 rounding of `(double)current / m` and of `min + normalized * (max - min)` is not modelled, so its bounds hold for the exact values. `NaN` and infinite arguments are not modelled either.
- Lcg.ScaleInRange: stated for exact `real` arithmetic, for the same reason as `NextDouble`.
- Engine.RandomEngine.WeightedRandom: requires distinct keys and, when no weight is negative, a total weight that fits in an `int`. C#'s `totalWeight += weight` wraps around on overflow, and that case is not modelled.
- `Math.Pow(2, 32)` is modelled as the exact constant 2^32, which the `double` computation produces exactly.
- The dictionary's hashing, and how its enumeration order is determined, are not modelled. Entries are given as a sequence in enumeration order, and both loops of `WeightedRandom` enumerate it in that order.
- `List<T>` is a fixed-length array. None of the modelled operations changes a list's length.
- Exception messages are not modelled, only which exception is thrown.
- Statistical quality (uniformity, proportional weighting) is not modelled. It depends on the recurrence's distribution, which is out of reach of a functional model.
- Concurrent use of one instance is not modelled. The class is not thread-safe, and every method is treated as atomic.
