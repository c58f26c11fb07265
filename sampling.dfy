/**
 Value-level specifications of what RandomEngine's list and dictionary operations
 compute: the rounds of the Fisher–Yates shuffle, and the inverse-cumulative-weight
 scan of WeightedRandom, with the properties each is promised to have.
 */
module Sampling {
  import opened Lcg

  /** The exceptions the engine throws (or that indexing a `List<T>` throws). */
  datatype Exception = ArgumentException | InvalidOperationException | ArgumentOutOfRangeException

  datatype Result<T> = Success(value: T) | Failure(error: Exception)

  /** Outcome of an operation that returns nothing: it finished, or it threw. */
  datatype Outcome = Pass | Fail(error: Exception)

  datatype Option<T> = None | Some(value: T)

  /** The tuple assignment `(list[i], list[j]) = (list[j], list[i])`. */
  function Swap<T>(s: seq<T>, i: nat, j: nat): (r: seq<T>)
    requires i < |s| && j < |s|
    ensures |r| == |s|
  {
    s[i := s[j]][j := s[i]]
  }

  /** Swapping exchanges the two positions and keeps every other one. */
  lemma SwapElements<T>(s: seq<T>, i: nat, j: nat)
    requires i < |s| && j < |s|
    ensures Swap(s, i, j)[i] == s[j] && Swap(s, i, j)[j] == s[i]
    ensures forall k :: 0 <= k < |s| && k != i && k != j ==> Swap(s, i, j)[k] == s[k]
  {
  }

  /** Swapping keeps the same elements. */
  lemma SwapPermutes<T>(s: seq<T>, i: nat, j: nat)
    requires i < |s| && j < |s|
    ensures multiset(Swap(s, i, j)) == multiset(s)
  {
  }

  // ---------------------------------------------------------------------------
  // Shuffle
  // ---------------------------------------------------------------------------

  /** The list, the generator state and the outcome after some rounds of Shuffle. */
  datatype ShuffleRun<T> = ShuffleRun(items: seq<T>, state: int, outcome: Outcome)

  /** One round of the loop, for index `i`, applied to the run so far: advance the
      state, draw `j = Next(0, i)` and swap positions `i` and `j`. A negative `j`
      (possible only from a negative state) makes the list indexer throw before
      anything is written, and once a round has thrown no further round runs. */
  function Round<T>(run: ShuffleRun<T>, i: nat): (r: ShuffleRun<T>)
    requires 0 < i < |run.items| <= Int32Max
    ensures |r.items| == |run.items|
  {
    if run.outcome.Fail? then run
    else
      var next := Advance(run.state);
      var j := Draw(next, 0, i);
      if j < 0 then ShuffleRun(run.items, next, Fail(ArgumentOutOfRangeException))
      else ShuffleRun(Swap(run.items, i, j), next, Pass)
  }

  /** A round keeps the elements of the list. */
  lemma RoundPermutes<T>(run: ShuffleRun<T>, i: nat)
    requires 0 < i < |run.items| <= Int32Max
    ensures multiset(Round(run, i).items) == multiset(run.items)
  {
    if run.outcome.Pass? {
      var j := Draw(Advance(run.state), 0, i);
      if j >= 0 {
        SwapPermutes(run.items, i, j);
      }
    }
  }

  /** The run once the Fisher–Yates loop over `s`, started from state `state`, has
      handled every index above `i` (from `|s| - 1` downwards): the loop's state when
      its variable holds `i`. */
  function Rounds<T>(s: seq<T>, state: int, i: nat): (r: ShuffleRun<T>)
    requires i < |s| <= Int32Max
    ensures |r.items| == |s|
    decreases |s| - i
  {
    if i == |s| - 1 then ShuffleRun(s, state, Pass)
    else Round(Rounds(s, state, i + 1), i + 1)
  }

  /** The whole of Shuffle on a list `s`: nothing happens below two elements,
      otherwise the loop runs down to index 1. */
  function Shuffled<T>(s: seq<T>, state: int): (r: ShuffleRun<T>)
    requires |s| <= Int32Max
    ensures |r.items| == |s|
    ensures |s| < 2 ==> r == ShuffleRun(s, state, Pass)
  {
    if |s| < 2 then ShuffleRun(s, state, Pass) else Rounds(s, state, 0)
  }

  /** Every round that completes consumes exactly one advance of the state. */
  lemma {:induction false} RoundsAdvance<T>(s: seq<T>, state: int, i: nat)
    requires i < |s| <= Int32Max
    ensures Rounds(s, state, i).outcome.Pass? ==>
              Rounds(s, state, i).state == AdvanceN(state, |s| - 1 - i)
    decreases |s| - i
  {
    if i < |s| - 1 {
      RoundsAdvance(s, state, i + 1);
    }
  }

  /** Every round either swaps two positions or throws before writing: the list
      always holds the elements it started with. */
  lemma {:induction false} RoundsPermute<T>(s: seq<T>, state: int, i: nat)
    requires i < |s| <= Int32Max
    ensures multiset(Rounds(s, state, i).items) == multiset(s)
    decreases |s| - i
  {
    if i < |s| - 1 {
      RoundsPermute(s, state, i + 1);
      RoundPermutes(Rounds(s, state, i + 1), i + 1);
    }
  }

  /** Shuffle, whether it completes or throws, leaves a permutation of its input. */
  lemma ShuffledPermutes<T>(s: seq<T>, state: int)
    requires |s| <= Int32Max
    ensures multiset(Shuffled(s, state).items) == multiset(s)
  {
    if |s| >= 2 {
      RoundsPermute(s, state, 0);
    }
  }

  /** Once a round has thrown, the later rounds change nothing. */
  lemma {:induction false} RoundsStopAtFailure<T>(s: seq<T>, state: int, i: nat, i': nat)
    requires i' <= i < |s| <= Int32Max
    requires Rounds(s, state, i).outcome.Fail?
    ensures Rounds(s, state, i') == Rounds(s, state, i)
    decreases i - i'
  {
    if i' < i {
      RoundsStopAtFailure(s, state, i, i' + 1);
    }
  }

  /** From a state that is non-negative, or becomes so at its first step (every seed
      from -609 up), every swap index is in `[0, i]`, so no round throws. */
  lemma {:induction false} RoundsPass<T>(s: seq<T>, state: int, i: nat)
    requires i < |s| <= Int32Max
    requires 0 <= state || 0 <= Advance(state)
    ensures Rounds(s, state, i).outcome == Pass
    ensures Rounds(s, state, i).state == AdvanceN(state, |s| - 1 - i)
    decreases |s| - i
  {
    if i < |s| - 1 {
      RoundsPass(s, state, i + 1);
      var prev := Rounds(s, state, i + 1);
      assert prev.state == AdvanceN(state, |s| - 2 - i);
      AdvanceNAfterFirst(state, |s| - 1 - i);
      var next := Advance(prev.state);
      assert next == AdvanceN(state, |s| - 1 - i);
      assert 0 <= Draw(next, 0, i + 1);
    }
  }

  /** Shuffle from a state that is non-negative, or becomes so at its first step,
      completes, returns a permutation of its input and consumes `|s| - 1` advances
      (none below two elements). */
  lemma ShuffledFromNonNegative<T>(s: seq<T>, state: int)
    requires |s| <= Int32Max
    requires 0 <= state || 0 <= Advance(state)
    ensures Shuffled(s, state).outcome == Pass
    ensures Shuffled(s, state).state == AdvanceN(state, if |s| < 2 then 0 else |s| - 1)
    ensures |Shuffled(s, state).items| == |s|
    ensures multiset(Shuffled(s, state).items) == multiset(s)
  {
    if |s| >= 2 {
      RoundsPass(s, state, 0);
    }
    ShuffledPermutes(s, state);
  }

  // ---------------------------------------------------------------------------
  // WeightedRandom
  // ---------------------------------------------------------------------------

  /** The sum of the weights enumerated before position `k`: what the validation loop
      has added to `totalWeight` when it reaches entry `k`. */
  function Before<K>(es: seq<(K, int)>, k: nat): (r: int)
    requires k <= |es|
    ensures NonNegative(es) ==> 0 <= r
  {
    if k == 0 then 0 else Before(es, k - 1) + es[k - 1].1
  }

  /** Sum of the weights of a dictionary's entries. */
  function Total<K>(es: seq<(K, int)>): (r: int)
    ensures NonNegative(es) ==> 0 <= r
  {
    Before(es, |es|)
  }

  predicate NonNegative<K>(es: seq<(K, int)>)
  {
    forall i :: 0 <= i < |es| ==> es[i].1 >= 0
  }

  predicate DistinctKeys<K(==)>(es: seq<(K, int)>)
  {
    forall i, j :: 0 <= i < j < |es| ==> es[i].0 != es[j].0
  }

  /** What a `Dictionary<K, int>` the model accepts looks like: distinct keys,
      `int` weights, and (when no weight is negative) a total that fits in an `int`. */
  predicate WellFormed<K(==)>(es: seq<(K, int)>)
  {
    && DistinctKeys(es)
    && (forall i :: 0 <= i < |es| ==> IsInt32(es[i].1))
    && (NonNegative(es) ==> Total(es) <= Int32Max)
  }

  /** With no negative weight, the running total only grows. */
  lemma {:induction false} BeforeMonotone<K>(es: seq<(K, int)>, j: nat, k: nat)
    requires NonNegative(es)
    requires j <= k <= |es|
    ensures Before(es, j) <= Before(es, k)
    decreases k - j
  {
    if j < k {
      BeforeMonotone(es, j, k - 1);
    }
  }

  /** With no negative weight, every running total lies between 0 and the total. */
  lemma BeforeBounds<K>(es: seq<(K, int)>, k: nat)
    requires NonNegative(es)
    requires k <= |es|
    ensures 0 <= Before(es, k) <= Total(es)
  {
    BeforeMonotone(es, 0, k);
    BeforeMonotone(es, k, |es|);
  }

  /** The selection scan from entry `j` on, with `v` left of the drawn value: skip
      entries whose weight is not positive, return the position of the first whose
      weight exceeds `v`, and take that weight off `v` otherwise. `None` is the
      fall-through past the last entry. */
  function SelectFrom<K>(es: seq<(K, int)>, j: nat, v: int): (r: Option<nat>)
    requires j <= |es|
    ensures r.Some? ==> j <= r.value < |es| && es[r.value].1 > 0
    decreases |es| - j
  {
    if j == |es| then None
    else if es[j].1 > 0 then
      if v < es[j].1 then Some(j) else SelectFrom(es, j + 1, v - es[j].1)
    else SelectFrom(es, j + 1, v)
  }

  /** The whole scan of WeightedRandom over the drawn value `v`. */
  function Select<K>(es: seq<(K, int)>, v: int): (r: Option<nat>)
    ensures r.Some? ==> r.value < |es| && es[r.value].1 > 0
  {
    SelectFrom(es, 0, v)
  }

  /** While some positive weight is left and `v` is below what is left, the scan
      returns. */
  lemma {:induction false} SelectFromFinds<K>(es: seq<(K, int)>, j: nat, v: int)
    requires NonNegative(es)
    requires j <= |es|
    requires 0 < Total(es) - Before(es, j) && v < Total(es) - Before(es, j)
    ensures SelectFrom(es, j, v).Some?
    decreases |es| - j
  {
    if j < |es| && !(es[j].1 > 0 && v < es[j].1) {
      if es[j].1 > 0 {
        SelectFromFinds(es, j + 1, v - es[j].1);
      } else {
        SelectFromFinds(es, j + 1, v);
      }
    }
  }

  /** Whenever the total is positive and `v` is below it the scan returns: the
      exception at the end of WeightedRandom is never reached. */
  lemma SelectFinds<K>(es: seq<(K, int)>, v: int)
    requires NonNegative(es)
    requires 0 < Total(es) && v < Total(es)
    ensures Select(es, v).Some?
  {
    SelectFromFinds(es, 0, v);
  }

  /** The scan from entry `j` with `v >= 0` returns position `k` exactly when `k` is
      not before `j`, has positive weight, and `v` lies in its cumulative interval
      counted from `j`. */
  lemma {:induction false} SelectFromInterval<K>(es: seq<(K, int)>, j: nat, v: int, k: nat)
    requires NonNegative(es)
    requires j <= |es|
    requires 0 <= v
    ensures SelectFrom(es, j, v) == Some(k) <==>
              j <= k < |es| && es[k].1 > 0 &&
              Before(es, k) - Before(es, j) <= v < Before(es, k) - Before(es, j) + es[k].1
    decreases |es| - j
  {
    if j < |es| {
      if j < k && k <= |es| {
        BeforeMonotone(es, j + 1, k);
      }
      if es[j].1 > 0 && v >= es[j].1 {
        SelectFromInterval(es, j + 1, v - es[j].1, k);
      } else if es[j].1 == 0 {
        SelectFromInterval(es, j + 1, v, k);
      }
    }
  }

  /** Inverse-cumulative-weight selection: for `v >= 0` the scan returns position `k`
      exactly when `k` has positive weight and `v` lies in its cumulative interval
      `[Before(k), Before(k) + weight)`. */
  lemma SelectInterval<K>(es: seq<(K, int)>, v: int, k: nat)
    requires NonNegative(es)
    requires 0 <= v
    ensures Select(es, v) == Some(k) <==>
              k < |es| && es[k].1 > 0 && Before(es, k) <= v < Before(es, k) + es[k].1
  {
    SelectFromInterval(es, 0, v, k);
  }

  /** A negative `v` (possible only from a negative state) makes the scan from `j`
      return the first entry from `j` on with positive weight. */
  lemma {:induction false} SelectNegative<K>(es: seq<(K, int)>, j: nat, v: int, k: nat)
    requires j <= |es|
    requires v < 0
    ensures SelectFrom(es, j, v) == Some(k) <==>
              j <= k < |es| && es[k].1 > 0 && forall t :: j <= t < k ==> es[t].1 <= 0
    decreases |es| - j
  {
    if j < |es| && es[j].1 <= 0 {
      SelectNegative(es, j + 1, v, k);
    }
  }
}
