/**
 The generator object: one `long` state cell, advanced in place by every sampling
 call, and the five operations built on that step.
 */
module Engine {
  import opened Lcg
  import opened Sampling

  class RandomEngine {
    /** The state cell; `a`, `c` and `m` are the constants A, C and M of Lcg. */
    var current: int

    /** The state always fits the range the arithmetic of the recurrence is safe in
        (see Lcg.AdvanceFitsInLong): an `int` seed, then a remainder of `m`. */
    ghost predicate Valid()
      reads this
    {
      -M < current < M
    }

    constructor (seed: int)
      requires IsInt32(seed)
      ensures Valid() && current == seed
    {
      current := seed;
    }

    /** A number between `min` and `max`, both inclusive: one step of the recurrence,
        then the new state's remainder by the width of the range. */
    method Next(min: int, max: int) returns (r: int)
      requires Valid()
      requires SpanOk(min, max)
      modifies this
      ensures Valid()
      ensures current == Advance(old(current)) && r == Draw(current, min, max)
      ensures 0 <= old(current) ==> 0 <= current < M
      ensures 0 <= current ==> min <= r <= max
    {
      AdvanceFitsInLong(current);
      current := TruncRem(A * current + C, M);
      r := Wrap32(min + TruncRem(current, max - min + 1));
    }

    /** An element of `list` at an index drawn by `Next(0, Count - 1)`; the list is
        left as it is. */
    method RandomElement<T>(list: array?<T>) returns (r: Result<T>)
      requires Valid()
      requires list != null ==> list.Length <= Int32Max
      modifies this
      ensures Valid()
      ensures list == null || list.Length == 0 ==>
                r == Failure(ArgumentException) && current == old(current)
      ensures list != null && list.Length > 0 ==>
                current == Advance(old(current)) &&
                var index := Draw(current, 0, list.Length - 1);
                r == if 0 <= index then Success(list[index]) else Failure(ArgumentOutOfRangeException)
      ensures list != null && list.Length > 0 && 0 <= current ==>
                0 <= Draw(current, 0, list.Length - 1) < list.Length &&
                r == Success(list[Draw(current, 0, list.Length - 1)])
    {
      if list == null || list.Length == 0 {
        return Failure(ArgumentException);
      }
      var index := Next(0, list.Length - 1);
      if index < 0 {
        return Failure(ArgumentOutOfRangeException);
      }
      r := Success(list[index]);
    }

    /** A number in `[min, max)`: one step of the recurrence, then the new state read
        as a fraction of `m` and scaled onto the interval. */
    method NextDouble(min: real, max: real) returns (r: real)
      requires Valid()
      modifies this
      ensures Valid()
      ensures current == Advance(old(current)) && r == Scale(current, min, max)
      ensures 0 <= old(current) ==> 0 <= current < M
      ensures 0 <= current && min <= max ==> min <= r <= max && (min < max ==> r < max)
    {
      AdvanceFitsInLong(current);
      current := TruncRem(A * current + C, M);
      var normalized := current as real / M as real;
      r := min + normalized * (max - min);
      if 0 <= current && min <= max {
        ScaleInRange(current, min, max);
      }
    }

    /** `Next(0, 1) == 1`: true exactly when the new state is positive and odd. */
    method NextBool() returns (b: bool)
      requires Valid()
      modifies this
      ensures Valid()
      ensures current == Advance(old(current)) && b == BoolOf(current)
      ensures b <==> 0 <= current && current % 2 == 1
    {
      var n := Next(0, 1);
      b := n == 1;
    }

    /** One round of Fisher–Yates on a non-null list: draw `j` by `Next(0, i)` and
        swap positions `i` and `j`. A negative `j` stops the shuffle before the swap. */
    method SwapRound<T>(list: array<T>, i: int) returns (ok: bool)
      requires Valid()
      requires 0 < i < list.Length <= Int32Max
      modifies this, list
      ensures Valid()
      ensures Round(ShuffleRun(old(list[..]), old(current), Pass), i) ==
                ShuffleRun(list[..], current, if ok then Pass else Fail(ArgumentOutOfRangeException))
      ensures 0 <= old(current) ==> ok && 0 <= current
    {
      ghost var before := list[..];
      var j := Next(0, i);
      if j < 0 {
        return false;
      }
      list[i], list[j] := list[j], list[i];
      SwapElements(before, i, j);
      assert list[..] == Swap(before, i, j);
      ok := true;
    }

    /** Fisher–Yates in place: for `i` from `Count - 1` down to 1, swap position `i`
        with position `Next(0, i)`. Lists below two elements are left alone. */
    method Shuffle<T>(list: array?<T>) returns (outcome: Outcome)
      requires Valid()
      requires list != null ==> list.Length <= Int32Max
      modifies this, list
      ensures Valid()
      ensures list == null ==> outcome == Pass && current == old(current)
      ensures list != null ==>
                Shuffled(old(list[..]), old(current)) == ShuffleRun(list[..], current, outcome)
      ensures list != null && list.Length < 2 ==>
                list[..] == old(list[..]) && current == old(current) && outcome == Pass
    {
      if list == null {
        return Pass;
      }
      ghost var s0, st0 := list[..], current;
      if list.Length < 2 {
        return Pass;
      }
      var i := list.Length - 1;
      while i > 0
        invariant 0 <= i < |s0| == list.Length
        invariant Valid()
        invariant Rounds(s0, st0, i) == ShuffleRun(list[..], current, Pass)
      {
        var ok := SwapRound(list, i);
        if !ok {
          RoundsStopAtFailure(s0, st0, i - 1, 0);
          return Fail(ArgumentOutOfRangeException);
        }
        i := i - 1;
      }
      outcome := Pass;
    }

    /** A key of `weightedItems` (entries in enumeration order) chosen with probability
        proportional to its weight: validate, total the weights, draw
        `Next(0, total - 1)` and scan the cumulative weights. */
    method WeightedRandom<K(==)>(weightedItems: Option<seq<(K, int)>>) returns (r: Result<K>)
      requires Valid()
      requires weightedItems.Some? ==> WellFormed(weightedItems.value)
      modifies this
      ensures Valid()
      ensures weightedItems.None? || weightedItems.value == [] ==>
                r == Failure(ArgumentException) && current == old(current)
      ensures weightedItems.Some? && !NonNegative(weightedItems.value) ==>
                r == Failure(ArgumentException) && current == old(current)
      ensures weightedItems.Some? && weightedItems.value != [] &&
              NonNegative(weightedItems.value) && Total(weightedItems.value) == 0 ==>
                r == Failure(InvalidOperationException) && current == old(current)
      ensures weightedItems.Some? && NonNegative(weightedItems.value) && Total(weightedItems.value) > 0 ==>
                var es := weightedItems.value;
                var k := Select(es, Draw(current, 0, Total(es) - 1));
                current == Advance(old(current)) && k.Some? && r == Success(es[k.value].0)
    {
      if weightedItems.None? || |weightedItems.value| == 0 {
        return Failure(ArgumentException);
      }
      var es := weightedItems.value;

      var totalWeight := 0;
      var i := 0;
      while i < |es|
        invariant 0 <= i <= |es|
        invariant forall t :: 0 <= t < i ==> es[t].1 >= 0
        invariant totalWeight == Before(es, i)
        invariant current == old(current)
      {
        if es[i].1 < 0 {
          return Failure(ArgumentException);
        }
        totalWeight := totalWeight + es[i].1;
        i := i + 1;
      }
      BeforeBounds(es, |es|);

      if totalWeight == 0 {
        return Failure(InvalidOperationException);
      }

      var randomValue := Next(0, totalWeight - 1);
      ghost var drawn := randomValue;
      SelectFinds(es, drawn);

      var j := 0;
      while j < |es|
        invariant 0 <= j <= |es|
        invariant Select(es, drawn) == SelectFrom(es, j, randomValue)
      {
        if es[j].1 > 0 {
          if randomValue < es[j].1 {
            return Success(es[j].0);
          }
          randomValue := randomValue - es[j].1;
        }
        j := j + 1;
      }
      assert false;
      r := Failure(InvalidOperationException);
    }
  }
}
