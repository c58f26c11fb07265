/**
 The arithmetic of the linear congruential generator that RandomEngine is built on:
 the fixed constants, C#'s truncating remainder on `long`, the `(int)` cast of a
 `long`, the one-step recurrence and the mapping of a state into `[min, max]`.
 */
module Lcg {

  /** Multiplier, increment and modulus of the recurrence. */
  const A: int := 1664525
  const C: int := 1013904223
  const M: int := 0x1_0000_0000

  const Int32Min: int := -0x8000_0000
  const Int32Max: int := 0x7FFF_FFFF
  const Int64Min: int := -0x8000_0000_0000_0000
  const Int64Max: int := 0x7FFF_FFFF_FFFF_FFFF

  predicate IsInt32(x: int) { Int32Min <= x <= Int32Max }

  /** C#'s `/` on integers: the quotient is truncated toward zero (Dafny's own `/`
      is Euclidean). */
  function TruncQuot(x: int, d: int): int
    requires d > 0
  {
    if x >= 0 then x / d else -((-x) / d)
  }

  /** C#'s `%` on integers: the remainder left by TruncQuot, which takes the sign of
      the dividend. */
  function TruncRem(x: int, d: int): (r: int)
    requires d > 0
    ensures -d < r < d
    ensures 0 <= x ==> 0 <= r
    ensures x <= 0 ==> r <= 0
  {
    if x >= 0 then x % d else -((-x) % d)
  }

  /** TruncQuot and TruncRem divide exactly as C# does: `x == (x / d) * d + x % d`,
      with a remainder smaller than the divisor and of the dividend's sign. */
  lemma TruncDivision(x: int, d: int)
    requires d > 0
    ensures x == TruncQuot(x, d) * d + TruncRem(x, d)
    ensures x >= 0 ==> TruncQuot(x, d) >= 0
    ensures x <= 0 ==> TruncQuot(x, d) <= 0
  {
    if x < 0 {
      var q := (-x) / d;
      assert -x == q * d + (-x) % d;
      assert TruncQuot(x, d) * d == -(q * d);
    }
  }

  /** On a non-negative dividend the truncating and the Euclidean remainder agree. */
  lemma TruncRemOfNonNegative(x: int, d: int)
    requires d > 0 && 0 <= x
    ensures TruncRem(x, d) == x % d
  {
  }

  /** The `(int)` cast of a `long`: keeps the low 32 bits, read as two's complement. */
  function Wrap32(x: int): (r: int)
    ensures IsInt32(r)
    ensures (x - r) % 0x1_0000_0000 == 0
    ensures IsInt32(x) ==> r == x
  {
    (x - Int32Min) % 0x1_0000_0000 + Int32Min
  }

  /** One step of the recurrence `current = (a * current + c) % m`. */
  function Advance(x: int): (r: int)
    ensures -M < r < M
    ensures 0 <= x ==> 0 <= r
  {
    TruncRem(A * x + C, M)
  }

  /** The product and sum of the recurrence fit in a `long` for every state the
      engine can hold, so computing it in 64 bits loses nothing. */
  lemma AdvanceFitsInLong(x: int)
    requires -M < x < M
    ensures Int64Min <= A * x && A * x <= Int64Max
    ensures Int64Min <= A * x + C <= Int64Max
  {
  }

  /** Seeds from -609 upwards give a non-negative first state; from -610 downwards
      the first state is negative. */
  lemma FirstStateSign(seed: int)
    requires IsInt32(seed)
    ensures -609 <= seed ==> 0 <= Advance(seed)
    ensures seed <= -610 ==> Advance(seed) <= 0
  {
    if seed <= -610 {
      assert A * seed + C <= A * (-610) + C;
    } else {
      assert A * seed + C >= A * (-609) + C;
    }
  }

  /** `n` steps of the recurrence. */
  function AdvanceN(x: int, n: nat): (r: int)
    ensures -M < x < M ==> -M < r < M
    ensures 0 <= x ==> 0 <= r
  {
    if n == 0 then x else Advance(AdvanceN(x, n - 1))
  }

  /** Once the first step gives a non-negative state, every later state is
      non-negative too. */
  lemma {:induction false} AdvanceNAfterFirst(x: int, n: nat)
    requires 0 <= Advance(x) && 1 <= n
    ensures 0 <= AdvanceN(x, n)
  {
    if n > 1 {
      AdvanceNAfterFirst(x, n - 1);
    }
  }

  /** Taking the remainder by the even `m` keeps the parity of a non-negative number. */
  lemma RemKeepsParity(y: int)
    requires 0 <= y
    ensures (y % M) % 2 == y % 2
  {
    var q := y / M;
    assert y == 2 * (q * 0x8000_0000) + y % M;
  }

  /** Negating a number keeps its parity (Dafny's `%` is Euclidean). */
  lemma NegKeepsParity(n: int)
    ensures (-n) % 2 == n % 2
  {
    var h := n / 2;
    if n % 2 == 0 {
      assert -n == 2 * (-h);
    } else {
      assert -n == 2 * (-h - 1) + 1;
    }
  }

  /** C#'s `%` by the even `m` keeps the parity of the dividend, whatever its sign. */
  lemma TruncRemKeepsParity(y: int)
    ensures TruncRem(y, M) % 2 == y % 2
  {
    if y >= 0 {
      RemKeepsParity(y);
    } else {
      var z := (-y) % M;
      assert TruncRem(y, M) == -z;
      RemKeepsParity(-y);
      NegKeepsParity(z);
      NegKeepsParity(y);
    }
  }

  /** Because `a` and `c` are odd and `m` is even, every step flips the parity of the
      state, negative or not. */
  lemma AdvanceFlipsParity(x: int)
    requires -M < x < M
    ensures Advance(x) % 2 != x % 2
  {
    var y := A * x + C;
    assert y % 2 != x % 2 by {
      assert y == 2 * (832262 * x + 506952111) + (x + 1);
    }
    TruncRemKeepsParity(y);
  }

  /** Whether `max - min + 1` is a positive `int` in C#: the callers of Next never
      ask for an empty range and the width does not overflow. */
  predicate SpanOk(min: int, max: int)
  {
    IsInt32(min) && IsInt32(max) && min <= max && max - min + 1 <= Int32Max
  }

  /** The value Next returns once the state has been advanced to `s`:
      `(int)(min + (current % (max - min + 1)))`. */
  function Draw(s: int, min: int, max: int): (r: int)
    requires SpanOk(min, max)
    ensures 0 <= s ==> min <= r <= max
    ensures s <= 0 && Int32Min <= min - (max - min) ==> min - (max - min) <= r <= min
  {
    Wrap32(min + TruncRem(s, max - min + 1))
  }

  /** From a non-negative state Next is `min` plus the Euclidean remainder of the
      state by the width of the range. */
  lemma DrawIsRemainder(s: int, min: int, max: int)
    requires SpanOk(min, max) && 0 <= s
    ensures Draw(s, min, max) - min == s % (max - min + 1)
  {
  }

  /** The boolean NextBool derives from a new state `s`: `Next(0, 1) == 1`. It is
      true exactly when the state is positive and odd. */
  function BoolOf(s: int): (b: bool)
    ensures b <==> 0 <= s && s % 2 == 1
  {
    Draw(s, 0, 1) == 1
  }

  /** From a non-negative state, consecutive NextBool results alternate. */
  lemma BoolsAlternate(x: int)
    requires 0 <= x
    ensures BoolOf(Advance(Advance(x))) == !BoolOf(Advance(x))
  {
    AdvanceFlipsParity(Advance(x));
  }

  /** The sequence from seed 42: three states and the three values of `Next(1, 6)`. */
  lemma SeedFortyTwo()
    ensures Advance(42) == 1083814273 && Draw(1083814273, 1, 6) == 2
    ensures Advance(1083814273) == 378494188 && Draw(378494188, 1, 6) == 5
    ensures Advance(378494188) == 2479403867 && Draw(2479403867, 1, 6) == 6
  {
  }

  /** From seed -1000 the first state is negative and `Next(1, 6)` returns 0, below
      `min`. */
  lemma SeedMinusThousand()
    ensures Advance(-1000) == -650620777 && Draw(-650620777, 1, 6) == 0
  {
  }

  /** The step the doc comment of Next and the `[0, m)` reading of the state call
      for: `(a * current + c) mod m` with the remainder taken non-negative. */
  function IntendedAdvance(x: int): (r: int)
    ensures 0 <= r < M
  {
    (A * x + C) % M
  }

  /** With the non-negative remainder, Next stays in `[min, max]` from every state,
      and the step agrees with C#'s `%` wherever the state is already non-negative. */
  lemma IntendedNextInRange(x: int, min: int, max: int)
    requires SpanOk(min, max)
    ensures min <= Draw(IntendedAdvance(x), min, max) <= max
    ensures 0 <= x ==> IntendedAdvance(x) == Advance(x)
  {
    if 0 <= x {
      TruncRemOfNonNegative(A * x + C, M);
    }
  }

  /** `(double)current / m` computed exactly. */
  function Normalized(s: int): (r: real)
    ensures 0 <= s < M ==> 0.0 <= r < 1.0
    ensures s < 0 ==> r < 0.0
  {
    s as real / M as real
  }

  /** What NextDouble returns once the state has been advanced to `s`:
      `min + normalized * (max - min)`, computed exactly. */
  function Scale(s: int, min: real, max: real): (r: real)
    ensures r == min <==> s == 0 || min == max
  {
    min + Normalized(s) * (max - min)
  }

  /** From a state in `[0, m)` NextDouble lands in `[min, max)`, or on `min` itself
      when the interval is a single point. */
  lemma ScaleInRange(s: int, min: real, max: real)
    requires 0 <= s < M && min <= max
    ensures min <= Scale(s, min, max) <= max
    ensures min < max ==> Scale(s, min, max) < max
  {
    var t, w := Normalized(s), max - min;
    assert Scale(s, min, max) == min + t * w;
    assert 0.0 <= t * w;
    assert w - t * w == (1.0 - t) * w;
    assert 0.0 <= (1.0 - t) * w;
    if min < max {
      assert 0.0 < (1.0 - t) * w;
    }
  }
}
