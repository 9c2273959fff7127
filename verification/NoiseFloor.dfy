/** The noise-floor estimate: a fixed-point moving average over idle-channel levels
    in tenths of a dB (radio/rssi_tagging.rs). */
module NoiseFloor {
  import opened Arithmetic

  /** The default coefficient, about a fifth. */
  const NUM: nat := 205
  const DEN: nat := 1024

  /** Integer division that truncates toward zero. */
  function TruncDiv(a: int, b: int): int
    requires b != 0
  {
    if b > 0 then (if a >= 0 then a / b else -((-a) / b))
    else if a >= 0 then -(a / (-b)) else (-a) / (-b)
  }

  function Step(floor: int, level: int, num: int, den: int): int
    requires den != 0
  {
    floor + TruncDiv((level - floor) * num, den)
  }

  function Abs(x: int): nat { if x >= 0 then x else -x }

  function Min(a: int, b: int): int { if a <= b then a else b }
  function Max(a: int, b: int): int { if a <= b then b else a }

  lemma Fraction(d: nat, num: nat, den: nat)
    requires 0 < den && num <= den
    ensures 0 <= d * num / den <= d
  {
    assert d * num <= d * den;
    assert d * den / den == d;
    DivMonotone(d * num, d * den, den);
  }

  /** Moving upward and downward are mirror images. */
  lemma StepByError(floor: int, level: int, num: nat, den: nat)
    requires den > 0
    ensures level >= floor ==> Step(floor, level, num, den) == floor + Abs(level - floor) * num / den
    ensures level < floor ==> Step(floor, level, num, den) == floor - Abs(level - floor) * num / den
  {
    if level < floor {
      assert (level - floor) * num == -(Abs(level - floor) * num);
    }
  }

  /** The coefficient is a fraction from 0 to 1, whatever the signs of its parts. */
  predicate UpToOne(num: int, den: int) { (0 < den && 0 <= num <= den) || (den < 0 && den <= num <= 0) }

  /** Both parts may change their sign. */
  lemma SignsCancel(floor: int, level: int, num: int, den: int)
    requires den != 0
    ensures Step(floor, level, num, den) == Step(floor, level, -num, -den)
  {
    assert (level - floor) * -num == -((level - floor) * num);
  }

  lemma PositiveStaysBetween(floor: int, level: int, num: nat, den: nat)
    requires 0 < den && num <= den
    ensures Min(floor, level) <= Step(floor, level, num, den) <= Max(floor, level)
  {
    StepByError(floor, level, num, den);
    Fraction(Abs(level - floor), num, den);
  }

  /** Any coefficient of at most one keeps the floor between where it was and the
      level it moves toward. */
  lemma StepStaysBetween(floor: int, level: int, num: int, den: int)
    requires UpToOne(num, den)
    ensures Min(floor, level) <= Step(floor, level, num, den) <= Max(floor, level)
  {
    if den > 0 {
      PositiveStaysBetween(floor, level, num, den);
    } else {
      SignsCancel(floor, level, num, den);
      PositiveStaysBetween(floor, level, -num, -den);
    }
  }

  ghost predicate AlwaysBetween(num: int, den: int)
    requires den != 0
  {
    forall floor: int, level: int :: Min(floor, level) <= Step(floor, level, num, den) <= Max(floor, level)
  }

  lemma Whole(n: nat, den: nat)
    requires den > 0
    ensures n * den / den == n
  {
    var product := n * den;
    var q := product / den;
    assert product == den * q + product % den;
    assert den * (n - q) == product % den;
    assert den * (q - n) == -(product % den);
    LessThanOne(den, n - q);
    LessThanOne(den, q - n);
  }

  lemma StepOfDen(num: int, den: nat)
    requires den > 0
    ensures Step(0, den, num, den) == num
  {
    var n := Abs(num);
    Whole(n, den);
    StepByProduct(num, den, n * den);
  }

  lemma StepByProduct(num: int, den: nat, product: int)
    requires den > 0 && product == Abs(num) * den
    ensures Step(0, den, num, den) == if num >= 0 then product / den else -(product / den)
  {
    assert product >= 0;
    if num >= 0 {
      assert (den - 0) * num == product;
    } else {
      assert (den - 0) * num == -product;
    }
  }

  /** A level as far from floor 0 as the denominator shows the numerator. */
  lemma StepShowsNum(num: int, den: int)
    requires den != 0
    ensures Step(0, Abs(den), num, den) == if den > 0 then num else -num
  {
    if den > 0 {
      StepOfDen(num, den);
    } else {
      SignsCancel(0, -den, num, den);
      StepOfDen(-num, -den);
    }
  }

  /** No other coefficient does: one above one overshoots, a negative one moves away. */
  lemma BetweenExactlyUpToOne(num: int, den: int)
    requires den != 0
    ensures AlwaysBetween(num, den) <==> UpToOne(num, den)
  {
    if UpToOne(num, den) {
      forall floor: int, level: int ensures Min(floor, level) <= Step(floor, level, num, den) <= Max(floor, level) {
        StepStaysBetween(floor, level, num, den);
      }
    } else {
      StepShowsNum(num, den);
      assert !(Min(0, Abs(den)) <= Step(0, Abs(den), num, den) <= Max(0, Abs(den)));
    }
  }

  // ----- the integer widths of the source -----------------------------------------------

  predicate Int16(x: int) { -0x8000 <= x < 0x8000 }
  predicate Int32(x: int) { -0x8000_0000 <= x < 0x8000_0000 }

  ghost predicate ProductsFit(num: int) {
    forall floor: int, level: int :: Int16(floor) && Int16(level) ==> Int32(ProductOf(floor, level, num))
  }

  /** The 32-bit product that a step computes. */
  function ProductOf(floor: int, level: int, num: int): int { (level - floor) * num }

  lemma LargerFactor(e: nat, n: nat, m: nat)
    requires n <= m
    ensures 0 <= e * n <= e * m
  {}

  lemma Bounded(d: int, num: int)
    requires -65535 <= d <= 65535 && -32768 <= num <= 32768
    ensures Int32(d * num)
  {
    LargerFactor(Abs(d), Abs(num), 32768);
    if d >= 0 && num < 0 {
      assert d * num == -(d * -num);
    } else if d < 0 && num >= 0 {
      assert d * num == -(-d * num);
    } else if d < 0 {
      assert d * num == -d * -num;
    }
  }

  /** Between 16-bit levels it never overflows exactly for numerators of at most 32768. */
  lemma ProductsFitExactly(num: int)
    ensures ProductsFit(num) <==> Abs(num) <= 32768
  {
    if Abs(num) <= 32768 {
      forall floor: int, level: int | Int16(floor) && Int16(level) ensures Int32(ProductOf(floor, level, num)) {
        Bounded(level - floor, num);
      }
    } else {
      assert !Int32(ProductOf(-32768, 32767, num));
    }
  }

  /** With the default coefficient a step moves the floor exactly when it is more than
      four tenths of a dB off. */
  lemma MovesExactlyWhenFar(floor: int, level: int)
    ensures Step(floor, level, NUM, DEN) == floor <==> Abs(level - floor) <= 4
  {
    StepByError(floor, level, NUM, DEN);
  }

  /** The error then shrinks, by a fifth less rounding. */
  lemma ErrorShrinks(floor: int, level: int)
    ensures
      var before, after := Abs(level - floor), Abs(level - Step(floor, level, NUM, DEN));
      && (before > 4 ==> after < before)
      && 1024 * after <= 819 * before + 1023
  {
    StepByError(floor, level, NUM, DEN);
  }

  /** The floor after `n` more idle samples of one level. */
  function Settled(floor: int, level: int, n: nat): int
    decreases n
  {
    if n == 0 then floor else Settled(Step(floor, level, NUM, DEN), level, n - 1)
  }

  /** A constant idle level is reached to within four tenths of a dB after at most as
      many samples as the first error has tenths, and then nothing moves any more. */
  lemma {:induction false} FloorSettles(floor: int, level: int, n: nat)
    requires n + 4 >= Abs(level - floor)
    ensures Abs(level - Settled(floor, level, n)) <= 4
    ensures Settled(floor, level, n + 1) == Settled(floor, level, n)
    decreases n
  {
    MovesExactlyWhenFar(floor, level);
    ErrorShrinks(floor, level);
    if n > 0 {
      var next := Step(floor, level, NUM, DEN);
      FloorSettles(next, level, n - 1);
    }
  }
}
