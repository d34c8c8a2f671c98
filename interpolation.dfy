/** The per-channel arithmetic of the gradient modes: linear interpolation
    from a start to an end channel at t = num / den, rounded to the nearest
    integer and clamped to 0..255. The reader computes t and the blend in
    floating point; here they are exact rationals. */
module Interpolation {
  import opened Bytes

  /** Python's `round` applied to the exact value n / d: the nearest integer
      (within one half of n / d, stated without division), and the even one of
      the two when n / d lies half-way between them. */
  function RoundHalfEven(n: int, d: int): (r: int)
    requires d > 0
    ensures 2 * n - d <= 2 * d * r <= 2 * n + d
  {
    var q, rem := n / d, n % d;
    assert n == d * q + rem;
    assert d * (q + 1) == d * q + d;
    if 2 * rem < d then q
    else if 2 * rem > d then q + 1
    else if q % 2 == 0 then q
    else q + 1
  }

  /** `max(0, min(255, v))`. */
  function Clamp(v: int): (c: byte)
    ensures 0 <= v < 256 ==> c == v
    ensures v < 0 ==> c == 0
    ensures v >= 256 ==> c == 255
  {
    var m := if v < 255 then v else 255;
    if m > 0 then m else 0
  }

  /** `max(0, min(255, round(start + (end - start) * t)))` with t = num / den:
      always a value between start and end. */
  function Channel(start: byte, end: byte, num: nat, den: nat): (c: byte)
    requires 0 < den && num <= den
    ensures Between(start, end, c)
  {
    var n := Blend(start, end, num, den);
    BlendBetween(start, end, num, den);
    if start <= end then
      RoundBetween(n, den, start, end);
      Clamp(RoundHalfEven(n, den))
    else
      RoundBetween(n, den, end, start);
      Clamp(RoundHalfEven(n, den))
  }

  /** den * (start + (end - start) * num / den): the exact blend, scaled by den;
      at t = 0 it is start and at t = 1 it is end. */
  function Blend(start: int, end: int, num: nat, den: nat): (n: int)
    ensures num == 0 ==> n == den * start
    ensures num == den ==> n == den * end
  {
    start * den + (end - start) * num
  }

  predicate Between(a: int, b: int, v: int) {
    if a <= b then a <= v <= b else b <= v <= a
  }

  /** v1 lies no further along the way from a to b than v2 does. */
  predicate NoFurther(a: int, b: int, v1: int, v2: int) {
    if a <= b then v1 <= v2 else v1 >= v2
  }

  // ---- arithmetic helpers

  lemma MulLe(d: int, a: int, b: int)
    requires d >= 0 && a <= b
    ensures d * a <= d * b
  {
    assert d * b - d * a == d * (b - a);
  }

  lemma MulLt(d: int, a: int, b: int)
    requires d > 0 && a < b
    ensures d * a < d * b
  {
    assert d * b - d * a == d * (b - a);
    MulLe(d, 1, b - a);
  }

  lemma MulStep(d: int, a: int, b: int)
    requires d >= 0 && a < b
    ensures d * a + d <= d * b
  {
    MulLe(d, a + 1, b);
    assert d * (a + 1) == d * a + d;
  }

  lemma CancelLe(d: int, a: int, b: int)
    requires d > 0 && d * a <= d * b
    ensures a <= b
  {
    if a > b {
      MulLt(d, b, a);
    }
  }

  // ---- rounding

  /** Exactly half-way cases go to the even neighbour. */
  lemma RoundTieIsEven(n: int, d: int)
    requires d > 0
    requires 2 * d * RoundHalfEven(n, d) == 2 * n - d || 2 * d * RoundHalfEven(n, d) == 2 * n + d
    ensures RoundHalfEven(n, d) % 2 == 0
  {
    var q, rem := n / d, n % d;
    var r := RoundHalfEven(n, d);
    assert n == d * q + rem;
    assert d * (q + 1) == d * q + d;
    assert 2 * rem == d;
  }

  /** A value between two integers rounds to a value between them. */
  lemma RoundBetween(n: int, d: int, lo: int, hi: int)
    requires d > 0 && d * lo <= n <= d * hi
    ensures lo <= RoundHalfEven(n, d) <= hi
  {
    var r := RoundHalfEven(n, d);
    assert d * (2 * lo - 1) <= d * (2 * r) by {
      assert d * (2 * lo - 1) == 2 * (d * lo) - d;
      assert d * (2 * r) == 2 * d * r;
    }
    CancelLe(d, 2 * lo - 1, 2 * r);
    assert d * (2 * r) <= d * (2 * hi + 1) by {
      assert d * (2 * hi + 1) == 2 * (d * hi) + d;
      assert d * (2 * r) == 2 * d * r;
    }
    CancelLe(d, 2 * r, 2 * hi + 1);
  }

  /** An exact integer rounds to itself. */
  lemma RoundExact(k: int, d: int)
    requires d > 0
    ensures RoundHalfEven(d * k, d) == k
  {
    RoundBetween(d * k, d, k, k);
  }

  /** Rounding never reverses the order of two values. */
  lemma RoundMonotone(n1: int, n2: int, d: int)
    requires d > 0 && n1 <= n2
    ensures RoundHalfEven(n1, d) <= RoundHalfEven(n2, d)
  {
    var r1, r2 := RoundHalfEven(n1, d), RoundHalfEven(n2, d);
    if r1 > r2 {
      MulStep(2 * d, r2, r1);
    }
  }

  // ---- the blended value

  /** The scaled blend stays between the scaled endpoints. */
  lemma BlendBetween(a: int, b: int, num: nat, den: nat)
    requires 0 < den && num <= den
    ensures a <= b ==> den * a <= Blend(a, b, num, den) <= den * b
    ensures b <= a ==> den * b <= Blend(a, b, num, den) <= den * a
  {
    if a <= b {
      MulLe(b - a, num, den);
      MulLe(num, 0, b - a);
    } else {
      MulLe(a - b, num, den);
      MulLe(num, 0, a - b);
    }
  }

  /** The scaled blend moves from a toward b as num grows. */
  lemma BlendNoFurther(a: int, b: int, num1: nat, num2: nat, den: nat)
    requires num1 <= num2
    ensures NoFurther(a, b, Blend(a, b, num1, den), Blend(a, b, num2, den))
  {
    if a <= b {
      MulLe(b - a, num1, num2);
    } else {
      MulLe(a - b, num1, num2);
    }
  }

  // ---- the channel

  /** A channel is the integer nearest to the exact blend: that value already
      lies between the two endpoint channels, inside 0..255, so clamping never
      changes it. */
  lemma ChannelBetween(start: byte, end: byte, num: nat, den: nat)
    requires 0 < den && num <= den
    ensures Channel(start, end, num, den) == RoundHalfEven(Blend(start, end, num, den), den)
    ensures Between(start, end, Channel(start, end, num, den))
  {
    var n := Blend(start, end, num, den);
    BlendBetween(start, end, num, den);
    if start <= end {
      RoundBetween(n, den, start, end);
    } else {
      RoundBetween(n, den, end, start);
    }
  }

  /** t = 0 gives the start channel, t = 1 the end channel. */
  lemma ChannelEndpoints(start: byte, end: byte, den: nat)
    requires 0 < den
    ensures Channel(start, end, 0, den) == start
    ensures Channel(start, end, den, den) == end
  {
    RoundExact(start, den);
    RoundExact(end, den);
  }

  /** Along the gradient the channel moves monotonically from start to end. */
  lemma ChannelNoFurther(start: byte, end: byte, num1: nat, num2: nat, den: nat)
    requires 0 < den && num1 <= num2 <= den
    ensures NoFurther(start, end, Channel(start, end, num1, den), Channel(start, end, num2, den))
  {
    var n1, n2 := Blend(start, end, num1, den), Blend(start, end, num2, den);
    ChannelBetween(start, end, num1, den);
    ChannelBetween(start, end, num2, den);
    BlendNoFurther(start, end, num1, num2, den);
    if start <= end {
      RoundMonotone(n1, n2, den);
    } else {
      RoundMonotone(n2, n1, den);
    }
  }
}
