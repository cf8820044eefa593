/**
 * Spread remapping of a gradient parameter, as done by GradientWrapper::calculate.
 *
 * The wrapped AGG gradient function (gradient_x or gradient_radial_focus) turns a
 * pixel position into a raw integer parameter `val`; that function is AGG's and is
 * not part of this model, so `val` is an input here. The wrapper maps `val` into the
 * canonical domain [0, d] according to the gradient's spread method.
 */
module Spread {

  datatype SpreadMethod = Pad | Repeat | Reflect

  const Int32Min: int := -0x8000_0000
  const Int32Max: int := 0x7FFF_FFFF

  /** The range of the C++ `int` the wrapper computes with. */
  predicate IsInt32(x: int) {
    Int32Min <= x <= Int32Max
  }

  /** The distance between two integers. */
  function Dist(x: int, y: int): nat {
    if x < y then y - x else x - y
  }

  /** The C++ quotient `a / b` for b > 0: truncated toward zero. */
  function TruncDiv(a: int, b: int): int
    requires b > 0
  {
    if a >= 0 then a / b else -((-a) / b)
  }

  /**
   * The C++ remainder `a % b` for b > 0. With the truncating quotient it
   * satisfies the identity `(a / b) * b + a % b == a` of the C++ standard, is
   * smaller than b in magnitude and has the sign of `a`. (Dafny's own `%` is
   * Euclidean and never negative.)
   */
  function TruncRem(a: int, b: int): (r: int)
    requires b > 0
    ensures a == TruncDiv(a, b) * b + r
    ensures -b < r < b
    ensures a >= 0 ==> r >= 0
    ensures a <= 0 ==> r <= 0
  {
    if a >= 0 then a % b else -((-a) % b)
  }

  /** Pad: values below the domain stick to 0, values above it stick to d. */
  function PadSpread(val: int, d: int): (r: int)
    ensures d >= 0 ==> 0 <= r <= d
    ensures d >= 0 ==> forall y :: 0 <= y <= d ==> Dist(r, val) <= Dist(y, val)
  {
    if val < 0 then 0
    else if val > d then d
    else val
  }

  /**
   * Repeat: the domain [0, d) is tiled periodically. Adding d back to a negative
   * truncating remainder yields exactly the Euclidean remainder.
   */
  function RepeatSpread(val: int, d: int): (r: int)
    requires d > 0
    ensures 0 <= r < d
    ensures r == val % d
  {
    var ret := TruncRem(val, d);
    if ret < 0 then
      DivModUnique(val, d, TruncDiv(val, d) - 1, ret + d);
      ret + d
    else
      DivModUnique(val, d, TruncDiv(val, d), ret);
      ret
  }

  /** Folds a phase of [0, 2d) onto [0, d]: the upper half is mirrored. */
  function Fold(m: int, d: int): int {
    if m >= d then 2 * d - m else m
  }

  /**
   * Reflect: the domain is tiled by [0, d] and its mirror image, with period 2d;
   * the result is the fold of the Euclidean remainder of val by 2d.
   */
  function ReflectSpread(val: int, d: int): (r: int)
    requires d > 0
    ensures 0 <= r <= d
    ensures r == Fold(val % (2 * d), d)
  {
    var d2 := d * 2;
    var ret := TruncRem(val, d2);
    var ret' := if ret < 0 then ret + d2 else ret;
    assert ret' == val % d2 by {
      if ret < 0 {
        DivModUnique(val, d2, TruncDiv(val, d2) - 1, ret');
      } else {
        DivModUnique(val, d2, TruncDiv(val, d2), ret');
      }
    }
    if ret' >= d then d2 - ret' else ret'
  }

  /**
   * GradientWrapper::calculate on the raw parameter `val` of the wrapped gradient
   * function. The C++ switch falls through to `return val` only for a spread value
   * outside the enumeration, which SpreadMethod cannot hold.
   * A zero `d` would divide by zero under Repeat and Reflect, and `d * 2` must not
   * overflow under Reflect; the other intermediate values lie between -2d and 2d.
   * Every spread is the identity on [0, d), and only Repeat sends d itself to 0.
   */
  function Calculate(spread: SpreadMethod, val: int, d: int): (r: int)
    requires IsInt32(val) && IsInt32(d)
    requires spread.Repeat? || spread.Reflect? ==> d > 0
    requires spread.Reflect? ==> IsInt32(d * 2)
    ensures IsInt32(r)
    ensures d >= 0 ==> 0 <= r <= d
    ensures spread.Repeat? ==> r < d
    ensures 0 <= val < d ==> r == val
    ensures 0 <= d == val ==> r == (if spread.Repeat? then 0 else d)
  {
    match spread
    case Pad => PadSpread(val, d)
    case Repeat =>
      RepeatInDomain(val, d);
      RepeatSpread(val, d)
    case Reflect =>
      ReflectInDomain(val, d);
      ReflectInDomain(d, d);
      ReflectSpread(val, d)
  }

  // ---------------------------------------------------------------------------
  // Euclidean division facts

  /** Euclidean quotient and remainder are determined by the division identity. */
  lemma DivModUnique(x: int, d: int, q: int, r: int)
    requires d > 0 && 0 <= r < d && x == q * d + r
    ensures x % d == r && x / d == q
  {
    var q0, r0 := x / d, x % d;
    assert x == q0 * d + r0;
    var k := q - q0;
    assert k * d == r0 - r;
    MulBound(k, d);
  }

  lemma MulBound(k: int, d: int)
    requires d > 0
    ensures k >= 1 ==> k * d >= d
    ensures k <= -1 ==> k * d <= -d
  {
    if k >= 1 {
      assert (k - 1) * d >= 0;
    } else if k <= -1 {
      assert (-k - 1) * d >= 0;
    }
  }

  lemma ModOfSelf(d: int)
    requires d > 0
    ensures d % d == 0
  {
    DivModUnique(d, d, 1, 0);
  }

  /** Adding a multiple of d does not change the remainder. */
  lemma ShiftByMultiple(x: int, k: int, d: int)
    requires d > 0
    ensures (x + k * d) % d == x % d
  {
    var q, r := x / d, x % d;
    assert x + k * d == (q + k) * d + r;
    DivModUnique(x + k * d, d, q + k, r);
  }

  /** The remainder of -x is the complement of the remainder of x. */
  lemma NegMod(x: int, d: int)
    requires d > 0
    ensures (-x) % d == if x % d == 0 then 0 else d - x % d
  {
    var q, r := x / d, x % d;
    assert x == q * d + r;
    if r == 0 {
      DivModUnique(-x, d, -q, 0);
    } else {
      DivModUnique(-x, d, -q - 1, d - r);
    }
  }

  // ---------------------------------------------------------------------------
  // Pad

  /** Pad is a clamp: it is the identity on the domain and saturates outside. */
  lemma PadCases(val: int, d: int)
    requires d >= 0
    ensures 0 <= val <= d ==> PadSpread(val, d) == val
    ensures val < 0 ==> PadSpread(val, d) == 0
    ensures val > d ==> PadSpread(val, d) == d
  {
    var r := PadSpread(val, d);
    if 0 <= val <= d {
      assert Dist(r, val) <= Dist(val, val);
    } else if val < 0 {
      assert Dist(r, val) <= Dist(0, val);
    } else {
      assert Dist(r, val) <= Dist(d, val);
    }
  }

  /** Padding an already padded value changes nothing. */
  lemma PadIdempotent(val: int, d: int)
    requires d >= 0
    ensures PadSpread(PadSpread(val, d), d) == PadSpread(val, d)
  {
    PadCases(PadSpread(val, d), d);
  }

  // ---------------------------------------------------------------------------
  // Repeat

  /** Repeat has period d. */
  lemma RepeatPeriodic(val: int, d: int, k: int)
    requires d > 0
    ensures RepeatSpread(val + k * d, d) == RepeatSpread(val, d)
  {
    ShiftByMultiple(val, k, d);
  }

  /** Repeat is the identity on [0, d) and sends d to 0. */
  lemma RepeatInDomain(val: int, d: int)
    requires d > 0
    ensures 0 <= val < d ==> RepeatSpread(val, d) == val
    ensures RepeatSpread(d, d) == 0
  {
    ModOfSelf(d);
    if 0 <= val < d {
      DivModUnique(val, d, 0, val);
    }
  }

  // ---------------------------------------------------------------------------
  // Reflect

  /** Reflect has period 2d. */
  lemma ReflectPeriodic(val: int, d: int)
    requires d > 0
    ensures ReflectSpread(val + 2 * d, d) == ReflectSpread(val, d)
  {
    ShiftByMultiple(val, 1, 2 * d);
  }

  /** Reflect is symmetric about 0. */
  lemma ReflectEven(val: int, d: int)
    requires d > 0
    ensures ReflectSpread(-val, d) == ReflectSpread(val, d)
  {
    NegMod(val, 2 * d);
  }

  /** Reflect is symmetric about d: val and 2d - val map to the same parameter. */
  lemma ReflectMirror(val: int, d: int)
    requires d > 0
    ensures ReflectSpread(2 * d - val, d) == ReflectSpread(val, d)
  {
    ReflectPeriodic(-val, d);
    ReflectEven(val, d);
  }

  /** Reflect is the identity on [0, d]. */
  lemma ReflectInDomain(val: int, d: int)
    requires d > 0
    ensures 0 <= val <= d ==> ReflectSpread(val, d) == val
  {
    if 0 <= val <= d {
      DivModUnique(val, 2 * d, 0, val);
    }
  }
}
