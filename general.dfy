/** Algorithms/General.cs: `Modulo(a, b)`, the "mathematical modulo" built from
    C#'s remainder operator as `(a % b + b) % b`.

    `FlooredMod` is the mathematical operation the method is named after; it is
    defined independently of C#'s operators and characterised by its range and
    congruence alone (`FlooredModUnique`). `Modulo` is the method as written,
    with C#'s truncating `%` and its unchecked, wrapping `+`; it agrees with
    `FlooredMod` exactly when `a % b + b` does not overflow
    (`ModuloIsFlooredModIff`). `ModuloFixed` computes `FlooredMod` for every
    pair of `int`s without an intermediate sum that can overflow. */
module General {
  import opened CSharpInt

  // ---------------------------------------------------------------------------
  // The mathematical modulo
  // ---------------------------------------------------------------------------

  /** Floored modulo: the representative of `a`'s residue class modulo `b`
      that lies between zero and `b`, so it takes the sign of the divisor. */
  function FlooredMod(a: int, b: int): (r: int)
    requires b != 0
    ensures b > 0 ==> 0 <= r < b
    ensures b < 0 ==> b < r <= 0
    ensures (a - r) % b == 0
  {
    var m := a % b;
    assert a == (a / b) * b + m;
    if b < 0 && m != 0 then
      assert a - (m + b) == (a / b - 1) * b;
      MultipleMod(a / b - 1, b);
      m + b
    else
      assert a - m == (a / b) * b;
      MultipleMod(a / b, b);
      m
  }

  /** Every multiple of `b` leaves no remainder. */
  lemma MultipleMod(k: int, b: int)
    requires b != 0
    ensures (k * b) % b == 0
  {
    var x := k * b;
    var q, r := x / b, x % b;
    assert x == q * b + r;
    assert (k - q) * b == r;
    if k != q {
      MultipleAtLeastDivisor(k - q, b);
      assert false;
    }
  }

  /** A number that leaves no remainder is a multiple. */
  lemma ModZeroIsMultiple(x: int, b: int)
    requires b != 0 && x % b == 0
    ensures x == (x / b) * b
  {
  }

  /** The range by the sign of `b` and the congruence with `a` determine the
      floored modulo: no other number has both. */
  lemma {:induction false} FlooredModUnique(a: int, b: int, r: int)
    requires b != 0
    requires b > 0 ==> 0 <= r < b
    requires b < 0 ==> b < r <= 0
    requires (a - r) % b == 0
    ensures r == FlooredMod(a, b)
  {
    var r' := FlooredMod(a, b);
    ModZeroIsMultiple(a - r, b);
    ModZeroIsMultiple(a - r', b);
    var k := (a - r) / b - (a - r') / b;
    assert k * b == r' - r;
    assert Abs(r' - r) < Abs(b);
    if k != 0 {
      MultipleAtLeastDivisor(k, b);
      assert false;
    }
  }

  /** Reducing a value that is already reduced changes nothing. */
  lemma {:induction false} FlooredModIdempotent(a: int, b: int)
    requires b != 0
    ensures FlooredMod(FlooredMod(a, b), b) == FlooredMod(a, b)
  {
    var r := FlooredMod(a, b);
    assert (r - r) % b == 0;
    FlooredModUnique(r, b, r);
  }

  /** Adding any multiple of `b` to `a` does not change `a` modulo `b`. */
  lemma {:induction false} FlooredModPeriodic(a: int, b: int, k: int)
    requires b != 0
    ensures FlooredMod(a + k * b, b) == FlooredMod(a, b)
  {
    var r := FlooredMod(a, b);
    ModZeroIsMultiple(a - r, b);
    var q := (a - r) / b;
    assert a + k * b - r == (q + k) * b;
    MultipleMod(q + k, b);
    FlooredModUnique(a + k * b, b, r);
  }

  /** How the floored modulo relates to C#'s remainder: it is the remainder
      when that is zero or has the sign of `b`, and the remainder plus `b`
      when the two signs differ. In particular the two agree for a
      non-negative `a` and a positive `b`, and differ for a negative `a` that
      `b` does not divide. */
  lemma {:induction false} FlooredModFromRemainder(a: int, b: int)
    requires b != 0
    ensures FlooredMod(a, b) ==
      var r := CsRem(a, b);
      if r != 0 && (r < 0) != (b < 0) then r + b else r
    ensures a >= 0 && b > 0 ==> FlooredMod(a, b) == CsRem(a, b)
    ensures a < 0 && b > 0 && CsRem(a, b) != 0 ==> FlooredMod(a, b) == CsRem(a, b) + b
  {
    var q, r := CsQuot(a, b), CsRem(a, b);
    if r != 0 && (r < 0) != (b < 0) {
      assert a - (r + b) == (q - 1) * b;
      MultipleMod(q - 1, b);
      FlooredModUnique(a, b, r + b);
    } else {
      assert a - r == q * b;
      MultipleMod(q, b);
      FlooredModUnique(a, b, r);
    }
  }

  /** The residue of `a` modulo a positive `n` as it is found by hand: add or
      subtract `n` until the value lies in `[0, n)`. */
  function Reduce(a: int, n: int): (r: int)
    requires n > 0
    ensures 0 <= r < n
    decreases if a < 0 then n - a else a
  {
    if a < 0 then Reduce(a + n, n)
    else if a >= n then Reduce(a - n, n)
    else a
  }

  /** For a positive divisor, the floored modulo is what repeated addition or
      subtraction of the divisor arrives at. */
  lemma {:induction false} ReduceIsFlooredMod(a: int, n: int)
    requires n > 0
    ensures Reduce(a, n) == FlooredMod(a, n)
    decreases if a < 0 then n - a else a
  {
    if a < 0 {
      ReduceIsFlooredMod(a + n, n);
      FlooredModPeriodic(a, n, 1);
    } else if a >= n {
      ReduceIsFlooredMod(a - n, n);
      FlooredModPeriodic(a, n, -1);
    } else {
      assert (a - a) % n == 0;
      FlooredModUnique(a, n, a);
    }
  }

  /** The floored modulo for either sign of divisor, from the hand method: a
      negative divisor mirrors the positive case. */
  lemma FlooredModByRepeatedSubtraction(a: int, b: int)
    requires b != 0
    ensures FlooredMod(a, b) == if b > 0 then Reduce(a, b) else -Reduce(-a, -b)
  {
    if b > 0 {
      ReduceIsFlooredMod(a, b);
    } else {
      ReduceIsFlooredMod(-a, -b);
      var r0 := FlooredMod(-a, -b);
      ModZeroIsMultiple(-a - r0, -b);
      var q := (-a - r0) / (-b);
      assert a - (-r0) == q * b;
      MultipleMod(q, b);
      FlooredModUnique(a, b, -r0);
    }
  }

  // ---------------------------------------------------------------------------
  // Modulo as written: (a % b + b) % b on C# ints
  // ---------------------------------------------------------------------------

  /** True when `a % b + b` leaves the `int` range, so that C#'s unchecked
      addition wraps around. This needs `|b|` above 2^30 (`SmallDivisorNoOverflow`). */
  predicate SumOverflows(a: int, b: int)
    requires b != 0
  {
    !IsInt32(CsRem(a, b) + b)
  }

  /** `Modulo(a, b)` exactly as written: the first `%` may throw, the sum
      wraps around, and the second `%` is C#'s remainder again. */
  function Modulo(a: int, b: int): (o: Outcome)
    requires IsInt32(a) && IsInt32(b)
    ensures o.Throws? <==> b == 0 || (a == MinValue && b == -1)
    ensures o.Throws? ==> o == Rem(a, b)
    ensures o.Value? ==> IsInt32(o.v) && Abs(o.v) < Abs(b)
  {
    match Rem(a, b)
    case Throws(e) => Throws(e)
    case Value(r) => Rem(Wrap(r + b), b)
  }

  /** The law the method's comment promises, and exactly when it holds:
      `Modulo` computes the mathematical modulo if and only if `a % b + b`
      stays within the `int` range. */
  lemma ModuloIsFlooredModIff(a: int, b: int)
    requires IsInt32(a) && IsInt32(b) && b != 0
    requires !(a == MinValue && b == -1)
    ensures Modulo(a, b) == Value(FlooredMod(a, b)) <==> !SumOverflows(a, b)
  {
    if SumOverflows(a, b) {
      ModuloWhenSumOverflows(a, b);
    } else {
      ModuloWhenSumFits(a, b);
    }
  }

  /** Without overflow, the second `%` either keeps the sum `a % b + b` (when
      the remainder's sign differs from `b`'s) or takes `b` back off it. */
  lemma ModuloWhenSumFits(a: int, b: int)
    requires IsInt32(a) && IsInt32(b) && b != 0
    requires !(a == MinValue && b == -1)
    requires !SumOverflows(a, b)
    ensures Modulo(a, b) == Value(FlooredMod(a, b))
  {
    var r := CsRem(a, b);
    var s := r + b;
    assert Modulo(a, b) == Rem(s, b);
    FlooredModFromRemainder(a, b);
    if r != 0 && (r < 0) != (b < 0) {
      assert s == 0 * b + s && Abs(s) < Abs(b);
      CsRemUnique(s, b, 0, s);
    } else {
      assert s == 1 * b + r;
      CsRemUnique(s, b, 1, r);
    }
  }

  /** With overflow, the wrapped sum has the sign opposite to `b`, so the
      second `%` returns zero or a value of that opposite sign, while the
      mathematical modulo is non-zero with the sign of `b`. */
  lemma ModuloWhenSumOverflows(a: int, b: int)
    requires IsInt32(a) && IsInt32(b) && b != 0
    requires !(a == MinValue && b == -1)
    requires SumOverflows(a, b)
    ensures Modulo(a, b) != Value(FlooredMod(a, b))
  {
    var r := CsRem(a, b);
    var s := Wrap(r + b);
    assert Modulo(a, b) == Rem(s, b);
    FlooredModFromRemainder(a, b);
    if b > 0 {
      assert s == r + b - Span;
      assert CsRem(s, b) <= 0 < r;
    } else {
      assert s == r + b + Span;
      assert CsRem(s, b) >= 0 > r;
    }
  }

  /** The overflow needs a divisor above 2^30 in magnitude: for every smaller
      one, `Modulo` is the mathematical modulo. */
  lemma SmallDivisorNoOverflow(a: int, b: int)
    requires IsInt32(a) && b != 0
    requires -0x4000_0000 <= b <= 0x4000_0000
    ensures !SumOverflows(a, b)
  {
  }

  /** The laws of a mathematical modulo for `Modulo` itself, wherever the sum
      does not overflow: the result lies between zero and `b` (so it takes the
      sign of the divisor), `a` minus the result is a multiple of `b`, and for
      non-negative operands the result is the plain remainder `a % b`. */
  lemma ModuloLaws(a: int, b: int)
    requires IsInt32(a) && IsInt32(b) && b != 0
    requires !(a == MinValue && b == -1)
    requires !SumOverflows(a, b)
    ensures Modulo(a, b).Value?
    ensures b > 0 ==> 0 <= Modulo(a, b).v < b
    ensures b < 0 ==> b < Modulo(a, b).v <= 0
    ensures (a - Modulo(a, b).v) % b == 0
    ensures a >= 0 && b > 0 ==> Modulo(a, b) == Rem(a, b)
  {
    ModuloIsFlooredModIff(a, b);
    FlooredModFromRemainder(a, b);
  }

  /** Idempotence of `Modulo`, where neither application overflows. */
  lemma ModuloIdempotent(a: int, b: int)
    requires IsInt32(a) && IsInt32(b) && b != 0
    requires !(a == MinValue && b == -1)
    requires !SumOverflows(a, b)
    requires !SumOverflows(Modulo(a, b).v, b)
    ensures Modulo(Modulo(a, b).v, b) == Modulo(a, b)
  {
    var m := Modulo(a, b).v;
    ModuloIsFlooredModIff(a, b);
    assert m != MinValue;
    ModuloIsFlooredModIff(m, b);
    FlooredModIdempotent(a, b);
  }

  /** Periodicity of `Modulo`: adding a multiple of `b` to `a` changes nothing,
      where neither sum overflows and `a + k * b` is itself an `int`. */
  lemma ModuloPeriodic(a: int, b: int, k: int)
    requires IsInt32(a) && IsInt32(b) && b != 0 && IsInt32(a + k * b)
    requires !(a == MinValue && b == -1) && !(a + k * b == MinValue && b == -1)
    requires !SumOverflows(a, b) && !SumOverflows(a + k * b, b)
    ensures Modulo(a + k * b, b) == Modulo(a, b)
  {
    ModuloIsFlooredModIff(a, b);
    ModuloIsFlooredModIff(a + k * b, b);
    FlooredModPeriodic(a, b, k);
  }

  /** With a positive divisor above 2^30 and a large enough remainder, the
      sum wraps to a negative number and `Modulo` returns a negative result,
      although the mathematical modulo is 5. */
  lemma ModuloOverflowPositiveDivisor()
    ensures Modulo(5, MaxValue) == Value(-2147483644)
    ensures FlooredMod(5, MaxValue) == 5
  {
  }

  /** With a negative divisor the wrap goes the other way: `a % b + b` drops
      below `int.MinValue` and wraps to a positive number. For
      `a = -2^30`, `b = -2^30 - 1` the result `2^30 - 2` is wrong under either
      reading of "mathematical modulo": the floored one (the sign of `b`) gives
      `-2^30`, and the Euclidean one (never negative, Dafny's own `%`) gives 1. */
  lemma ModuloOverflowNegativeDivisor()
    ensures Modulo(-0x4000_0000, -0x4000_0001) == Value(0x3FFF_FFFE)
    ensures FlooredMod(-0x4000_0000, -0x4000_0001) == -0x4000_0000
    ensures -0x4000_0000 % -0x4000_0001 == 1
  {
  }

  /** The wrap-around also breaks idempotence: the first result is right, but
      reducing it again overflows. */
  lemma ModuloNotIdempotent()
    ensures Modulo(-1, 2000000000) == Value(1999999999)
    ensures Modulo(1999999999, 2000000000) == Value(-294967297)
  {
  }

  /** Every `int` is a multiple of `-1`, so its modulo `-1` is zero; C#'s
      `int.MinValue % -1` throws instead. */
  lemma ModuloMinValueByMinusOne()
    ensures Modulo(MinValue, -1) == Throws(Overflow)
    ensures FlooredMod(MinValue, -1) == 0
  {
  }

  // ---------------------------------------------------------------------------
  // Modulo corrected
  // ---------------------------------------------------------------------------

  /** The mathematical modulo on C# `int`s: the remainder, moved into the
      divisor's range by adding `b` once when the signs differ. That sum lies
      strictly between the two operands' signs and cannot overflow, and the
      case `b == -1` is answered directly so that `int.MinValue % -1` is never
      evaluated. Only a zero divisor throws. */
  function ModuloFixed(a: int, b: int): (o: Outcome)
    requires IsInt32(a) && IsInt32(b)
    ensures o.Throws? <==> b == 0
    ensures o.Throws? ==> o.e == DivideByZero
    ensures o.Value? ==> IsInt32(o.v) && o.v == FlooredMod(a, b)
  {
    if b == 0 then Throws(DivideByZero)
    else if b == -1 then
      assert (a - 0) % b == 0;
      FlooredModUnique(a, b, 0);
      Value(0)
    else
      var r := Rem(a, b).v;
      FlooredModFromRemainder(a, b);
      Value(if r != 0 && (r < 0) != (b < 0) then r + b else r)
  }

  /** The corrected method keeps the original's results wherever those were
      right, and differs exactly on the overflowing inputs. */
  lemma ModuloFixedAgreesIff(a: int, b: int)
    requires IsInt32(a) && IsInt32(b) && b != 0
    requires !(a == MinValue && b == -1)
    ensures Modulo(a, b) == ModuloFixed(a, b) <==> !SumOverflows(a, b)
  {
    ModuloIsFlooredModIff(a, b);
  }

  /** Idempotence and periodicity of the corrected method, on all `int`s. */
  lemma ModuloFixedLaws(a: int, b: int, k: int)
    requires IsInt32(a) && IsInt32(b) && b != 0 && IsInt32(a + k * b)
    ensures ModuloFixed(ModuloFixed(a, b).v, b) == ModuloFixed(a, b)
    ensures ModuloFixed(a + k * b, b) == ModuloFixed(a, b)
  {
    FlooredModIdempotent(a, b);
    FlooredModPeriodic(a, b, k);
  }
}
