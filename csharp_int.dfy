/** The parts of C#'s 32-bit `int` semantics that the helpers in
    Algorithms/ rely on: the value range, wrap-around of unchecked addition,
    and the truncating `/` and `%` operators with the exceptions they raise. */
module CSharpInt {

  const MinValue: int := -0x8000_0000
  const MaxValue: int := 0x7FFF_FFFF
  /** The number of distinct `int` values, 2^32. */
  const Span: int := 0x1_0000_0000

  predicate IsInt32(x: int) {
    MinValue <= x <= MaxValue
  }

  function Abs(x: int): nat {
    if x < 0 then -x else x
  }

  /** Unchecked narrowing: what `+` on two `int`s yields outside a `checked`
      context, C#'s default. The result is the one `int` congruent to `x`
      modulo 2^32. */
  function Wrap(x: int): (r: int)
    ensures IsInt32(r)
    ensures (x - r) % Span == 0
    ensures IsInt32(x) ==> r == x
  {
    var m := x % Span;
    if m > MaxValue then m - Span else m
  }

  /** The quotient of C#'s `/` on integers: rounded toward zero. */
  function CsQuot(a: int, b: int): (q: int)
    requires b != 0
    ensures Abs(q) * Abs(b) <= Abs(a) < Abs(q) * Abs(b) + Abs(b)
    ensures q == 0 || ((q < 0) <==> ((a < 0) != (b < 0)))
  {
    var n := Abs(a) / Abs(b);
    DivisionBounds(Abs(a), Abs(b));
    if (a < 0) != (b < 0) then -n else n
  }

  /** Natural-number division leaves a remainder below the divisor. */
  lemma DivisionBounds(x: nat, y: nat)
    requires y > 0
    ensures (x / y) * y <= x < (x / y) * y + y
    ensures x == (x / y) * y + x % y
  {
  }

  /** The truncated quotient times the divisor is the magnitude of `a`
      rounded down to a multiple of `|b|`, with the sign of `a`. */
  lemma QuotTimesDivisor(a: int, b: int)
    requires b != 0
    ensures var p := (Abs(a) / Abs(b)) * Abs(b);
      CsQuot(a, b) * b == if a < 0 then -p else p
  {
  }

  /** The remainder of C#'s `%` on integers, as a mathematical function:
      what is left after the truncated quotient, so it takes the sign of the
      dividend `a`, never that of the divisor. */
  function CsRem(a: int, b: int): (r: int)
    requires b != 0
    ensures a == CsQuot(a, b) * b + r
    ensures Abs(r) < Abs(b)
    ensures r == 0 || ((r < 0) <==> (a < 0))
  {
    var m := Abs(a) % Abs(b);
    DivisionBounds(Abs(a), Abs(b));
    QuotTimesDivisor(a, b);
    if a < 0 then -m else m
  }

  /** The three properties in CsRem's contract single out its result: any
      remainder of `a` by `b` that is smaller than `b` in magnitude and does
      not have the opposite sign of `a` is C#'s. */
  lemma {:induction false} CsRemUnique(a: int, b: int, q: int, r: int)
    requires b != 0
    requires a == q * b + r
    requires Abs(r) < Abs(b)
    requires r == 0 || ((r < 0) <==> (a < 0))
    ensures r == CsRem(a, b) && q == CsQuot(a, b)
  {
    var q', r' := CsQuot(a, b), CsRem(a, b);
    if q != q' {
      Distribute(q, q', b);
      assert (q - q') * b == r' - r;
      SameSignDifference(r, r', Abs(b));
      MultipleAtLeastDivisor(q - q', b);
      assert false;
    }
  }

  /** A non-zero multiple of `b` is at least as large as `b` in magnitude. */
  lemma MultipleAtLeastDivisor(k: int, b: int)
    requires k != 0 && b != 0
    ensures Abs(k * b) >= Abs(b)
  {
    var m: int, n: int := Abs(k), Abs(b);
    assert m * n == n + (m - 1) * n;
    assert (m - 1) * n >= 0;
    if k < 0 && b < 0 {
      assert k * b == m * n;
    } else if k < 0 {
      assert k * b == -(m * n);
    } else if b < 0 {
      assert k * b == -(m * n);
    } else {
      assert k * b == m * n;
    }
  }

  /** Two numbers of the same sign below `m` in magnitude differ by less
      than `m`. */
  lemma SameSignDifference(r: int, r': int, m: nat)
    requires Abs(r) < m && Abs(r') < m
    requires (r >= 0 && r' >= 0) || (r <= 0 && r' <= 0)
    ensures Abs(r' - r) < m
  {
  }

  lemma Distribute(x: int, y: int, b: int)
    ensures (x - y) * b == x * b - y * b
  {
  }

  /** What an expression of type `int` evaluates to: a value, or the exception
      it throws. */
  datatype Exception = DivideByZero | Overflow
  datatype Outcome = Value(v: int) | Throws(e: Exception)

  /** C#'s `a % b` on `int`: it throws DivideByZeroException when `b` is zero,
      and OverflowException for `int.MinValue % -1`, whose quotient
      `int.MinValue / -1` has no `int` value. */
  function Rem(a: int, b: int): (o: Outcome)
    requires IsInt32(a) && IsInt32(b)
    ensures o == Throws(DivideByZero) <==> b == 0
    ensures o == Throws(Overflow) <==> a == MinValue && b == -1
    ensures o.Value? ==> IsInt32(o.v) && o.v == CsRem(a, b)
  {
    if b == 0 then Throws(DivideByZero)
    else if a == MinValue && b == -1 then Throws(Overflow)
    else Value(CsRem(a, b))
  }
}
