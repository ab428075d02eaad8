# Modulo and layer-mask membership, modelled in Dafny

This project models two small helpers from the repository's `Algorithms`
folder and proves what they promise:

- `Modulo(int a, int b)` in `Algorithms/General.cs`. Its comment promises a
  *mathematical* modulo rather than C#'s remainder `%`. The method computes it
  as `(a % b + b) % b`.
- `Contains(this LayerMask mask, int layer)` in `Algorithms/UnityExtensions.cs`.
  It tests whether a Unity layer mask includes a layer, computing
  `(mask.value | (1 << layer)) == mask`.

Files:

- `csharp_int.dfy`, module `CSharpInt`. This is the C# `int` semantics the
  helpers depend on: the 32-bit range, and the wrap-around of unchecked `+`
  (C#'s default). It also has the truncating `/` and `%` (`CsQuot`, `CsRem`)
  and the exceptions `%` throws (`Rem`). `CsRemUnique` shows that `CsRem`'s
  contract determines its result.
- `general.dfy`, module `General`.
  - `FlooredMod` is the mathematical modulo. It is defined without C#'s
    operators, and `FlooredModUnique` characterises it by its range and its
    congruence with `a`. `Reduce` is a second, independent definition: it
    adds or subtracts the divisor until the value is in range.
  - `Modulo` is the method as written. The first `%` may throw, the sum
    wraps, and the second `%` is C#'s remainder again.
  - `ModuloIsFlooredModIff` states exactly when the method delivers what its
    comment promises: if and only if `a % b + b` does not overflow.
  - `ModuloFixed` is the corrected method. It computes `FlooredMod` for every
    pair of `int`s.
- `unity_extensions.dfy`, module `UnityExtensions`. A `LayerMask` is
  represented by its `int` value, and an `int` by its 32-bit two's-complement
  pattern (`bv32`). On that representation, C#'s `|`, `&` and unchecked `+`
  are exactly `bv32`'s operators. C#'s `<<` on `int` is `ShiftLeft`, which
  shifts by the low five bits of the count (`ShiftCount`). `Contains` is the
  source expression. Its meaning is stated by `ContainsIffBitSet`: it is a
  test of bit `layer & 31`.

## Model

| member | source | states |
|---|---|---|
| `CSharpInt.Wrap` | Algorithms/General.cs:31 | The unchecked `int` sum is an `int` and is congruent to the mathematical sum modulo 2^32. It equals that sum when the sum is in range. |
| `CSharpInt.CsQuot` | Algorithms/General.cs:31 | The quotient behind C#'s `%` rounds toward zero: the quotient's magnitude times that of `b` is at most the magnitude of `a` and more than it minus that of `b`. A non-zero quotient is negative exactly when the operands' signs differ. |
| `CSharpInt.CsRem` | Algorithms/General.cs:31 | C#'s `%` is what the truncated quotient leaves: `a == (a / b) * b + a % b`. Its magnitude is below that of `b`, and it is zero or has the sign of the dividend. |
| `CSharpInt.CsRemUnique` | Algorithms/General.cs:31 | Any `q`, `r` with `a == q * b + r`, `r` smaller than `b` in magnitude and `r` not of opposite sign to `a` are C#'s quotient and remainder. |
| `CSharpInt.Rem` | Algorithms/General.cs:31 | `a % b` throws DivideByZeroException exactly when `b == 0`. It throws OverflowException exactly for `int.MinValue % -1`. Otherwise it yields the in-range remainder. |
| `General.FlooredMod` | Algorithms/General.cs:27-28 | The mathematical modulo lies in `[0, b)` for `b > 0` and in `(b, 0]` for `b < 0`, so it takes the divisor's sign. `a` minus it is a multiple of `b`. |
| `General.FlooredModUnique` | Algorithms/General.cs:27-28 | Range and congruence together determine the mathematical modulo uniquely. |
| `General.FlooredModIdempotent` | Algorithms/General.cs:27-28 | Reducing an already-reduced value changes nothing. |
| `General.FlooredModPeriodic` | Algorithms/General.cs:27-28 | Adding `k * b` to `a` does not change the result. |
| `General.FlooredModFromRemainder` | Algorithms/General.cs:27-28 | The modulo is the remainder when the remainder is zero or has `b`'s sign, and the remainder plus `b` otherwise. So it equals `a % b` for `a >= 0`, `b > 0`, and differs for a negative `a` not divisible by `b`. |
| `General.Reduce` | Algorithms/General.cs:27-28 | The modulo found by hand, adding or subtracting a positive `n` until the value is in range, always lands in `[0, n)`. |
| `General.ReduceIsFlooredMod` | Algorithms/General.cs:27-28 | For a positive divisor, the hand method and `FlooredMod` agree on every `a`. |
| `General.FlooredModByRepeatedSubtraction` | Algorithms/General.cs:27-28 | For either sign of `b`, `FlooredMod` is the hand method's result. A negative divisor mirrors the positive case. |
| `General.Modulo` | Algorithms/General.cs:29-32 | The method throws exactly when `b == 0` or for `int.MinValue, -1`, and then it throws what the first `%` throws. Otherwise its result is an `int` smaller than `b` in magnitude. |
| `General.ModuloIsFlooredModIff` | Algorithms/General.cs:27-32 | For `b != 0` and every pair except `int.MinValue, -1` (where the first `%` throws although the sum would fit), `Modulo(a, b)` returns the mathematical modulo if and only if `a % b + b` does not overflow. |
| `General.ModuloWhenSumFits` | Algorithms/General.cs:31 | Without overflow, `(a % b + b) % b` is the mathematical modulo. |
| `General.ModuloWhenSumOverflows` | Algorithms/General.cs:31 | With overflow, the result is not the mathematical modulo. |
| `General.SmallDivisorNoOverflow` | Algorithms/General.cs:31 | For `b` at most 2^30 in magnitude, `a % b + b` never overflows. |
| `General.ModuloLaws` | Algorithms/General.cs:27-32 | Without overflow, `0 <= Modulo(a, b) < b` for `b > 0` and `b < Modulo(a, b) <= 0` for `b < 0`. `a - Modulo(a, b)` is a multiple of `b`, and for `a >= 0`, `b > 0` the result is `a % b`. |
| `General.ModuloIdempotent` | Algorithms/General.cs:29-32 | `Modulo(Modulo(a, b), b) == Modulo(a, b)` when neither application overflows. |
| `General.ModuloPeriodic` | Algorithms/General.cs:29-32 | `Modulo(a + k * b, b) == Modulo(a, b)` when nothing overflows. |
| `General.ModuloOverflowPositiveDivisor` | Algorithms/General.cs:31 | `Modulo(5, int.MaxValue)` is `-2147483644`, but the mathematical modulo is 5. |
| `General.ModuloOverflowNegativeDivisor` | Algorithms/General.cs:31 | `Modulo(-2^30, -2^30 - 1)` is `2^30 - 2`. The floored modulo is `-2^30`, and the Euclidean (never negative) modulo is 1, so the result is wrong under either reading. |
| `General.ModuloNotIdempotent` | Algorithms/General.cs:29-32 | `Modulo(-1, 2000000000)` is `1999999999`, but applying `Modulo` to that gives `-294967297`. |
| `General.ModuloMinValueByMinusOne` | Algorithms/General.cs:31 | `Modulo(int.MinValue, -1)` throws OverflowException, but the mathematical modulo is 0. |
| `General.ModuloFixed` | Algorithms/General.cs:27-32 | The corrected method throws only DivideByZero, and exactly when `b == 0`. Otherwise it returns the mathematical modulo, which is an `int`. |
| `General.ModuloFixedAgreesIff` | Algorithms/General.cs:29-32 | The corrected method agrees with the original if and only if the original's sum does not overflow. |
| `General.ModuloFixedLaws` | Algorithms/General.cs:27-32 | The corrected method is idempotent and periodic in `b` on all `int`s. |
| `UnityExtensions.ShiftLeft` | Algorithms/UnityExtensions.cs:12 | C#'s `x << count` on `int`: the bits below position `count & 31` are zero, and shifting back down by `count & 31` gives the bits of `x` that did not fall off the top. |
| `UnityExtensions.Contains` | Algorithms/UnityExtensions.cs:10-13 | The source expression `(mask.value OR (1 << layer)) == mask`, on the 32-bit pattern of the `int`. When it holds, the mask has the bit `1 << layer` set; when it does not, that bit is clear. |
| `UnityExtensions.ShiftCount` | Algorithms/UnityExtensions.cs:12 | C#'s shift count is below 32. It is congruent to the requested count modulo 32, and it is the count itself for counts 0..31. |
| `UnityExtensions.LayerBitIsSingle` | Algorithms/UnityExtensions.cs:12 | `1 << layer` has exactly one bit set, at position `layer & 31`. |
| `UnityExtensions.ContainsIffBitSet` | Algorithms/UnityExtensions.cs:10-13 | `Contains(mask, layer)` holds iff bit `layer & 31` of the mask is set. This holds whether the bit is read as `mask & (1 << layer) != 0` or as `(mask >> (layer & 31)) & 1 == 1`. |
| `UnityExtensions.ContainsOnlyThatBit` | Algorithms/UnityExtensions.cs:12 | Masks that agree on that bit give the same answer, whatever their other bits. |
| `UnityExtensions.ContainsWrapsAround` | Algorithms/UnityExtensions.cs:12 | Layer `l + 32` (unchecked) gives the same answer as `l`, and layer -1 the same as layer 31. |
| `UnityExtensions.ContainsAfterSet` | Algorithms/UnityExtensions.cs:12 | OR-ing `1 << layer` into the mask makes it contain `layer`. |
| `UnityExtensions.ContainsAfterSetOthers` | Algorithms/UnityExtensions.cs:12 | Setting a layer's bit leaves the answer unchanged for every layer with a different shift count. |
| `UnityExtensions.ContainsExtremes` | Algorithms/UnityExtensions.cs:12 | The all-ones mask (`-1`) contains every layer, and the mask `0` contains none. |

## Findings

| source | as written | input that shows it | evidently intended | confidence | as-written member | corrected member |
|---|---|---|---|---|---|---|
| Algorithms/General.cs:31 | `a % b + b` is evaluated with C#'s unchecked `int` addition. For a positive `b` above 2^30 the sum can wrap to a negative number, and the result is then negative. | `Modulo(5, int.MaxValue)` returns `-2147483644`. | The mathematical modulo, 5. | high, for code compiled without `checked`; not executed | `General.ModuloOverflowPositiveDivisor` | `General.ModuloFixed` |
| Algorithms/General.cs:31 | The same wrap-around for a negative `b` below -2^30: the sum wraps to a positive number, and the result is then positive. | `Modulo(-2^30, -2^30 - 1)` returns `2^30 - 2`. | The mathematical modulo: `-2^30` when it takes the divisor's sign, and 1 when it is never negative. | high, for code compiled without `checked`; not executed | `General.ModuloOverflowNegativeDivisor` | `General.ModuloFixed` |
| Algorithms/General.cs:29-32 | Because of the same wrap-around, applying `Modulo` to its own result can change it, even when the first call was right. | `Modulo(-1, 2000000000)` is `1999999999`, and `Modulo(1999999999, 2000000000)` is `-294967297`. | Idempotence. | high, for code compiled without `checked`; not executed | `General.ModuloNotIdempotent` | `General.ModuloFixedLaws` |
| Algorithms/General.cs:31 | The first `%` throws OverflowException for `int.MinValue % -1`. | `Modulo(int.MinValue, -1)` | 0, since every integer is a multiple of -1. | medium: the C# standard leaves this case implementation-defined in an unchecked context; Microsoft's CoreCLR runtime throws, and Unity's Mono and IL2CPP runtimes are not modelled; not executed | `General.ModuloMinValueByMinusOne` | `General.ModuloFixed` |

`ModuloFixed` avoids the overflowing sum. It adds `b` to the remainder only
when their signs differ, and then the sum lies between the two values. It
answers `b == -1` directly.

## Left out

- `ConvertPercentageRawToDecibels` (Algorithms/General.cs:34-43) is not modelled. It is floating-point arithmetic (`Math.Log`, `Math.Clamp` on `double`), and Dafny has no IEEE `double`. Its call `Math.Clamp(value, max, min)` passes `max` in the minimum position. Judging what that does would need `Math.Clamp`'s floating-point behaviour.
- `Vector2.Rotate` (Algorithms/UnityExtensions.cs:5-8) is not modelled. It is floating-point math through Unity's `Quaternion` and `Vector3`, which are not part of this model.
- Unity's `LayerMask` type is modelled only as its `int` value. Its implicit conversions to and from `int` are the identity on that value.
- `checked` compilation is not modelled. In a `checked` context, the overflowing sum in `Modulo` throws OverflowException instead of wrapping. The model follows C#'s default, unchecked arithmetic.
- `CSharpInt.Rem` models `int.MinValue % -1` as it behaves on Microsoft's CoreCLR runtime, which throws OverflowException. Unity runs this code on Mono or IL2CPP, and their behaviour for this case is not modelled. The C# standard lets an implementation return 0 instead in an unchecked context, and on such a runtime `Modulo(int.MinValue, -1)` would return the right answer, 0.
- `UnityExtensions.ShiftCount` is stated on the bit pattern of the count. Its link to the signed `int` value (`layer & 31 == layer mod 32`) is given as a congruence modulo 32 in 32-bit arithmetic, not as a statement about the signed integer.
- The rest of the repository is not part of this model: the lookup tree, the fixed-size stack, the deck and file logging.
