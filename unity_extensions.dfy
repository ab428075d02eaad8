/** Algorithms/UnityExtensions.cs: `Contains(this LayerMask mask, int layer)`,
    the test whether a layer mask includes a layer, written in the source as
    `(mask.value | (1 << layer)) == mask`.

    A `LayerMask` is modelled by its `int` value, and every `int` by its
    32-bit two's-complement pattern, a `bv32`. On that representation C#'s
    `|` and `&` on `int` are `bv32`'s, and so is C#'s unchecked `+` (both wrap
    around modulo 2^32); the one operator that needs spelling out is `<<`. */
module UnityExtensions {

  /** The shift count C#'s `<<` on `int` actually uses: only the low five bits
      of the right operand, so a count of 32 shifts by 0 and -1 by 31. */
  function ShiftCount(count: bv32): (k: bv32)
    ensures k < 32
    ensures count < 32 ==> k == count
    ensures (count - k) % 32 == 0
  {
    count & 31
  }

  /** C#'s `x << count` on `int`: the bits of `x` move up by `count & 31`
      places, the ones that move past bit 31 are lost, and zeros come in
      below. */
  function ShiftLeft(x: bv32, count: bv32): (r: bv32)
    ensures r & ((1 << ShiftCount(count)) - 1) == 0
    ensures r >> ShiftCount(count) == x & (0xFFFF_FFFF >> ShiftCount(count))
  {
    x << ShiftCount(count)
  }

  /** The source's membership test: OR-ing the layer's bit into the mask
      leaves it unchanged. What that means is stated by `ContainsIffBitSet`. */
  predicate Contains(mask: bv32, layer: bv32): (b: bool)
    ensures b ==> mask & ShiftLeft(1, layer) == ShiftLeft(1, layer)
    ensures !b ==> mask & ShiftLeft(1, layer) == 0
  {
    (mask | ShiftLeft(1, layer)) == mask
  }

  /** The bit `Contains` inspects: `1 << layer` has exactly one bit set, the
      one at position `layer & 31`. */
  lemma LayerBitIsSingle(layer: bv32)
    ensures ShiftLeft(1, layer) != 0
    ensures ShiftLeft(1, layer) & (ShiftLeft(1, layer) - 1) == 0
    ensures ShiftLeft(1, layer) >> ShiftCount(layer) == 1
  {
  }

  /** `Contains` is a test of one bit: it holds if and only if bit
      `layer & 31` of the mask is set, read either by masking or by shifting
      the mask right. */
  lemma ContainsIffBitSet(mask: bv32, layer: bv32)
    ensures Contains(mask, layer) <==> mask & ShiftLeft(1, layer) != 0
    ensures Contains(mask, layer) <==> (mask >> ShiftCount(layer)) & 1 == 1
  {
  }

  /** The result depends on that one bit alone: two masks that agree on it
      give the same answer, whatever their other bits. */
  lemma ContainsOnlyThatBit(mask: bv32, other: bv32, layer: bv32)
    requires (mask ^ other) & ShiftLeft(1, layer) == 0
    ensures Contains(mask, layer) == Contains(other, layer)
  {
  }

  /** Shift counts wrap around: layer `l + 32` (unchecked `int` addition)
      tests the same bit as `l`, and layer -1 the same bit as layer 31. */
  lemma ContainsWrapsAround(mask: bv32, layer: bv32)
    ensures Contains(mask, layer + 32) == Contains(mask, layer)
    ensures Contains(mask, -1) == Contains(mask, 31)
  {
  }

  /** OR-ing a layer's bit into a mask makes the mask contain that layer. */
  lemma ContainsAfterSet(mask: bv32, layer: bv32)
    ensures Contains(mask | ShiftLeft(1, layer), layer)
  {
  }

  /** OR-ing a layer's bit into a mask leaves the membership of every layer
      with a different shift count as it was. */
  lemma ContainsAfterSetOthers(mask: bv32, layer: bv32, other: bv32)
    requires ShiftCount(other) != ShiftCount(layer)
    ensures Contains(mask | ShiftLeft(1, layer), other) == Contains(mask, other)
  {
    SetKeepsLayer(mask, layer, other);
    SetAddsNoOtherLayer(mask, layer, other);
  }

  /** OR-ing in a layer's bit keeps every layer the mask contained. */
  lemma SetKeepsLayer(mask: bv32, layer: bv32, other: bv32)
    ensures Contains(mask, other) ==> Contains(mask | ShiftLeft(1, layer), other)
  {
    OrKeepsBit(mask, ShiftLeft(1, layer), ShiftLeft(1, other));
  }

  /** OR-ing in a layer's bit adds no layer with a different shift count. */
  lemma SetAddsNoOtherLayer(mask: bv32, layer: bv32, other: bv32)
    requires ShiftCount(other) != ShiftCount(layer)
    ensures Contains(mask | ShiftLeft(1, layer), other) ==> Contains(mask, other)
  {
    DistinctLayerBits(layer, other);
    OrAddsNoOtherBit(mask, ShiftLeft(1, layer), ShiftLeft(1, other));
  }

  /** Layers with different shift counts have disjoint bits. */
  lemma DistinctLayerBits(layer: bv32, other: bv32)
    requires ShiftCount(layer) != ShiftCount(other)
    ensures ShiftLeft(1, layer) & ShiftLeft(1, other) == 0
  {
    var k, j := ShiftCount(layer), ShiftCount(other);
    assert ShiftLeft(1, layer) == 1 << k;
    assert ShiftLeft(1, other) == 1 << j;
  }

  /** OR-ing bits into a mask keeps every bit it had. */
  lemma OrKeepsBit(mask: bv32, bits: bv32, b: bv32)
    ensures mask | b == mask ==> (mask | bits) | b == mask | bits
  {
  }

  /** OR-ing bits into a mask sets no bit outside them. */
  lemma OrAddsNoOtherBit(mask: bv32, bits: bv32, b: bv32)
    requires bits & b == 0
    ensures (mask | bits) | b == mask | bits ==> mask | b == mask
  {
  }

  /** The mask with every bit set (`-1`, Unity's "Everything") contains every
      layer, and the empty mask (`0`, "Nothing") contains none. */
  lemma ContainsExtremes(layer: bv32)
    ensures Contains(0xFFFF_FFFF, layer)
    ensures !Contains(0, layer)
  {
  }
}
