/**
 Bit-stepped float sequencer.

 A non-negative finite float is represented by its IEEE-754 bit pattern read as
 an unsigned 32-bit integer (its "ordinal"). On [0, 1) the ordinal order agrees
 with the float order, so stepping through representable floats is integer
 addition on ordinals. This module works on the ordinals directly.
 */
module Ordinals {

  /** 2^32: uint32 arithmetic wraps modulo this value. */
  const Modulus: nat := 0x1_0000_0000

  /** An unsigned 32-bit integer. */
  type U32 = x: nat | x < Modulus

  /** The bit pattern of the float 1.0, the exclusive upper bound of [0, 1). */
  const One: U32 := 0x3F80_0000

  /** The outcome of one step: the stored ordinal and whether it stayed below the bound. */
  datatype Advanced = Advanced(ordinal: U32, hasMore: bool)

  /** Adds `step` to the ordinal `u` with uint32 wrap-around, reports whether the
      sum is below `bound`, and keeps the sum reduced modulo `bound`. */
  function AdvanceFloat(u: U32, step: U32, bound: U32): (r: Advanced)
    requires 0 < bound
    ensures r.ordinal < bound
    ensures u + step < Modulus ==> (r.hasMore <==> u + step < bound)
    ensures r.hasMore ==> r.ordinal == (u + step) % Modulus
  {
    var sum := (u + step) % Modulus;
    Advanced(Reduce(sum, bound), sum < bound)
  }

  /** `x % b`, the `u %= maxu` of the step, written as repeated subtraction of `b`.
      Spelled this way so that proofs about a step unfold a subtraction instead of
      reasoning about `%` by a variable divisor; `ReduceIsMod` shows the two agree. */
  function Reduce(x: nat, b: nat): (r: nat)
    requires 0 < b
    ensures r < b
    ensures x < b ==> r == x
    decreases x
  {
    if x < b then x else Reduce(x - b, b)
  }

  /** The remainder is determined by any quotient-remainder decomposition. */
  lemma RemainderUnique(x: nat, b: nat, q: nat, r: nat)
    requires 0 < b && r < b && x == q * b + r
    ensures x % b == r
  {
    var q', r' := x / b, x % b;
    assert x == q' * b + r';
    if q' < q {
      MulGrows(q' + 1, q, b);
    } else if q < q' {
      MulGrows(q + 1, q', b);
    }
  }

  /** Multiplication by a natural number is monotone. */
  lemma MulGrows(a: nat, c: nat, b: nat)
    requires a <= c
    ensures a * b <= c * b
  {
  }

  /** Subtracting `q` multiples of `b` first does not change the reduction. */
  lemma {:induction false} ReduceIsRemainder(x: nat, b: nat, q: nat)
    requires 0 < b && q * b <= x
    ensures Reduce(x, b) == Reduce(x - q * b, b)
    decreases q
  {
    if q > 0 {
      ReduceIsRemainder(x - b, b, q - 1);
      assert x - b - (q - 1) * b == x - q * b;
    }
  }

  /** `Reduce` is Euclidean remainder. */
  lemma ReduceIsMod(x: nat, b: nat)
    requires 0 < b
    ensures Reduce(x, b) == x % b
  {
    var q := x / b;
    assert x == q * b + x % b;
    ReduceIsRemainder(x, b, q);
  }

  /** Below the bound a step is exact: the new ordinal is `u + step`. */
  lemma AdvanceExact(u: U32, step: U32, bound: U32)
    requires 0 < bound
    requires u + step < bound
    ensures AdvanceFloat(u, step, bound) == Advanced(u + step, true)
  {
  }

  /** A step that runs past the bound (by less than one bound's width) does not
      restart at zero: it leaves behind the overshoot `u + step - bound`. */
  lemma AdvanceOvershoot(u: U32, step: U32, bound: U32)
    requires 0 < bound <= u + step < 2 * bound
    requires u + step < Modulus
    ensures AdvanceFloat(u, step, bound) == Advanced(u + step - bound, false)
  {
  }

  /** The stored ordinal is the wrapped sum modulo the bound, and progress is
      reported exactly when the wrapped sum is below the bound. In particular a
      dimension that runs out restarts at zero only when the sum is a multiple of
      the bound. */
  lemma AdvanceStoresRemainder(u: U32, step: U32, bound: U32)
    requires 0 < bound
    ensures AdvanceFloat(u, step, bound).ordinal == ((u + step) % Modulus) % bound
    ensures AdvanceFloat(u, step, bound).hasMore <==> (u + step) % Modulus < bound
  {
    ReduceIsMod((u + step) % Modulus, bound);
  }

  /** With a step larger than the room left in 32 bits, the addition wraps: when the
      wrapped sum lands below the bound, progress is reported although the ordinal
      moved backwards. */
  lemma AdvanceWrapsBackwards(u: U32, step: U32, bound: U32)
    requires 0 < bound
    requires Modulus <= u + step && u + step - Modulus < bound
    ensures var r := AdvanceFloat(u, step, bound);
            r.hasMore && r.ordinal == u + step - Modulus && r.ordinal < u
  {
  }
}
