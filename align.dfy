/** `align_up` of `main.rs`: the bit trick the source computes, the
    arithmetic meaning it is meant to have, and the proof that the two agree
    for a power-of-two alignment when the sum does not overflow. */
module Align {
  import opened U32

  /** `(num + align - 1) & !(align - 1)` with the source's `u32` operators. */
  function AlignUp(num: u32, align: u32): u32 {
    And(Sub(Add(num, align), 1), Not(Sub(align, 1)))
  }

  /** `num + align - 1` fits in a `u32`. Rust evaluates it as
      `(num + align) - 1`; when `num + align` is exactly 2^32 the release
      build's wrap of the sum is undone by the `- 1`, so the wrapping
      operators still compute `num + align - 1`. */
  predicate NoOverflow(num: nat, align: nat) {
    num + align - 1 <= MAX
  }

  /** The smallest multiple of `align` that is at least `num`. */
  function RoundUp(num: nat, align: nat): (r: nat)
    requires align > 0
    ensures r % align == 0
    ensures num <= r < num + align
  {
    var q := num / align;
    if num % align == 0 then num
    else
      DivModUnique((q + 1) * align, align, q + 1, 0);
      (q + 1) * align
  }

  /** No multiple of `align` at or above `num` is smaller than `RoundUp`. */
  lemma RoundUpIsLeast(num: nat, align: nat, m: nat)
    requires align > 0 && m % align == 0 && num <= m
    ensures RoundUp(num, align) <= m
  {
    var r := RoundUp(num, align);
    var q, p := r / align, m / align;
    DivModUnique(r, align, q, 0);
    DivModUnique(m, align, p, 0);
    assert q * align < (p + 1) * align;
    MulCancelLess(q, p + 1, align);
    MulMono(q, p, align);
  }

  /** What `Sub(Add(num, align), 1)` computes when it does not overflow. */
  lemma SumMinusOne(num: u32, align: u32)
    requires align >= 1 && NoOverflow(num, align)
    ensures Sub(Add(num, align), 1) == num + align - 1
  {}

  /** Rounding `num + align - 1` down is rounding `num` up. */
  lemma RoundDownSumIsRoundUp(num: nat, align: nat)
    requires align > 0
    ensures (num + align - 1) - (num + align - 1) % align == RoundUp(num, align)
  {
    var x := num + align - 1;
    var q, r := num / align, num % align;
    assert num == q * align + r;
    if r == 0 {
      DivModUnique(x, align, q, align - 1);
    } else {
      assert x == (q + 1) * align + (r - 1);
      DivModUnique(x, align, q + 1, r - 1);
    }
  }

  /** The bit trick computes the arithmetic specification. */
  lemma AlignUpIsRoundUp(num: u32, align: u32)
    requires IsPowerOfTwo(align) && NoOverflow(num, align)
    ensures AlignUp(num, align) == RoundUp(num, align)
  {
    assert align >= 1;
    var x: u32 := num + align - 1;
    assert AlignUp(num, align) == And(x, Not(Sub(align, 1))) by {
      SumMinusOne(num, align);
    }
    assert And(x, Not(Sub(align, 1))) == RoundUp(num, align) by {
      AndNotClearsLowBits(x, align);
      RoundDownSumIsRoundUp(num, align);
    }
  }

  /** The result is a multiple of the alignment, at least `num`, less than
      one alignment above it, and no multiple in between is missed. */
  lemma AlignUpBounds(num: u32, align: u32)
    requires IsPowerOfTwo(align) && NoOverflow(num, align)
    ensures AlignUp(num, align) % align == 0
    ensures num <= AlignUp(num, align) < num + align
    ensures forall m: nat :: m % align == 0 && num <= m ==> AlignUp(num, align) <= m
  {
    AlignUpIsRoundUp(num, align);
    forall m: nat | m % align == 0 && num <= m
      ensures AlignUp(num, align) <= m
    {
      RoundUpIsLeast(num, align, m);
    }
  }

  /** A value that is already a multiple comes back unchanged. */
  lemma AlignUpOfMultiple(num: u32, align: u32)
    requires IsPowerOfTwo(align) && NoOverflow(num, align) && num % align == 0
    ensures AlignUp(num, align) == num
  {
    AlignUpBounds(num, align);
  }

  /** A multiple of a power-of-two alignment that fits in a `u32` leaves room
      for `align - 1` more: 2^32 is itself a multiple of the alignment. */
  lemma AlignedLeavesRoom(r: u32, align: u32)
    requires IsPowerOfTwo(align) && r % align == 0
    ensures NoOverflow(r, align)
  {
    Pow2Of32();
    PowerOfTwoDivides(align, 32);
    assert align >= 1;
    MultipleBelowMultiple(r, MODULUS, align);
  }

  /** Below a multiple m of a, the largest multiple of a is m - a. */
  lemma MultipleBelowMultiple(r: nat, m: nat, a: nat)
    requires a > 0 && r % a == 0 && m % a == 0 && r < m
    ensures r + a <= m
  {
    var p, q := m / a, r / a;
    DivModUnique(m, a, p, 0);
    DivModUnique(r, a, q, 0);
    MulCancelLess(q, p, a);
    MulMono(q, p - 1, a);
  }

  /** Aligning twice is aligning once; the first result never overflows
      the second call. */
  lemma AlignUpIdempotent(num: u32, align: u32)
    requires IsPowerOfTwo(align) && NoOverflow(num, align)
    ensures NoOverflow(AlignUp(num, align), align)
    ensures AlignUp(AlignUp(num, align), align) == AlignUp(num, align)
  {
    var r := AlignUp(num, align);
    AlignUpBounds(num, align);
    AlignedLeavesRoom(r, align);
    AlignUpOfMultiple(r, align);
  }

  /** Worked values for an alignment of 256. */
  lemma AlignUpExamples()
    ensures AlignUp(0, 256) == 0
    ensures AlignUp(12, 256) == 256
    ensures AlignUp(256, 256) == 256
    ensures AlignUp(257, 256) == 512
  {
    assert IsPowerOfTwo(256);
    AlignUpIsRoundUp(0, 256);
    AlignUpIsRoundUp(12, 256);
    AlignUpIsRoundUp(256, 256);
    AlignUpIsRoundUp(257, 256);
  }
}
