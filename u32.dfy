/** Rust's `u32` and the operators `main.rs` applies to it.
    A `u32` is a natural number below 2^32; `+`, `-` and `*` wrap around as
    they do in a release build, `!` is the 32-bit complement and `&` is the
    bitwise and, defined one bit at a time. */
module U32 {

  const MODULUS: nat := 0x1_0000_0000
  const MAX: nat := 0xFFFF_FFFF

  type u32 = x: nat | x < MODULUS

  /** 2^n */
  function Pow2(n: nat): (r: nat)
    ensures r >= 1
  {
    if n == 0 then 1 else 2 * Pow2(n - 1)
  }

  predicate IsPowerOfTwo(a: nat)
    decreases a
  {
    a == 1 || (a >= 2 && a % 2 == 0 && IsPowerOfTwo(a / 2))
  }

  /** Reduction modulo 2^32: what a wrapping `u32` operation keeps. */
  function Wrap(x: int): u32 {
    x % MODULUS
  }

  function Add(a: u32, b: u32): u32 { Wrap(a + b) }
  function Sub(a: u32, b: u32): u32 { Wrap(a - b) }
  function Mul(a: u32, b: u32): u32 { Wrap(a * b) }

  /** A value that fits in a `u32` is not changed by wrapping. */
  lemma WrapExact(x: int)
    requires 0 <= x <= MAX
    ensures Wrap(x) == x
  {
    DivModUnique(x, MODULUS, 0, x);
  }

  /** A product that fits in a `u32` does not wrap. */
  lemma MulExact(a: u32, b: u32)
    requires a * b <= MAX
    ensures Mul(a, b) == a * b
  {
    WrapExact(a * b);
  }

  /** `!a` on a `u32`: every one of the 32 bits flipped. */
  function Not(a: u32): u32 { MAX - a }

  /** Bitwise and of two naturals, lowest bit first. */
  function BitAnd(x: nat, y: nat): (r: nat)
    ensures r <= x && r <= y
    decreases x
  {
    if x == 0 || y == 0 then 0
    else 2 * BitAnd(x / 2, y / 2) + (if x % 2 == 1 && y % 2 == 1 then 1 else 0)
  }

  /** `a & b` on `u32` */
  function And(a: u32, b: u32): u32 { BitAnd(a, b) }

  lemma Pow2Of32()
    ensures Pow2(32) == MODULUS
  {
    assert Pow2(8) == 256;
    Pow2Add(8, 8);
    Pow2Add(16, 16);
  }

  lemma {:induction false} Pow2Add(m: nat, n: nat)
    ensures Pow2(m + n) == Pow2(m) * Pow2(n)
  {
    if m > 0 {
      Pow2Add(m - 1, n);
    }
  }

  /** Division with remainder is unique. */
  lemma DivModUnique(x: int, a: int, q: int, r: int)
    requires a > 0 && 0 <= r < a && x == q * a + r
    ensures x / a == q && x % a == r
  {
    var q0, r0 := x / a, x % a;
    assert (q - q0) * a == r0 - r;
    OnlyZeroMultipleBelow(q - q0, a);
  }

  /** An index below n * w splits into a row below n and a column below w. */
  lemma DivModSplit(k: nat, w: nat, n: nat)
    requires k < n * w
    ensures w > 0 && k / w < n && 0 <= k % w < w && k == (k / w) * w + k % w
  {
    assert w > 0;
    var q, r := k / w, k % w;
    assert k == q * w + r;
    MulCancelLess(q, n, w);
  }

  /** The only multiple of a strictly between -a and a is 0. */
  lemma OnlyZeroMultipleBelow(k: int, a: int)
    requires a > 0 && -a < k * a < a
    ensures k == 0
  {}

  lemma MulCancelLess(q: int, p: int, a: int)
    requires a > 0 && q * a < p * a
    ensures q < p
  {}

  lemma MulComm(a: nat, b: nat)
    ensures a * b == b * a
  {}

  lemma MulMono(a: nat, b: nat, c: nat)
    requires a <= b
    ensures a * c <= b * c
  {}

  /** Keeping all bits below 2^n leaves a number below 2^n unchanged. */
  lemma {:induction false} BitAndAllOnes(x: nat, n: nat)
    requires x < Pow2(n)
    ensures BitAnd(x, Pow2(n) - 1) == x
  {
    if x != 0 {
      assert n >= 1;
      var y := Pow2(n) - 1;
      assert y / 2 == Pow2(n - 1) - 1 && y % 2 == 1;
      BitAndAllOnes(x / 2, n - 1);
    }
  }

  /** For an even divisor, the remainder splits into the lowest bit and the
      remainder of the halves. */
  lemma ModOfHalves(x: nat, a: nat)
    requires a >= 2 && a % 2 == 0
    ensures x % a == x % 2 + 2 * ((x / 2) % (a / 2))
  {
    var h := a / 2;
    var q, r := (x / 2) / h, (x / 2) % h;
    assert x / 2 == q * h + r;
    assert x == q * a + (2 * r + x % 2);
    DivModUnique(x, a, q, 2 * r + x % 2);
  }

  /** The bit trick behind `align_up`: and-ing with 2^n - a, for a power of
      two a, clears exactly the bits below a, i.e. rounds down to a multiple
      of a. */
  lemma {:induction false} BitAndClearsLowBits(x: nat, n: nat, a: nat)
    requires IsPowerOfTwo(a) && a <= Pow2(n) && x < Pow2(n)
    ensures BitAnd(x, Pow2(n) - a) == x - x % a
  {
    if a == 1 {
      BitAndAllOnes(x, n);
    } else if Pow2(n) == a {
      DivModUnique(x, a, 0, x);
    } else if x != 0 {
      assert n >= 1;
      var y := Pow2(n) - a;
      var h := a / 2;
      assert y % 2 == 0 && y / 2 == Pow2(n - 1) - h;
      assert x / 2 < Pow2(n - 1);
      BitAndClearsLowBits(x / 2, n - 1, h);
      assert BitAnd(x, y) == 2 * BitAnd(x / 2, y / 2);
      ModOfHalves(x, a);
    }
  }

  /** `x & !(a - 1)` on `u32` rounds x down to a multiple of the power of
      two a. */
  lemma AndNotClearsLowBits(x: u32, a: u32)
    requires IsPowerOfTwo(a)
    ensures And(x, Not(Sub(a, 1))) == x - x % a
  {
    assert a >= 1;
    Pow2Of32();
    assert Not(Sub(a, 1)) == Pow2(32) - a by {
      WrapExact(a - 1);
    }
    BitAndClearsLowBits(x, 32, a);
  }

  /** A power of two no larger than 2^n divides 2^n. */
  lemma {:induction false} PowerOfTwoDivides(a: nat, n: nat)
    requires IsPowerOfTwo(a) && a <= Pow2(n)
    ensures Pow2(n) % a == 0
  {
    if a == 1 {
    } else {
      assert n >= 1;
      PowerOfTwoDivides(a / 2, n - 1);
      var k := Pow2(n - 1) / (a / 2);
      assert Pow2(n - 1) == k * (a / 2);
      DivModUnique(Pow2(n), a, k, 0);
    }
  }
}
