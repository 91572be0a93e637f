/** Bit-level primitives the kernel sources use: powers of two, bit length
    (`BITS - leading_zeros`) and exclusive or, on unbounded naturals. */
module Bits {

  function Pow2(n: nat): (r: nat)
    ensures r > 0
  {
    if n == 0 then 1 else 2 * Pow2(n - 1)
  }

  lemma {:induction false} Pow2Monotone(m: nat, n: nat)
    requires m <= n
    ensures Pow2(m) <= Pow2(n)
    decreases n - m
  {
    if m < n {
      Pow2Monotone(m, n - 1);
    }
  }

  /** Number of significant bits, i.e. the word width minus the leading zeros. */
  function BitLength(x: nat): (r: nat)
    ensures x == 0 <==> r == 0
  {
    if x == 0 then 0 else 1 + BitLength(x / 2)
  }

  /** The bit length is the exact binary order of magnitude. */
  lemma {:induction false} BitLengthBounds(x: nat)
    requires x > 0
    ensures Pow2(BitLength(x) - 1) <= x < Pow2(BitLength(x))
  {
    if x > 1 {
      BitLengthBounds(x / 2);
    } else {
      assert BitLength(0) == 0;
    }
  }

  /** Bitwise exclusive or. */
  function Xor(a: nat, b: nat): nat
    decreases a + b
  {
    if a == 0 && b == 0 then 0
    else 2 * Xor(a / 2, b / 2) + (a % 2 + b % 2) % 2
  }

  lemma {:induction false} XorZero(a: nat)
    ensures Xor(a, 0) == a
  {
    if a > 0 {
      XorZero(a / 2);
    }
  }

  lemma XorBit(a: nat, b: nat, r: nat)
    requires r < 2
    ensures Xor(2 * a + r, 2 * b) == 2 * Xor(a, b) + r
  {
  }

  lemma Doubled(k: nat, p: nat)
    ensures k * (2 * p) == 2 * (k * p)
  {
  }

  /** Exclusive or with a power of two flips exactly one bit. */
  lemma {:induction false} XorFlipsBit(k: nat, n: nat)
    ensures Xor(k * Pow2(n), Pow2(n)) == (if k % 2 == 0 then k + 1 else k - 1) * Pow2(n)
  {
    if n == 0 {
      XorZero(k / 2);
    } else {
      XorFlipsBit(k, n - 1);
      FlipStep(k, if k % 2 == 0 then k + 1 else k - 1, Pow2(n - 1));
    }
  }

  lemma FlipStep(k: nat, j: nat, p: nat)
    requires Xor(k * p, p) == j * p
    ensures Xor(k * (2 * p), 2 * p) == j * (2 * p)
  {
    Doubled(k, p);
    Doubled(j, p);
    XorDouble(k * p, p);
  }

  lemma XorDouble(a: nat, b: nat)
    ensures Xor(2 * a, 2 * b) == 2 * Xor(a, b)
  {
  }

  /** Exclusive or with one bit adds it or takes it away. */
  lemma {:induction false} XorMovesByBit(x: nat, n: nat)
    ensures Xor(x, Pow2(n)) == x + Pow2(n) || Xor(x, Pow2(n)) + Pow2(n) == x
  {
    if n == 0 {
      XorZero(x / 2);
    } else {
      XorMovesByBit(x / 2, n - 1);
      MoveStep(x / 2, x % 2, Pow2(n - 1));
    }
  }

  lemma MoveStep(h: nat, r: nat, p: nat)
    requires r < 2 && (Xor(h, p) == h + p || Xor(h, p) + p == h)
    ensures var x := 2 * h + r; Xor(x, 2 * p) == x + 2 * p || Xor(x, 2 * p) + 2 * p == x
  {
    XorBit(h, p, r);
  }

  /** Exclusive or with a multiple of 64 leaves the six lowest bits alone. */
  lemma XorKeepsLow(a: nat, b: nat, r: nat)
    requires r < 64
    ensures Xor(64 * a + r, 64 * b) == 64 * Xor(a, b) + r
  {
    var x := Xor(a, b);
    FourBits(a, b, x, 0, r / 4);
    TwoBits(16 * a, 16 * b, 16 * x, r / 4, r);
    Regroup(a, b, r);
  }

  lemma Regroup(a: nat, b: nat, r: nat)
    ensures 4 * (16 * a) + r == 64 * a + r && 4 * (16 * b) == 64 * b
  {
  }

  lemma FourBits(a: nat, b: nat, x: nat, h: nat, r: nat)
    requires r / 16 == h && Xor(a + h, b) == x + h
    ensures Xor(16 * a + r, 16 * b) == 16 * x + r
  {
    var a4, b4, x4, h4 := 4 * a, 4 * b, 4 * x, r / 4;
    TwoBits(a, b, x, h, h4);
    TwoBits(a4, b4, x4, h4, r);
  }

  lemma TwoBits(a: nat, b: nat, x: nat, h: nat, r: nat)
    requires r / 4 == h && Xor(a + h, b) == x + h
    ensures Xor(4 * a + r, 4 * b) == 4 * x + r
  {
    var a2, b2, x2, h2 := 2 * a, 2 * b, 2 * x, r / 2;
    OneBit(a, b, x, h, h2);
    TwoSteps(a, b, x, a2, b2, x2, h2, r);
  }

  lemma TwoSteps(a: nat, b: nat, x: nat, a2: nat, b2: nat, x2: nat, h2: nat, r: nat)
    requires a2 == 2 * a && b2 == 2 * b && x2 == 2 * x && r / 2 == h2 && Xor(a2 + h2, b2) == x2 + h2
    ensures Xor(4 * a + r, 4 * b) == 4 * x + r
  {
    OneBit(a2, b2, x2, h2, r);
  }

  lemma OneBit(a: nat, b: nat, x: nat, h: nat, r: nat)
    requires r / 2 == h && Xor(a + h, b) == x + h
    ensures Xor(2 * a + r, 2 * b) == 2 * x + r
  {
    XorBit(a + h, b, r % 2);
    assert 2 * (a + h) + r % 2 == 2 * a + r;
  }
}
