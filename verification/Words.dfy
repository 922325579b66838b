/**
  Unsigned 32-bit words as integers, with the bitwise operators of C++ defined digit by digit.
  The lemmas say what a shift, an OR, an AND and an XOR do to each single bit.
 */
module Words {

  const WORD := 0x1_0000_0000

  type U32 = x: int | 0 <= x < 0x1_0000_0000

  /** Binary digit `k` of `x`. */
  predicate Bit(x: nat, k: nat) {
    if k == 0 then x % 2 == 1 else Bit(x / 2, k - 1)
  }

  function Or(x: nat, y: nat): nat {
    if x == 0 then y else if y == 0 then x
    else (if x % 2 == 1 || y % 2 == 1 then 1 else 0) + 2 * Or(x / 2, y / 2)
  }

  function And(x: nat, y: nat): nat {
    if x == 0 || y == 0 then 0
    else (if x % 2 == 1 && y % 2 == 1 then 1 else 0) + 2 * And(x / 2, y / 2)
  }

  function Xor(x: nat, y: nat): nat {
    if x == 0 then y else if y == 0 then x
    else (x + y) % 2 + 2 * Xor(x / 2, y / 2)
  }

  /**
    `x << d` on a 32-bit word, one position at a time.  A shift by 32 or more leaves 0: C++ leaves
    a shift by exactly 32 undefined, and 0 is the result the ACK tracker relies on.
   */
  function Shl(x: U32, d: nat): U32 {
    if d == 0 then x else 2 * Shl(x, d - 1) % WORD
  }

  /** `(x & (1U << k)) != 0`. */
  predicate TestBit(x: U32, k: nat) {
    And(x, Shl(1, k)) != 0
  }

  function Pow2(n: nat): nat {
    if n == 0 then 1 else 2 * Pow2(n - 1)
  }

  lemma Pow2Of32()
    ensures Pow2(32) == WORD
  {
    assert Pow2(8) == 0x100;
    assert Pow2(16) == 0x1_0000;
    assert Pow2(24) == 0x100_0000;
  }

  // ----- Shifts -----

  /** Digits below position `n` do not see an added `2^n`. */
  lemma {:induction false} BitBelow(x: nat, n: nat, j: nat)
    requires j < n
    ensures Bit(x + Pow2(n), j) == Bit(x, j)
  {
    if j > 0 {
      assert (x + Pow2(n)) / 2 == x / 2 + Pow2(n - 1);
      BitBelow(x / 2, n - 1, j - 1);
    }
  }

  lemma BitOfDouble(x: U32, j: nat)
    requires j < 32
    ensures Bit(2 * x % WORD, j) <==> j > 0 && Bit(x, j - 1)
  {
    if 2 * x >= WORD {
      Pow2Of32();
      BitBelow(2 * x - WORD, 32, j);
    }
    assert 2 * x / 2 == x;
  }

  /** A shift by `d` moves digit `j - d` to position `j` and clears the low `d` digits. */
  lemma {:induction false} BitOfShl(x: U32, d: nat, j: nat)
    requires j < 32
    ensures Bit(Shl(x, d), j) <==> j >= d && Bit(x, j - d)
  {
    if d > 0 {
      BitOfDouble(Shl(x, d - 1), j);
      if j > 0 { BitOfShl(x, d - 1, j - 1); }
    }
  }

  lemma {:induction false} BitOfZero(j: nat)
    ensures !Bit(0, j)
  {
    if j > 0 { BitOfZero(j - 1); }
  }

  lemma BitOfMask(k: nat, j: nat)
    requires j < 32
    ensures Bit(Shl(1, k), j) <==> j == k
  {
    BitOfShl(1, k, j);
    if j > k { BitOfZero(j - k - 1); }
  }

  /** `1U << k` is the power of two. */
  lemma {:induction false} MaskIsPow2(k: nat)
    requires k < 32
    ensures Shl(1, k) == Pow2(k)
  {
    if k > 0 {
      MaskIsPow2(k - 1);
      assert Pow2(k) < WORD by {
        Pow2Of32();
        Pow2Below(k, 32);
      }
      assert Shl(1, k) == 2 * Pow2(k - 1) % WORD;
    }
  }

  lemma {:induction false} Pow2Below(k: nat, n: nat)
    requires k < n
    ensures Pow2(k) < Pow2(n)
    decreases n - k
  {
    if k + 1 < n { Pow2Below(k + 1, n); }
    assert Pow2(k) >= 1 by { Pow2Positive(k); }
  }

  lemma {:induction false} Pow2Positive(k: nat)
    ensures Pow2(k) >= 1
  {
    if k > 0 { Pow2Positive(k - 1); }
  }

  // ----- OR and AND -----

  lemma {:induction false} BitOfOr(x: nat, y: nat, j: nat)
    ensures Bit(Or(x, y), j) <==> Bit(x, j) || Bit(y, j)
  {
    if x == 0 || y == 0 {
      BitOfZero(j);
    } else if j > 0 {
      BitOfOr(x / 2, y / 2, j - 1);
    }
  }

  lemma {:induction false} OrBelow(x: nat, y: nat, n: nat)
    requires x < Pow2(n) && y < Pow2(n)
    ensures Or(x, y) < Pow2(n)
  {
    if x != 0 && y != 0 { OrBelow(x / 2, y / 2, n - 1); }
  }

  /** `x | y` on 32-bit words. */
  function Or32(x: U32, y: U32): (z: U32)
    ensures z == Or(x, y)
  {
    Pow2Of32();
    OrBelow(x, y, 32);
    Or(x, y)
  }

  /** ANDing with a single power of two tests one digit. */
  lemma {:induction false} AndPow2(x: nat, k: nat)
    ensures And(x, Pow2(k)) != 0 <==> Bit(x, k)
  {
    Pow2Positive(k);
    if x == 0 {
      BitOfZero(k);
    } else if k == 0 {
      assert And(x, 1) == (if x % 2 == 1 then 1 else 0) + 2 * And(x / 2, 0);
    } else {
      assert Pow2(k) / 2 == Pow2(k - 1) && Pow2(k) % 2 == 0;
      AndPow2(x / 2, k - 1);
    }
  }

  /** The mask test of the source reads binary digit `k`. */
  lemma TestBitIsBit(x: U32, k: nat)
    requires k < 32
    ensures TestBit(x, k) <==> Bit(x, k)
  {
    MaskIsPow2(k);
    AndPow2(x, k);
  }

  /** ORing in `1U << i` sets digit `i` and no other. */
  lemma BitOfOrMask(x: U32, i: nat, j: nat)
    requires j < 32
    ensures Bit(Or(x, Shl(1, i)), j) <==> Bit(x, j) || i == j
  {
    BitOfOr(x, Shl(1, i), j);
    BitOfMask(i, j);
  }

  // ----- XOR -----

  /** XOR undoes itself. */
  lemma {:induction false} XorTwice(x: nat, y: nat)
    ensures Xor(Xor(x, y), y) == x
    decreases x + y
  {
    if x == 0 {
      XorSelf(y);
    } else if y != 0 {
      XorTwice(x / 2, y / 2);
      XorHalf(Xor(x, y), y);
    }
  }

  lemma {:induction false} XorSelf(y: nat)
    ensures Xor(y, y) == 0
  {
    if y != 0 { XorSelf(y / 2); }
  }

  lemma XorHalf(x: nat, y: nat)
    ensures Xor(x, y) == (x + y) % 2 + 2 * Xor(x / 2, y / 2)
  {
  }

  /** `x` without its lowest `n` digits. */
  function Halved(x: nat, n: nat): nat {
    if n == 0 then x else Halved(x / 2, n - 1)
  }

  /** XOR with a value of at most `n` digits leaves everything above them alone. */
  lemma {:induction false} XorAbove(x: nat, y: nat, n: nat)
    requires Halved(y, n) == 0
    ensures Halved(Xor(x, y), n) == Halved(x, n)
  {
    if n > 0 {
      XorHalf(x, y);
      XorAbove(x / 2, y / 2, n - 1);
    } else {
      assert Xor(x, 0) == x;
    }
  }

  lemma HalvedEightTimes(x: nat)
    ensures Halved(x, 8) == x / 0x100
  {
    assert Halved(x, 8) == Halved(x / 2 / 2, 6);
    assert x / 2 / 2 == x / 4;
    assert Halved(x / 4, 6) == Halved(x / 4 / 2 / 2, 4);
    assert x / 4 / 2 / 2 == x / 16;
    assert Halved(x / 16, 4) == Halved(x / 16 / 2 / 2, 2);
    assert x / 16 / 2 / 2 == x / 64;
    assert Halved(x / 64, 2) == x / 64 / 2 / 2;
    assert x / 64 / 2 / 2 == x / 256;
  }
}
