/** Bitwise operators of C on unsigned values, defined bit by bit on natural numbers. */
module Bits {

  function Pow2(k: nat): (p: nat)
    ensures p > 0
  {
    if k == 0 then 1 else 2 * Pow2(k - 1)
  }

  /** `x >> k` */
  function Shr(x: nat, k: nat): nat
    decreases k
  {
    if k == 0 then x else Shr(x / 2, k - 1)
  }

  /** `(x >> k) & 1` */
  function Bit(x: nat, k: nat): (b: nat)
    ensures b <= 1
  {
    Shr(x, k) % 2
  }

  /** `x & y` */
  function BitAnd(x: nat, y: nat): nat {
    if x == 0 || y == 0 then 0
    else 2 * BitAnd(x / 2, y / 2) + (if x % 2 == 1 && y % 2 == 1 then 1 else 0)
  }

  /** `x | y` */
  function BitOr(x: nat, y: nat): nat {
    if x == 0 then y
    else if y == 0 then x
    else 2 * BitOr(x / 2, y / 2) + (if x % 2 == 1 || y % 2 == 1 then 1 else 0)
  }

  /** `x ^ y` */
  function BitXor(x: nat, y: nat): nat {
    if x == 0 then y
    else if y == 0 then x
    else 2 * BitXor(x / 2, y / 2) + (if x % 2 != y % 2 then 1 else 0)
  }

  lemma MulSign(d: int, k: int)
    requires d > 0
    ensures k >= 1 ==> d * k >= d
    ensures k <= -1 ==> d * k <= -d
  {
  }

  lemma DivModUnique(x: int, d: int, q: int, r: int)
    requires 0 <= r < d
    requires x == d * q + r
    ensures x / d == q && x % d == r
  {
    var k := q - x / d;
    assert d * k == x % d - r;
    MulSign(d, k);
  }

  /** A shift is the division by the power of two. */
  lemma {:induction false} ShrIsDiv(x: nat, k: nat)
    ensures Pow2(k) * Shr(x, k) <= x < Pow2(k) * Shr(x, k) + Pow2(k)
    ensures Shr(x, k) == x / Pow2(k)
    decreases k
  {
    var q, p := Shr(x, k), Pow2(k);
    if k > 0 {
      ShrIsDiv(x / 2, k - 1);
      assert p * q == 2 * (Pow2(k - 1) * q);
    }
    DivModUnique(x, p, q, x - p * q);
  }

  /** The seven low bits of a number. */
  lemma LowBits(x: nat)
    ensures Bit(x, 0) == x % 2 && Bit(x, 1) == x / 2 % 2 && Bit(x, 2) == x / 4 % 2 && Bit(x, 3) == x / 8 % 2
    ensures Bit(x, 4) == x / 0x10 % 2 && Bit(x, 5) == x / 0x20 % 2 && Bit(x, 6) == x / 0x40 % 2
  {
    assert Pow2(0) == 1 && Pow2(1) == 2 && Pow2(2) == 4 && Pow2(3) == 8;
    assert Pow2(4) == 2 * Pow2(3) && Pow2(5) == 2 * Pow2(4) && Pow2(6) == 2 * Pow2(5);
    hide Pow2, Shr;
    ShrIsDiv(x, 0);
    ShrIsDiv(x, 1);
    ShrIsDiv(x, 2);
    ShrIsDiv(x, 3);
    ShrIsDiv(x, 4);
    ShrIsDiv(x, 5);
    ShrIsDiv(x, 6);
  }

  lemma {:induction false} BitOfZero(k: nat)
    ensures Bit(0, k) == 0
    decreases k
  {
    if k > 0 {
      BitOfZero(k - 1);
    }
  }

  lemma {:induction false} AndBit(x: nat, y: nat, k: nat)
    ensures Bit(BitAnd(x, y), k) == Bit(x, k) * Bit(y, k)
    decreases k
  {
    BitOfZero(k);
    if x != 0 && y != 0 && k > 0 {
      AndBit(x / 2, y / 2, k - 1);
    }
  }

  lemma {:induction false} OrBit(x: nat, y: nat, k: nat)
    ensures Bit(BitOr(x, y), k) == if Bit(x, k) == 1 || Bit(y, k) == 1 then 1 else 0
    decreases k
  {
    BitOfZero(k);
    if x != 0 && y != 0 && k > 0 {
      OrBit(x / 2, y / 2, k - 1);
    }
  }

  lemma {:induction false} XorBit(x: nat, y: nat, k: nat)
    ensures Bit(BitXor(x, y), k) == if Bit(x, k) != Bit(y, k) then 1 else 0
    decreases k
  {
    BitOfZero(k);
    if x != 0 && y != 0 && k > 0 {
      XorBit(x / 2, y / 2, k - 1);
    }
  }

  /** A single-bit mask has exactly its own bit. */
  lemma {:induction false} PowBit(k: nat, j: nat)
    ensures Bit(Pow2(k), j) == if j == k then 1 else 0
    decreases k
  {
    if j > 0 {
      if k > 0 {
        PowBit(k - 1, j - 1);
      } else {
        BitOfZero(j - 1);
      }
    }
  }

  /** `~x` on n bits flips every bit below n. */
  lemma {:induction false} NotBit(x: nat, n: nat, j: nat)
    requires x < Pow2(n) && j < n
    ensures Bit(Pow2(n) - 1 - x, j) == 1 - Bit(x, j)
    decreases j
  {
    var y := Pow2(n) - 1 - x;
    if j > 0 {
      assert y / 2 == Pow2(n - 1) - 1 - x / 2;
      NotBit(x / 2, n - 1, j - 1);
    }
  }

  /** The bitwise operators stay within the width of their operands. */
  lemma {:induction false} BitOpsFit(x: nat, y: nat, n: nat)
    requires x < Pow2(n) && y < Pow2(n)
    ensures BitAnd(x, y) < Pow2(n) && BitOr(x, y) < Pow2(n) && BitXor(x, y) < Pow2(n)
    decreases n
  {
    if x != 0 && y != 0 {
      BitOpsFit(x / 2, y / 2, n - 1);
    }
  }

  /** Masking with one bit yields that bit in place. */
  lemma {:induction false} AndPow(x: nat, k: nat)
    ensures BitAnd(x, Pow2(k)) == Bit(x, k) * Pow2(k)
    decreases k
  {
    BitOfZero(k);
    if x != 0 && k > 0 {
      AndPow(x / 2, k - 1);
      assert BitAnd(x, Pow2(k)) == 2 * BitAnd(x / 2, Pow2(k - 1));
      assert Bit(x, k) == 0 || Bit(x, k) == 1;
    }
  }

  lemma {:induction false} Pow2Add(a: nat, b: nat)
    ensures Pow2(a + b) == Pow2(a) * Pow2(b)
    decreases a
  {
    if a > 0 {
      Pow2Add(a - 1, b);
      assert Pow2(a + b) == 2 * Pow2(a - 1 + b);
      assert Pow2(a) * Pow2(b) == 2 * (Pow2(a - 1) * Pow2(b));
    }
  }

  lemma WidthPowers()
    ensures Pow2(4) == 0x10 && Pow2(7) == 0x80 && Pow2(8) == 0x100
    ensures Pow2(15) == 0x8000 && Pow2(16) == 0x1_0000
    ensures Pow2(31) == 0x8000_0000 && Pow2(32) == 0x1_0000_0000
  {
    Pow2Add(8, 7);
    Pow2Add(8, 8);
    Pow2Add(16, 15);
    Pow2Add(16, 16);
  }

  /** The bits of a number split at bit k. */
  lemma {:induction false} SplitBit(h: nat, l: nat, k: nat, j: nat)
    requires l < Pow2(k)
    ensures Bit(Pow2(k) * h + l, j) == if j < k then Bit(l, j) else Bit(h, j - k)
    decreases k
  {
    if k > 0 {
      var x := Pow2(k) * h + l;
      assert Pow2(k) * h == 2 * (Pow2(k - 1) * h);
      assert x / 2 == Pow2(k - 1) * h + l / 2 && x % 2 == l % 2;
      if j > 0 {
        SplitBit(h, l / 2, k - 1, j - 1);
      }
    }
  }

  /** OR of a value below 2^k with a multiple of 2^k is their sum. */
  lemma {:induction false} OrDisjoint(x: nat, y: nat, k: nat)
    requires x < Pow2(k)
    ensures BitOr(x, Pow2(k) * y) == x + Pow2(k) * y
    decreases k
  {
    if k > 0 && x != 0 && y != 0 {
      var z := Pow2(k) * y;
      assert z == 2 * (Pow2(k - 1) * y);
      OrDisjoint(x / 2, y, k - 1);
    }
  }
}
