/** ADD, ADC, SUB, SBB and CMP on operand values, with the flags they leave (src/instr.c). */
module Alu {
  import opened Bits
  import opened Words
  import opened Flags

  datatype Width = W8 | W16 | W32 {
    /** `op1.size * 8` */
    function Bits(): (n: nat)
      ensures n > 0
    {
      match this case W8 => 8 case W16 => 16 case W32 => 32
    }

    function Modulus(): int {
      match this case W8 => 0x100 case W16 => 0x1_0000 case W32 => BASE
    }
  }

  /** x read as a two's-complement number of the given width. */
  function SignedAt(w: Width, x: int): int {
    if x < w.Modulus() / 2 then x else x - w.Modulus()
  }

  datatype AluOut = AluOut(res: Word, eflags: Word)

  /** The carry as it enters a sum. */
  function Carry(e: Word): (c: nat)
    ensures c <= 1
  {
    if TestFlag(e, CF) then 1 else 0
  }

  /** The common flag tail of the arithmetic instructions; cf is each instruction's own test. */
  function Flagged(w: Width, val1: Word, val2: Word, res: Word, cf: bool, e: Word): AluOut {
    AluOut(res, ArithFlags(e, cf, Overflow(val1, val2, res, w.Bits()), Sign(res, w.Bits()), Zero(res),
                           Adjust(val1, val2, res), EvenOnes(res)))
  }

  /** val2 is not masked before the flag tests; only the stored sum is truncated. */
  function Add(w: Width, val1: Word, val2: Word, e: Word): AluOut {
    var res := (val1 + val2) % w.Modulus();
    Flagged(w, val1, val2, res, val1 > res, e)
  }

  function Adc(w: Width, val1: Word, val2: Word, e: Word): AluOut {
    var res := (val1 + val2 + Carry(e)) % w.Modulus();
    Flagged(w, val1, val2, res, val1 > res, e)
  }

  /** 32-bit SUB */
  function Sub(val1: Word, val2: Word, e: Word): AluOut {
    Flagged(W32, val1, val2, Wrap(val1 - val2), val1 < val2, e)
  }

  /** 32-bit SBB. The borrow test uses the wrapped sum val + CF; OF and AF then use the new CF. */
  function Sbb(ini: Word, val: Word, e: Word): AluOut {
    var res := Wrap(ini - val - Carry(e));
    var cf := ini < Wrap(val + Carry(e));
    var val' := Wrap(val + ToCarry(cf));
    Flagged(W32, ini, val', res, cf, e)
  }

  function ToCarry(b: bool): nat {
    if b then 1 else 0
  }

  /** 32-bit CMP: the flags of SUB, with no destination. */
  function Cmp(val1: Word, val2: Word, e: Word): Word {
    Sub(val1, val2, e).eflags
  }

  // ---------------------------------------------------------------- the bit formulas

  /** Sign is the top bit of the width. */
  lemma SignIsNegative(w: Width, res: Word)
    requires res < w.Modulus()
    ensures Sign(res, w.Bits()) <==> SignedAt(w, res) < 0
  {
    hide Shr, Pow2;
    WidthPowers();
    ShrIsDiv(res, w.Bits() - 1);
  }

  lemma HalfBit(x: int, h: int)
    requires h > 0
    ensures x / h % 2 == 1 <==> x % (2 * h) >= h
  {
    var q, r := x / h, x % h;
    assert x == (2 * h) * (q / 2) + (h * (q % 2) + r);
    assert q % 2 == 0 || q % 2 == 1;
    DivModUnique(x, 2 * h, q / 2, h * (q % 2) + r);
  }

  /** Bit width-1 of a word, whatever lies above it. */
  lemma TopBit(w: Width, x: Word)
    ensures Bit(x, w.Bits() - 1) == 1 <==> x % w.Modulus() >= w.Modulus() / 2
  {
    hide Shr;
    WidthPowers();
    ShrIsDiv(x, w.Bits() - 1);
    HalfBit(x, Pow2(w.Bits() - 1));
  }

  lemma OverflowBits(op1: Word, op2: Word, res: Word, base: nat)
    requires base > 0
    ensures Overflow(op1, op2, res, base) <==>
            Bit(op1, base - 1) != Bit(res, base - 1) && Bit(op2, base - 1) != Bit(res, base - 1)
  {
    XorBit(op1, res, base - 1);
    XorBit(op2, res, base - 1);
    AndBit(BitXor(op1, res), BitXor(op2, res), base - 1);
  }

  /** A truncated sum is the sum, or the sum less one modulus exactly when it carries. */
  lemma SumCases(a: int, b: int, c: int, m: int)
    requires 0 <= a < m && 0 <= c <= 1
    ensures var v := b % m; var s := a + v + c;
            0 <= v < m && (a + b + c) % m == s % m == if s >= m then s - m else s
  {
    var v := b % m;
    var s := a + v + c;
    var k := if s >= m then 1 else 0;
    assert m * (b / m + k) == m * (b / m) + m * k;
    DivModUnique(a + b + c, m, b / m + k, s - m * k);
    DivModUnique(s, m, k, s - m * k);
  }

  lemma OverflowArith(m: int, h: int, a: int, v: int, c: int, res: int)
    requires m == 2 * h && 0 <= a < m && 0 <= v < m && 0 <= c <= 1
    requires res == if a + v + c >= m then a + v + c - m else a + v + c
    ensures var sum := (if a < h then a else a - m) + (if v < h then v else v - m) + c;
            ((a >= h) != (res >= h) && (v >= h) != (res >= h)) <==> !(-m <= 2 * sum < m)
  {
  }

  /** The overflow formula decides signed overflow of an addition with carry-in c. */
  lemma OverflowIsSigned(w: Width, a: Word, b: Word, c: nat, res: Word)
    requires a < w.Modulus() && c <= 1 && res == (a + b + c) % w.Modulus()
    ensures var sum := SignedAt(w, a) + SignedAt(w, b % w.Modulus()) + c;
            Overflow(a, b, res, w.Bits()) <==> !(-w.Modulus() <= 2 * sum < w.Modulus())
  {
    hide BitAnd, BitXor, Shr, Overflow;
    var m := w.Modulus();
    OverflowBits(a, b, res, w.Bits());
    TopBit(w, a);
    TopBit(w, b);
    TopBit(w, res);
    SumCases(a, b, c, m);
    DivModUnique(a, m, 0, a);
    DivModUnique(res, m, 0, res);
    OverflowArith(m, m / 2, a, b % m, c, res);
  }

  lemma AdjustBits(op1: Word, op2: Word, res: Word)
    ensures Adjust(op1, op2, res) <==> (op1 / 16 + op2 / 16 + res / 16) % 2 == 1
  {
    hide BitAnd, BitXor, Shr;
    WidthPowers();
    ShrIsDiv(op1, 4);
    ShrIsDiv(op2, 4);
    ShrIsDiv(res, 4);
    XorBit(op1, op2, 4);
    XorBit(BitXor(op1, op2), res, 4);
    AndPow(BitXor(BitXor(op1, op2), res), 4);
  }

  lemma ModKeepsNibble(s: int, m: int, k: int)
    requires k > 0 && m == 32 * k
    ensures s % m / 16 % 2 == s / 16 % 2
  {
    RemainderNibble(s, s / m, s % m, m, k);
  }

  lemma RemainderNibble(s: int, q: int, r: int, m: int, k: int)
    requires m == 32 * k && s == m * q + r
    ensures r / 16 % 2 == s / 16 % 2
  {
    assert m * q == 32 * (k * q);
    NibbleShift(k * q, r);
  }

  lemma NibbleShift(t: int, r: int)
    ensures (32 * t + r) / 16 % 2 == r / 16 % 2
  {
    assert (32 * t + r) / 16 == 2 * t + r / 16;
  }

  lemma SameParity(q: int, x: int, y: int)
    requires x % 2 == y % 2
    ensures (q + x) % 2 == (q + y) % 2
  {
  }

  lemma NibbleCarry(a: int, b: int, c: int)
    requires 0 <= c <= 1
    ensures (a / 16 + b / 16 + (a + b + c) / 16) % 2 == 1 <==> a % 16 + b % 16 + c >= 16
  {
    var n := a % 16 + b % 16 + c;
    var q := a / 16 + b / 16;
    assert (a + b + c) / 16 == if n >= 16 then q + 1 else q;
  }

  /** The adjust formula decides the carry out of bit 3 of an addition with carry-in c. */
  lemma AdjustIsNibbleCarry(w: Width, a: Word, b: Word, c: nat, res: Word)
    requires a < w.Modulus() && c <= 1 && res == (a + b + c) % w.Modulus()
    ensures Adjust(a, b, res) <==> a % 16 + b % 16 + c >= 16
  {
    hide Adjust;
    AdjustBits(a, b, res);
    ModKeepsNibble(a + b + c, w.Modulus(), w.Modulus() / 32);
    SameParity(a / 16 + b / 16, res / 16, (a + b + c) / 16);
    NibbleCarry(a, b, c);
  }

  // ---------------------------------------------------------------- ADD and ADC against integer arithmetic

  /** What Appendix C of the 80386 manual asks of an addition of a, b and a carry c. */
  ghost predicate AdditionFlags(w: Width, a: int, b: int, c: int, res: Word, e: Word, e': Word) {
    var m := w.Modulus();
    var sum := SignedAt(w, a) + SignedAt(w, b % m) + c;
    && (TestFlag(e', OF) <==> !(-m <= 2 * sum < m))
    && (TestFlag(e', SF) <==> SignedAt(w, res) < 0)
    && (TestFlag(e', ZF) <==> res == 0)
    && (TestFlag(e', AF) <==> a % 16 + b % 16 + c >= 16)
    && (TestFlag(e', PF) <==> EvenOnes(res))
    && OthersKept(e, e')
  }

  ghost predicate OthersKept(e: Word, e': Word) {
    forall j: nat | j < 32 && j !in {0, 2, 4, 6, 7, 11} :: Bit(e', j) == Bit(e, j)
  }

  lemma FlaggedKeepsOthers(w: Width, val1: Word, val2: Word, res: Word, cf: bool, e: Word)
    ensures OthersKept(e, Flagged(w, val1, val2, res, cf, e).eflags)
  {
    var e' := Flagged(w, val1, val2, res, cf, e).eflags;
    forall j: nat | j < 32 && j !in {0, 2, 4, 6, 7, 11} ensures Bit(e', j) == Bit(e, j) {
      ArithFlagsBit(e, cf, Overflow(val1, val2, res, w.Bits()), Sign(res, w.Bits()), Zero(res),
                    Adjust(val1, val2, res), EvenOnes(res), j);
    }
  }

  lemma SumFlags(w: Width, a: Word, b: Word, c: nat, cf: bool, e: Word)
    requires a < w.Modulus() && c <= 1
    ensures var res := (a + b + c) % w.Modulus();
            var out := Flagged(w, a, b, res, cf, e);
            AdditionFlags(w, a, b, c, res, e, out.eflags) && TestFlag(out.eflags, CF) == cf
  {
    hide OthersKept, ArithFlags, Overflow, Adjust, Sign, TestFlag, EvenOnes;
    var res := (a + b + c) % w.Modulus();
    ArithFlagsTest(e, cf, Overflow(a, b, res, w.Bits()), Sign(res, w.Bits()), Zero(res),
                   Adjust(a, b, res), EvenOnes(res));
    OverflowIsSigned(w, a, b, c, res);
    AdjustIsNibbleCarry(w, a, b, c, res);
    SignIsNegative(w, res);
    FlaggedKeepsOthers(w, a, b, res, cf, e);
  }

  /** ADD at every width: sum, carry and the five other flags, for all operands. */
  lemma AddCorrect(w: Width, a: Word, b: Word, e: Word)
    requires a < w.Modulus()
    ensures var out := Add(w, a, b, e); var v := b % w.Modulus();
            && out.res == (a + v) % w.Modulus()
            && (TestFlag(out.eflags, CF) <==> a + v >= w.Modulus())
            && AdditionFlags(w, a, b, 0, out.res, e, out.eflags)
  {
    hide AdditionFlags, ArithFlags, Overflow, Adjust, Sign, TestFlag, EvenOnes;
    SumCases(a, b, 0, w.Modulus());
    SumFlags(w, a, b, 0, Add(w, a, b, e).res < a, e);
  }

  /** ADC at every width: its carry is the true one except for a carry-in of 1 with an all-ones source. */
  lemma AdcCorrect(w: Width, a: Word, b: Word, e: Word)
    requires a < w.Modulus()
    ensures var out := Adc(w, a, b, e); var m := w.Modulus(); var v := b % m; var c := Carry(e);
            && out.res == (a + v + c) % m
            && AdditionFlags(w, a, b, c, out.res, e, out.eflags)
            && ((TestFlag(out.eflags, CF) <==> a + v + c >= m) <==> !(c == 1 && v == m - 1))
  {
    hide AdditionFlags, ArithFlags, Overflow, Adjust, Sign, TestFlag, EvenOnes;
    SumCases(a, b, Carry(e), w.Modulus());
    SumFlags(w, a, b, Carry(e), Adc(w, a, b, e).res < a, e);
  }

  /** Borrow into bit 4 of a subtraction. */
  lemma NibbleBorrow(a: int, b: int)
    ensures (a / 16 + b / 16 + (a - b) / 16) % 2 == 1 <==> a % 16 < b % 16
  {
    var q := a / 16 - b / 16;
    assert (a - b) / 16 == if a % 16 < b % 16 then q - 1 else q;
  }

  lemma AdjustIsNibbleBorrow(a: Word, b: Word)
    ensures Adjust(a, b, Wrap(a - b)) <==> a % 16 < b % 16
  {
    hide Adjust;
    AdjustBits(a, b, Wrap(a - b));
    ModKeepsNibble(a - b, BASE, BASE / 32);
    SameParity(a / 16 + b / 16, Wrap(a - b) / 16, (a - b) / 16);
    NibbleBorrow(a, b);
  }

  /**
   * SUB and CMP: the difference, the unsigned order of the operands, the borrow out of bit 3 and the result's
   * own flags. OF is the test written for additions: both operands differ in sign from the result.
   */
  lemma SubCorrect(a: Word, b: Word, e: Word)
    ensures var out := Sub(a, b, e); var neg := Signed(out.res) < 0;
            && out.res == Wrap(a - b)
            && (TestFlag(out.eflags, CF) <==> a < b)
            && (TestFlag(out.eflags, ZF) <==> a == b)
            && (TestFlag(out.eflags, SF) <==> neg)
            && (TestFlag(out.eflags, PF) <==> EvenOnes(out.res))
            && (TestFlag(out.eflags, AF) <==> a % 16 < b % 16)
            && (TestFlag(out.eflags, OF) <==> (Signed(a) < 0) != neg && (Signed(b) < 0) != neg)
            && OthersKept(e, out.eflags)
  {
    hide OthersKept, ArithFlags, Overflow, Adjust, Sign, TestFlag, EvenOnes;
    var res := Wrap(a - b);
    ArithFlagsTest(e, a < b, Overflow(a, b, res, 32), Sign(res, 32), Zero(res), Adjust(a, b, res), EvenOnes(res));
    SignIsNegative(W32, res);
    OverflowSigns(a, b, res);
    AdjustIsNibbleBorrow(a, b);
    FlaggedKeepsOthers(W32, a, b, res, a < b, e);
  }

  lemma OverflowSigns(a: Word, b: Word, res: Word)
    ensures Overflow(a, b, res, 32) <==> (Signed(a) < 0) != (Signed(res) < 0) && (Signed(b) < 0) != (Signed(res) < 0)
  {
    hide Overflow, Bit;
    OverflowBits(a, b, res, 32);
    TopBit(W32, a);
    TopBit(W32, b);
    TopBit(W32, res);
  }

  predicate InRange(x: int) {
    -0x8000_0000 <= x < 0x8000_0000
  }

  /** For equal signs the difference x - y keeps that sign, and for different signs it does not overflow. */
  predicate OverflowTold(x: int, y: int) {
    if (x < 0) == (y < 0) then x < 0 <==> x - y < 0 else InRange(x - y)
  }

  /** OF after SUB or CMP is signed overflow of the difference exactly under that condition on the operands. */
  lemma SubOverflowExact(a: Word, b: Word, e: Word)
    ensures (TestFlag(Sub(a, b, e).eflags, OF) <==> !InRange(Signed(a) - Signed(b)))
            <==> OverflowTold(Signed(a), Signed(b))
  {
    hide Sub, TestFlag, EvenOnes, OthersKept;
    SubCorrect(a, b, e);
  }

  /** CMP 0, 1 sets OF although 0 - 1 does not overflow. */
  lemma SubOverflowExample(e: Word)
    ensures TestFlag(Sub(0, 1, e).eflags, OF) && InRange(Signed(0) - Signed(1))
  {
    hide Sub, TestFlag, EvenOnes, OthersKept;
    SubCorrect(0, 1, e);
  }

  /** Nibbles of a subtraction with borrow c whose formula is given b + k instead of b + c. */
  lemma NibbleBorrowWith(a: int, b: int, c: int, k: int)
    requires 0 <= c <= 1 && 0 <= k <= 1
    ensures (a / 16 + (b + k) / 16 + (a - b - c) / 16) % 2 == 1 <==>
            (a % 16 < b % 16 + c) != (k == 1 && b % 16 == 15)
  {
    var up := if k == 1 && b % 16 == 15 then 1 else 0;
    var down := if a % 16 < b % 16 + c then 1 else 0;
    assert (b + k) / 16 == b / 16 + up;
    assert (a - b - c) / 16 == a / 16 - b / 16 - down;
  }

  /** The adjust formula of SBB, which is given the source plus the new carry k. */
  lemma SbbAdjust(a: Word, b: Word, c: nat, k: nat)
    requires c <= 1 && k <= 1
    ensures Adjust(a, Wrap(b + k), Wrap(a - b - c)) <==> (a % 16 < b % 16 + c) != (k == 1 && b % 16 == 15)
  {
    hide Adjust;
    var v, res := Wrap(b + k), Wrap(a - b - c);
    AdjustBits(a, v, res);
    ModKeepsNibble(b + k, BASE, BASE / 32);
    ModKeepsNibble(a - b - c, BASE, BASE / 32);
    SameParity(a / 16 + v / 16, res / 16, (a - b - c) / 16);
    SameParity(a / 16 + (a - b - c) / 16, v / 16, (b + k) / 16);
    NibbleBorrowWith(a, b, c, k);
  }

  /**
   * SBB: its borrow is the true one except for a borrow-in of 1 with an all-ones source, and AF is the true borrow
   * out of bit 3 except for a new CF of 1 with an all-ones low nibble. OF is the addition test on the source plus
   * the new CF.
   */
  lemma SbbCorrect(a: Word, b: Word, e: Word)
    ensures var out := Sbb(a, b, e); var c := Carry(e); var k := Carry(out.eflags); var neg := Signed(out.res) < 0;
            && out.res == Wrap(a - b - c)
            && (k == 1 <==> a < Wrap(b + c))
            && ((k == 1 <==> a < b + c) <==> !(c == 1 && b == BASE - 1))
            && (TestFlag(out.eflags, ZF) <==> out.res == 0)
            && (TestFlag(out.eflags, SF) <==> neg)
            && (TestFlag(out.eflags, PF) <==> EvenOnes(out.res))
            && ((TestFlag(out.eflags, AF) <==> a % 16 < b % 16 + c) <==> !(k == 1 && b % 16 == 15))
            && (TestFlag(out.eflags, OF) <==> (Signed(a) < 0) != neg && (Signed(Wrap(b + k)) < 0) != neg)
            && OthersKept(e, out.eflags)
  {
    hide OthersKept, Sbb, Overflow, Adjust, Sign, TestFlag, EvenOnes, Signed;
    var c := Carry(e);
    var res, k := Wrap(a - b - c), ToCarry(a < Wrap(b + c));
    SbbFlags(a, b, e);
    SbbAdjust(a, b, c, k);
    SignIsNegative(W32, res);
    OverflowSigns(a, Wrap(b + k), res);
    assert SignedAt(W32, res) == Signed(res) by { SignedWord(res); }
    SbbCarry(a, b, c);
  }

  lemma SignedWord(x: Word)
    ensures SignedAt(W32, x) == Signed(x)
  {
  }

  lemma SbbCarry(a: Word, b: Word, c: nat)
    requires c <= 1
    ensures (a < Wrap(b + c) <==> a < b + c) <==> !(c == 1 && b == BASE - 1)
  {
  }

  /** What SBB leaves in each flag, before any of the formulas is opened. */
  lemma SbbFlags(a: Word, b: Word, e: Word)
    ensures var out := Sbb(a, b, e); var c := Carry(e);
            var res, k := Wrap(a - b - c), ToCarry(a < Wrap(b + c));
            && out.res == res && Carry(out.eflags) == k
            && TestFlag(out.eflags, ZF) == (res == 0) && TestFlag(out.eflags, SF) == Sign(res, 32)
            && TestFlag(out.eflags, PF) == EvenOnes(res) && TestFlag(out.eflags, AF) == Adjust(a, Wrap(b + k), res)
            && TestFlag(out.eflags, OF) == Overflow(a, Wrap(b + k), res, 32) && OthersKept(e, out.eflags)
  {
    hide OthersKept, ArithFlags, Overflow, Adjust, Sign, TestFlag, EvenOnes;
    var c := Carry(e);
    var res, cf := Wrap(a - b - c), a < Wrap(b + c);
    var val' := Wrap(b + ToCarry(cf));
    ArithFlagsTest(e, cf, Overflow(a, val', res, 32), Sign(res, 32), Zero(res), Adjust(a, val', res), EvenOnes(res));
    FlaggedKeepsOthers(W32, a, val', res, cf, e);
  }

  /** SBB of 2^32 - 1 from 0 with a borrow-in: 0 - 2^32 borrows, and CF comes out clear. */
  lemma LostBorrowExample(e: Word)
    requires TestFlag(e, CF)
    ensures !TestFlag(Sbb(0, BASE - 1, e).eflags, CF) && 0 < BASE - 1 + Carry(e)
  {
    hide Sbb, TestFlag, EvenOnes, OthersKept;
    SbbCorrect(0, BASE - 1, e);
  }
}
