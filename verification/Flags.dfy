/** The EFLAGS word and the predicates that compute flag values (src/flags.c). */
module Flags {
  import opened Bits
  import opened Words

  const CF: Word := 0x001
  const PF: Word := 0x004
  const AF: Word := 0x010
  const ZF: Word := 0x040
  const SF: Word := 0x080
  const DF: Word := 0x400
  const OF: Word := 0x800

  function SetFlag(e: Word, f: Word): (r: Word) {
    WordOps(e, f);
    BitOr(e, f)
  }

  /** `eflags & ~f` on 32 bits */
  function ClearFlag(e: Word, f: Word): (r: Word) {
    WordOps(e, BASE - 1 - f);
    BitAnd(e, BASE - 1 - f)
  }

  function ComplementFlag(e: Word, f: Word): (r: Word) {
    WordOps(e, f);
    BitXor(e, f)
  }

  predicate TestFlag(e: Word, f: Word) {
    BitAnd(e, f) != 0
  }

  predicate Zero(v: Word) {
    v == 0
  }

  predicate Sign(v: Word, base: nat)
    requires base > 0
  {
    Shr(v, base - 1) != 0
  }

  predicate Overflow(op1: Word, op2: Word, res: Word, base: nat)
    requires base > 0
  {
    Bit(BitAnd(BitXor(op1, res), BitXor(op2, res)), base - 1) == 1
  }

  predicate Adjust(op1: Word, op2: Word, res: Word) {
    BitAnd(BitXor(BitXor(op1, op2), res), 0x10) != 0
  }

  /** Number of ones among the n low bits of v. */
  function Ones(v: nat, n: nat): nat {
    if n == 0 then 0 else Ones(v, n - 1) + Bit(v, n - 1)
  }

  /** An even number of ones in the low byte. */
  predicate EvenOnes(v: Word) {
    Ones(v % 0x100, 8) % 2 == 0
  }

  /** The sum of the eight low bits. */
  ghost function LowOnes(v: nat): nat {
    Bit(v, 0) + Bit(v, 1) + Bit(v, 2) + Bit(v, 3) + Bit(v, 4) + Bit(v, 5) + Bit(v, 6) + Bit(v, 7)
  }

  /** Of the eight low bits an even number are set. */
  lemma EvenOnesBits(v: Word)
    ensures EvenOnes(v) <==> LowOnes(v) % 2 == 0
  {
    hide Ones, LowOnes;
    OnesAreBits(v % 0x100);
    LowByteOnes(v);
  }

  lemma OnesAreBits(v: nat)
    ensures Ones(v, 8) == LowOnes(v)
  {
    hide Bit;
    assert Ones(v, 0) == 0 && Ones(v, 1) == Ones(v, 0) + Bit(v, 0);
    assert Ones(v, 2) == Ones(v, 1) + Bit(v, 1) && Ones(v, 3) == Ones(v, 2) + Bit(v, 2);
    assert Ones(v, 4) == Ones(v, 3) + Bit(v, 3) && Ones(v, 5) == Ones(v, 4) + Bit(v, 4);
    assert Ones(v, 6) == Ones(v, 5) + Bit(v, 5) && Ones(v, 7) == Ones(v, 6) + Bit(v, 6);
    assert Ones(v, 8) == Ones(v, 7) + Bit(v, 7);
  }

  lemma LowByteOnes(v: Word)
    ensures LowOnes(v % 0x100) == LowOnes(v)
  {
    WidthPowers();
    hide Bit, Pow2;
    var h, l := v / 0x100, v % 0x100;
    SplitBit(h, l, 8, 0);
    SplitBit(h, l, 8, 1);
    SplitBit(h, l, 8, 2);
    SplitBit(h, l, 8, 3);
    SplitBit(h, l, 8, 4);
    SplitBit(h, l, 8, 5);
    SplitBit(h, l, 8, 6);
    SplitBit(h, l, 8, 7);
  }

  method Parity(vv: Word) returns (r: bool)
    ensures r == EvenOnes(vv)
  {
    var v := vv % 0x100;
    var c := 0;
    for i := 0 to 8
      invariant c == Ones(v, i)
    {
      if Shr(v, i) % 2 == 1 {
        c := c + 1;
      }
    }
    r := c % 2 == 0;
  }

  lemma WordOps(x: Word, y: Word)
    ensures BitAnd(x, y) < BASE && BitOr(x, y) < BASE && BitXor(x, y) < BASE
  {
    WidthPowers();
    BitOpsFit(x, y, 32);
  }

  /** `b ? set_Flag(f) : clear_Flag(f)` */
  function Assign(e: Word, f: Word, b: bool): Word {
    if b then SetFlag(e, f) else ClearFlag(e, f)
  }

  lemma SetBit(e: Word, k: nat, j: nat)
    requires Pow2(k) < BASE
    ensures Bit(SetFlag(e, Pow2(k)), j) == if j == k then 1 else Bit(e, j)
  {
    hide Pow2, BitOr;
    PowBit(k, j);
    OrBit(e, Pow2(k), j);
  }

  lemma ClearBit(e: Word, k: nat, j: nat)
    requires Pow2(k) < BASE && j < 32
    ensures Bit(ClearFlag(e, Pow2(k)), j) == if j == k then 0 else Bit(e, j)
  {
    hide Pow2, Bit, BitAnd;
    WidthPowers();
    var f := Pow2(k);
    PowBit(k, j);
    NotBit(f, 32, j);
    AndBit(e, BASE - 1 - f, j);
    assert Bit(e, j) * 1 == Bit(e, j) && Bit(e, j) * 0 == 0;
  }

  /** Assigning a flag decides that bit and leaves the 31 others. */
  lemma AssignBit(e: Word, k: nat, b: bool, j: nat)
    requires k < 32 && j < 32 && Pow2(k) < BASE
    ensures Bit(Assign(e, Pow2(k), b), j) == if j == k then (if b then 1 else 0) else Bit(e, j)
  {
    SetBit(e, k, j);
    ClearBit(e, k, j);
  }

  lemma ComplementBit(e: Word, k: nat, j: nat)
    requires k < 32 && j < 32 && Pow2(k) < BASE
    ensures Bit(ComplementFlag(e, Pow2(k)), j) == if j == k then 1 - Bit(e, j) else Bit(e, j)
  {
    PowBit(k, j);
    XorBit(e, Pow2(k), j);
  }

  /** test_Flag reads the bit that set_Flag, clear_Flag and complement_Flag write. */
  lemma TestIsBit(e: Word, k: nat)
    requires Pow2(k) < BASE
    ensures TestFlag(e, Pow2(k)) <==> Bit(e, k) == 1
  {
    AndPow(e, k);
  }

  /** The flags that the six assignments of an arithmetic instruction leave. */
  function ArithFlags(e: Word, cf: bool, of: bool, sf: bool, zf: bool, af: bool, pf: bool): Word {
    var e1 := Assign(e, CF, cf);
    var e2 := Assign(e1, OF, of);
    var e3 := Assign(e2, SF, sf);
    var e4 := Assign(e3, ZF, zf);
    var e5 := Assign(e4, AF, af);
    Assign(e5, PF, pf)
  }

  ghost function ToBit(b: bool): nat {
    if b then 1 else 0
  }

  lemma MaskPositions()
    ensures CF == Pow2(0) && PF == Pow2(2) && AF == Pow2(4) && ZF == Pow2(6) && SF == Pow2(7)
    ensures DF == Pow2(10) && OF == Pow2(11)
  {
  }

  /** The six assignments land on six different bits and touch nothing else. */
  lemma ArithFlagsBit(e: Word, cf: bool, of: bool, sf: bool, zf: bool, af: bool, pf: bool, j: nat)
    requires j < 32
    ensures Bit(ArithFlags(e, cf, of, sf, zf, af, pf), j) ==
            if j == 0 then ToBit(cf) else if j == 11 then ToBit(of) else if j == 7 then ToBit(sf)
            else if j == 6 then ToBit(zf) else if j == 4 then ToBit(af) else if j == 2 then ToBit(pf)
            else Bit(e, j)
  {
    MaskPositions();
    var e1 := Assign(e, CF, cf);
    var e2 := Assign(e1, OF, of);
    var e3 := Assign(e2, SF, sf);
    var e4 := Assign(e3, ZF, zf);
    var e5 := Assign(e4, AF, af);
    AssignBit(e, 0, cf, j);
    AssignBit(e1, 11, of, j);
    AssignBit(e2, 7, sf, j);
    AssignBit(e3, 6, zf, j);
    AssignBit(e4, 4, af, j);
    AssignBit(e5, 2, pf, j);
  }

  /** The same, as test_Flag sees it. */
  lemma ArithFlagsTest(e: Word, cf: bool, of: bool, sf: bool, zf: bool, af: bool, pf: bool)
    ensures var r := ArithFlags(e, cf, of, sf, zf, af, pf);
            TestFlag(r, CF) == cf && TestFlag(r, OF) == of && TestFlag(r, SF) == sf &&
            TestFlag(r, ZF) == zf && TestFlag(r, AF) == af && TestFlag(r, PF) == pf &&
            TestFlag(r, DF) == TestFlag(e, DF)
  {
    MaskPositions();
    var r := ArithFlags(e, cf, of, sf, zf, af, pf);
    ArithFlagsBit(e, cf, of, sf, zf, af, pf, 0);
    ArithFlagsBit(e, cf, of, sf, zf, af, pf, 11);
    ArithFlagsBit(e, cf, of, sf, zf, af, pf, 7);
    ArithFlagsBit(e, cf, of, sf, zf, af, pf, 6);
    ArithFlagsBit(e, cf, of, sf, zf, af, pf, 4);
    ArithFlagsBit(e, cf, of, sf, zf, af, pf, 2);
    ArithFlagsBit(e, cf, of, sf, zf, af, pf, 10);
    TestIsBit(r, 0); TestIsBit(r, 11); TestIsBit(r, 7); TestIsBit(r, 6);
    TestIsBit(r, 4); TestIsBit(r, 2); TestIsBit(r, 10); TestIsBit(e, 10);
  }
}
