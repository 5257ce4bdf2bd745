/** 32-bit SHRD and SHR, and the right shift of a multi-limb number built from them (src/instr.c). */
module Shifts {
  import opened Bits
  import opened Words
  import opened Flags
  import opened Alu
  import opened Limbs

  /** The flag assignments of SHRD. */
  function ShrdEflags(e: Word, cf: bool, sf: bool, zf: bool, pf: bool): Word {
    var e1 := Assign(e, CF, cf);
    var e2 := Assign(e1, SF, sf);
    var e3 := Assign(e2, ZF, zf);
    Assign(e3, PF, pf)
  }

  /** SHRD dst, src, count. */
  function Shrd(dst: Word, src: Word, count: Byte, e: Word): AluOut {
    var amt := count % 32;
    if amt == 0 then AluOut(dst, e)
    else
      var res := ShrdResult(dst, src, amt);
      AluOut(res, ShrdEflags(e, Bit(dst, amt - 1) == 1, Sign(res, 32), Zero(res), EvenOnes(res)))
  }

  /** `(dst >> amt) | (uint32_t)(src << (32 - amt))` */
  function ShrdResult(dst: Word, src: Word, amt: nat): (r: Word)
    requires 0 < amt < 32
  {
    ShrFits(dst, amt);
    var low: Word := Shr(dst, amt);
    var high: Word := Wrap(src * Pow2(32 - amt));
    WordOps(low, high);
    BitOr(low, high)
  }

  /** The flag assignments of SHR. */
  function ShrEflags(e: Word, cf: bool, of: bool, zf: bool, pf: bool, sf: bool): Word {
    var e1 := Assign(e, CF, cf);
    var e2 := Assign(e1, OF, of);
    var e3 := Assign(e2, ZF, zf);
    var e4 := Assign(e3, PF, pf);
    Assign(e4, SF, sf)
  }

  /** SHR dst, count. OF is the top bit of the shifted result, or cleared for counts above 1. */
  function ShrInstr(dst: Word, count: Byte, e: Word): AluOut {
    var amt := count % 32;
    if amt == 0 then AluOut(dst, e)
    else
      ShrFits(dst, amt);
      var res: Word := Shr(dst, amt);
      AluOut(res, ShrEflags(e, Bit(dst, amt - 1) == 1, amt == 1 && Bit(res, 31) == 1, Zero(res), EvenOnes(res),
                            Sign(res, 32)))
  }

  lemma {:induction false} ShrFits(x: nat, k: nat)
    ensures 0 <= Shr(x, k) <= x
    decreases k
  {
    if k > 0 {
      ShrFits(x / 2, k - 1);
    }
  }

  /** SHRD each limb with its upper neighbour, from the lowest up, then SHR the top limb. */
  function ShiftChain(xs: seq<Word>, count: Byte, e: Word): (r: ChainOut)
    requires xs != []
    ensures |r.limbs| == |xs|
  {
    if |xs| == 1 then
      var o := ShrInstr(xs[0], count, e);
      ChainOut([o.res], o.eflags)
    else
      var o := Shrd(xs[0], xs[1], count, e);
      Prepend(o, ShiftChain(xs[1..], count, o.eflags))
  }

  // ---------------------------------------------------------------- arithmetic of one limb

  /** For m w = 2^32: the limb w*(hi mod m) is what a left shift by log2 w keeps of hi. */
  lemma ShiftedIn(hi: int, m: int, w: int)
    requires m > 0 && w > 0 && m * w == BASE
    ensures Wrap(hi * w) == w * (hi % m)
    ensures 0 <= w * (hi % m) < BASE
  {
    var q, r := hi / m, hi % m;
    assert hi * w == (m * q + r) * w == BASE * q + w * r;
    assert w * r <= w * (m - 1);
    DivModUnique(hi * w, BASE, q, w * r);
  }

  lemma SplitPower(k: nat)
    requires k <= 32
    ensures Pow2(k) * Pow2(32 - k) == BASE
  {
    Pow2Add(k, 32 - k);
    WidthPowers();
  }

  lemma LowPartSmall(x: Word, m: int, w: int)
    requires m > 0 && w > 0 && m * w == BASE
    ensures 0 <= x / m < w
  {
    MulSign(m, x / m - w + 1);
    assert m * (x / m) <= x;
    assert m * (x / m - w + 1) == m * (x / m) - BASE + m;
  }

  lemma ShrdIsSum(dst: Word, src: Word, k: nat)
    requires 0 < k < 32
    ensures ShrdResult(dst, src, k) == dst / Pow2(k) + Pow2(32 - k) * (src % Pow2(k))
  {
    hide Shr, BitOr;
    var m, w := Pow2(k), Pow2(32 - k);
    SplitPower(k);
    ShrIsDiv(dst, k);
    LowPartSmall(dst, m, w);
    ShiftedIn(src, m, w);
    OrDisjoint(dst / m, src % m, 32 - k);
  }

  /** Dividing lo + 2^32 rest by m, where m w = 2^32. */
  lemma DivideLimbs(lo: int, rest: int, m: int, w: int)
    requires m > 0 && m * w == BASE
    ensures (lo + BASE * rest) / m == lo / m + w * rest
  {
    assert lo + BASE * rest == m * (lo / m + w * rest) + lo % m by {
      assert m * (w * rest) == BASE * rest;
    }
    DivModUnique(lo + BASE * rest, m, lo / m + w * rest, lo % m);
  }

  lemma ModLimbs(lo: int, rest: int, m: int, w: int)
    requires m > 0 && m * w == BASE
    ensures (lo + BASE * rest) % m == lo % m
  {
    assert m * (w * rest) == BASE * rest;
    assert m * (lo / m + w * rest) == m * (lo / m) + BASE * rest;
    DivModUnique(lo + BASE * rest, m, lo / m + w * rest, lo % m);
  }

  lemma RecombineShift(lo: int, hi: int, rest: int, m: int, w: int)
    requires m > 0 && m * w == BASE && rest % m == hi % m
    ensures lo / m + w * (hi % m) + BASE * (rest / m) == (lo + BASE * rest) / m
  {
    DivideLimbs(lo, rest, m, w);
    var q, r := rest / m, rest % m;
    assert rest == m * q + r;
    assert w * rest == w * (m * q) + w * r;
    assert w * (m * q) == BASE * q;
  }

  lemma ShrdDividesLimb(xs: seq<Word>, k: nat)
    requires |xs| >= 2 && 0 < k < 32
    ensures ShrdResult(xs[0], xs[1], k) + BASE * (Value(xs[1..]) / Pow2(k)) == Value(xs) / Pow2(k)
  {
    hide ShrdResult, Pow2;
    SplitPower(k);
    ShrdIsSum(xs[0], xs[1], k);
    ModLimbs(xs[1], Value(xs[1..][1..]), Pow2(k), Pow2(32 - k));
    RecombineShift(xs[0], xs[1], Value(xs[1..]), Pow2(k), Pow2(32 - k));
  }

  /** SHRD over adjacent limbs and a final SHR compute floor(N / 2^k), for every number of limbs. */
  lemma {:induction false} ShiftChainDivides(xs: seq<Word>, k: Byte, e: Word)
    requires xs != [] && 0 < k < 32
    ensures Value(ShiftChain(xs, k, e).limbs) == Value(xs) / Pow2(k)
  {
    hide ShrdResult, ShrdEflags, ShrEflags, Sign, EvenOnes, Shr, Pow2, Zero, Bit;
    if |xs| == 1 {
      assert xs[1..] == [];
      ShrIsDiv(xs[0], k);
    } else {
      var o := Shrd(xs[0], xs[1], k, e);
      assert o.res == ShrdResult(xs[0], xs[1], k);
      hide Shrd;
      var rest := ShiftChain(xs[1..], k, o.eflags);
      ShiftChainDivides(xs[1..], k, o.eflags);
      assert Prepend(o, rest).limbs[1..] == rest.limbs;
      ShrdDividesLimb(xs, k);
    }
  }

  lemma ShrdEflagsBit(e: Word, cf: bool, sf: bool, zf: bool, pf: bool, j: nat)
    requires j < 32
    ensures Bit(ShrdEflags(e, cf, sf, zf, pf), j) ==
            if j == 0 then ToBit(cf) else if j == 7 then ToBit(sf) else if j == 6 then ToBit(zf)
            else if j == 2 then ToBit(pf) else Bit(e, j)
  {
    hide Assign, Bit;
    MaskPositions();
    var e1 := Assign(e, CF, cf);
    var e2 := Assign(e1, SF, sf);
    var e3 := Assign(e2, ZF, zf);
    AssignBit(e, 0, cf, j);
    AssignBit(e1, 7, sf, j);
    AssignBit(e2, 6, zf, j);
    AssignBit(e3, 2, pf, j);
  }

  lemma ShrEflagsBit(e: Word, cf: bool, of: bool, zf: bool, pf: bool, sf: bool, j: nat)
    requires j < 32
    ensures Bit(ShrEflags(e, cf, of, zf, pf, sf), j) ==
            if j == 0 then ToBit(cf) else if j == 11 then ToBit(of) else if j == 6 then ToBit(zf)
            else if j == 2 then ToBit(pf) else if j == 7 then ToBit(sf) else Bit(e, j)
  {
    hide Assign, Bit;
    MaskPositions();
    var e1 := Assign(e, CF, cf);
    var e2 := Assign(e1, OF, of);
    var e3 := Assign(e2, ZF, zf);
    var e4 := Assign(e3, PF, pf);
    AssignBit(e, 0, cf, j);
    AssignBit(e1, 11, of, j);
    AssignBit(e2, 6, zf, j);
    AssignBit(e3, 2, pf, j);
    AssignBit(e4, 7, sf, j);
  }

  /** SHRD sets CF, SF, ZF and PF, and no other bit of EFLAGS; CF is the last bit shifted out. */
  lemma ShrdFlags(dst: Word, src: Word, k: Byte, e: Word, j: nat)
    requires 0 < k < 32 && j < 32
    ensures var out := Shrd(dst, src, k, e);
            Bit(out.eflags, j) ==
            if j == 0 then Bit(dst, k - 1) else if j == 7 then ToBit(Signed(out.res) < 0)
            else if j == 6 then ToBit(out.res == 0) else if j == 2 then ToBit(EvenOnes(out.res)) else Bit(e, j)
  {
    hide Bit, ShrdResult, Sign, EvenOnes, ShrdEflags;
    var res := ShrdResult(dst, src, k);
    SignIsNegative(W32, res);
    ShrdEflagsBit(e, Bit(dst, k - 1) == 1, Sign(res, 32), Zero(res), EvenOnes(res), j);
  }

  /** SHR divides, sets the same flags and clears OF. */
  lemma ShrFlags(dst: Word, k: Byte, e: Word, j: nat)
    requires 0 < k < 32 && j < 32
    ensures var out := ShrInstr(dst, k, e);
            && out.res == dst / Pow2(k)
            && Bit(out.eflags, j) ==
               if j == 0 then Bit(dst, k - 1) else if j == 7 then ToBit(Signed(out.res) < 0) else if j == 11 then 0
               else if j == 6 then ToBit(out.res == 0) else if j == 2 then ToBit(EvenOnes(out.res)) else Bit(e, j)
  {
    hide Bit, Shr, Sign, EvenOnes, ShrEflags, Pow2;
    ShrIsDiv(dst, k);
    ShrFits(dst, k);
    var res: Word := Shr(dst, k);
    SignIsNegative(W32, res);
    TopBitShifted(dst, k);
    ShrEflagsBit(e, Bit(dst, k - 1) == 1, k == 1 && Bit(res, 31) == 1, Zero(res), EvenOnes(res), Sign(res, 32), j);
  }

  lemma HalfShift(x: nat, k: nat)
    requires k > 0
    ensures 0 <= Shr(x, k) <= x / 2
  {
    ShrFits(x / 2, k - 1);
  }

  /** A logical right shift leaves the top bit clear. */
  lemma TopBitShifted(x: Word, k: nat)
    requires 0 < k
    ensures Bit(Shr(x, k), 31) == 0
  {
    hide Shr, Pow2;
    HalfShift(x, k);
    WidthPowers();
    ShrIsDiv(Shr(x, k), 31);
  }

  lemma EvenPart(x: int, w: int, h: int, rest: int)
    requires w == 2 * h
    ensures (x + w * rest) % 2 == x % 2
  {
    assert w * rest == 2 * (h * rest);
  }

  /** The low bits of a number are those of its lowest limb. */
  lemma LowBit(xs: seq<Word>, j: nat)
    requires xs != [] && j < 32
    ensures Bit(Value(xs), j) == Bit(xs[0], j)
  {
    hide Shr;
    var m, w, h := Pow2(j), Pow2(32 - j), Pow2(31 - j);
    assert w == 2 * h;
    hide Pow2;
    var rest := Value(xs[1..]);
    SplitPower(j);
    ShrIsDiv(Value(xs), j);
    ShrIsDiv(xs[0], j);
    DivideLimbs(xs[0], rest, m, w);
    EvenPart(xs[0] / m, w, h, rest);
  }

  /** The first SHRD of a chain leaves in CF the last bit that the whole number loses, bit k - 1. */
  lemma FirstShrdCarry(xs: seq<Word>, k: Byte, e: Word)
    requires |xs| >= 2 && 0 < k < 32
    ensures TestFlag(Shrd(xs[0], xs[1], k, e).eflags, CF) <==> Bit(Value(xs), k - 1) == 1
  {
    hide TestFlag, Shrd, Bit;
    MaskPositions();
    ShrdFlags(xs[0], xs[1], k, e, 0);
    TestIsBit(Shrd(xs[0], xs[1], k, e).eflags, 0);
    LowBit(xs, k - 1);
  }
}
