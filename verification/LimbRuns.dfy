/** Multi-limb addition and subtraction in memory, run instruction by instruction. */
module LimbRuns {
  import opened Words
  import opened Flags
  import opened Alu
  import opened Machine
  import opened Stack
  import opened Limbs
  import opened AluInstr

  /** The instruction for the limbs above: the carry or borrow goes on. */
  function Onward(op: Arith): Arith {
    match op case ADD => ADC case ADC => ADC case SUB => SBB case SBB => SBB
  }

  /** `dword [a]` */
  function Dword(a: Word): Operand {
    M(MemRef(None, None, 0, a, None))
  }

  /** Sources that the stores into the limbs do not change. */
  predicate Steady(srcs: seq<Operand>) {
    forall i | 0 <= i < |srcs| :: srcs[i].R? || srcs[i].I?
  }

  /** The operand `dword [p]` is the dword at p. */
  lemma DwordOperand(s: State, p: nat, v: Word)
    requires p + 4 <= MEM_SIZE
    ensures Accessible(s, Dword(p), 4) && ReadOp(s, Dword(p), W32) == Get32(s.mem, p)
    ensures WriteOp(s, Dword(p), W32, v) == s.(mem := Put32(s.mem, p, v))
  {
    hide Get32, Put32;
    assert EffAddr(s, Dword(p).ref) == p;
  }

  /** op dword [p], src */
  function LimbInstr(s: State, op: Arith, p: nat, src: Operand, len: nat): State
    requires p + 4 <= MEM_SIZE && (src.R? || src.I?)
  {
    DwordOperand(s, p, 0);
    ArithInstr(s, op, W32, Dword(p), src, len)
  }

  /** op on the dword at p, then Onward(op) on each dword above it, with one source operand each. */
  function LimbRun(s: State, op: Arith, p: nat, srcs: seq<Operand>, len: nat): State
    requires p + 4 * |srcs| <= MEM_SIZE && Steady(srcs)
    decreases |srcs|
  {
    if srcs == [] then s
    else LimbRun(LimbInstr(s, op, p, srcs[0], len), Onward(op), p + 4, srcs[1..], len)
  }

  function SourceValues(s: State, srcs: seq<Operand>): (r: seq<Word>)
    requires Steady(srcs)
    ensures |r| == |srcs|
  {
    if srcs == [] then [] else [ReadOp(s, srcs[0], W32)] + SourceValues(s, srcs[1..])
  }

  /** The chain of limb operations that an instruction starts. */
  function ChainOf(op: Arith, xs: seq<Word>, ys: seq<Word>, e: Word): (r: ChainOut)
    requires |xs| == |ys|
    ensures |r.limbs| == |xs|
  {
    if xs == [] then ChainOut([], e)
    else
      match op
      case ADD => AddChain(xs, ys, e)
      case ADC => AdcChain(xs, ys, e)
      case SUB => SubChain(xs, ys, e)
      case SBB => SbbChain(xs, ys, e)
  }

  lemma ChainStep(op: Arith, xs: seq<Word>, ys: seq<Word>, e: Word)
    requires |xs| == |ys| > 0
    ensures var o := Compute(op, W32, xs[0], ys[0], e);
            ChainOf(op, xs, ys, e) == Prepend(o, ChainOf(Onward(op), xs[1..], ys[1..], o.eflags))
  {
    hide Add, Adc, Sub, Sbb;
  }

  lemma {:induction false} SourcesSteady(s: State, s': State, srcs: seq<Operand>)
    requires Steady(srcs) && s'.regs == s.regs
    ensures SourceValues(s', srcs) == SourceValues(s, srcs)
  {
    if srcs != [] {
      SourcesSteady(s, s', srcs[1..]);
    }
  }

  /** One instruction on the dword at p. */
  lemma LimbStep(s: State, op: Arith, p: nat, src: Operand, len: nat)
    requires p + 4 <= MEM_SIZE && (src.R? || src.I?)
    ensures var out := Compute(op, W32, Get32(s.mem, p), ReadOp(s, src, W32), s.eflags);
            LimbInstr(s, op, p, src, len) ==
            s.Advance(len).(mem := Put32(s.mem, p, out.res), eflags := out.eflags)
  {
    hide Compute, Get32, Put32, ReadOp, WriteOp, Dword, EffAddr;
    var out := Compute(op, W32, Get32(s.mem, p), ReadOp(s, src, W32), s.eflags);
    DwordOperand(s, p, out.res);
  }

  /** t follows from s by op and its onward instructions on the dwords in [p, hi). */
  ghost predicate Computed(s: State, t: State, op: Arith, p: nat, hi: nat, srcs: seq<Operand>)
    requires p <= hi <= MEM_SIZE && Steady(srcs)
  {
    var xs := Dwords(s.mem, p, hi);
    && |xs| == |srcs|
    && ChainOut(Dwords(t.mem, p, hi), t.eflags) == ChainOf(op, xs, SourceValues(s, srcs), s.eflags)
    && t.regs == s.regs && t.segs == s.segs && t.gdtr == s.gdtr && SameOutside(s.mem, t.mem, p, hi)
  }

  lemma ComputedNone(s: State, op: Arith, p: nat, srcs: seq<Operand>)
    requires p <= MEM_SIZE && srcs == []
    ensures Computed(s, s, op, p, p, srcs)
  {
  }

  /** One limb below a computed run. */
  lemma ComputedStep(s: State, s1: State, t: State, op: Arith, p: nat, hi: nat, srcs: seq<Operand>)
    requires p + 4 <= hi <= MEM_SIZE && Steady(srcs) && srcs != []
    requires s1.regs == s.regs && s1.segs == s.segs && s1.gdtr == s.gdtr
    requires var o := Compute(op, W32, Get32(s.mem, p), ReadOp(s, srcs[0], W32), s.eflags);
             s1.mem == Put32(s.mem, p, o.res) && s1.eflags == o.eflags
    requires Computed(s1, t, Onward(op), p + 4, hi, srcs[1..])
    ensures Computed(s, t, op, p, hi, srcs)
  {
    hide Compute, Get32, Put32, ChainOf, ReadOp;
    var o := Compute(op, W32, Get32(s.mem, p), ReadOp(s, srcs[0], W32), s.eflags);
    SourcesSteady(s, s1, srcs[1..]);
    StoreBelow(s.mem, p, o.res, hi);
    SameWord(s1.mem, t.mem, p);
    ChainStep(op, Dwords(s.mem, p, hi), SourceValues(s, srcs), s.eflags);
  }

  /** The limbs in memory become the chain's limbs, CF its carry, and nothing else changes but eip. */
  lemma {:induction false} LimbRunComputes(s: State, op: Arith, p: nat, srcs: seq<Operand>, len: nat)
    requires p + 4 * |srcs| <= MEM_SIZE && Steady(srcs)
    ensures Computed(s, LimbRun(s, op, p, srcs, len), op, p, p + 4 * |srcs|, srcs)
    decreases |srcs|
  {
    hide Compute, Get32, Put32, LimbInstr, Computed, ReadOp;
    if srcs == [] {
      ComputedNone(s, op, p, srcs);
    } else {
      var s1 := LimbInstr(s, op, p, srcs[0], len);
      LimbStep(s, op, p, srcs[0], len);
      LimbRunComputes(s1, Onward(op), p + 4, srcs[1..], len);
      ComputedStep(s, s1, LimbRun(s, op, p, srcs, len), op, p, p + 4 * |srcs|, srcs);
    }
  }

  /** A store to the dword at p leaves the dwords above it. */
  lemma StoreBelow(m: Mem, p: nat, v: Word, hi: nat)
    requires p + 4 <= hi <= MEM_SIZE
    ensures Get32(Put32(m, p, v), p) == v && Dwords(Put32(m, p, v), p + 4, hi) == Dwords(m, p + 4, hi)
    ensures SameOutside(m, Put32(m, p, v), p, p + 4)
  {
    ReadBack(m, p, v);
    hide Bytes32;
    DwordsFrame(m, Put32(m, p, v), p + 4, hi);
  }

  /** Equal dwords are equal bytes. */
  lemma {:induction false} DwordsDetermine(m: Mem, m': Mem, lo: nat, hi: nat, j: nat)
    requires lo <= j < hi <= MEM_SIZE && (hi - lo) % 4 == 0 && Dwords(m, lo, hi) == Dwords(m', lo, hi)
    ensures m'[j] == m[j]
    decreases hi - lo
  {
    hide Get32;
    var d, d' := Dwords(m, lo, hi), Dwords(m', lo, hi);
    assert d[0] == Get32(m, lo) && d'[0] == Get32(m', lo);
    assert d[1..] == Dwords(m, lo + 4, hi) && d'[1..] == Dwords(m', lo + 4, hi);
    if j < lo + 4 {
      BytesOfGet(m, lo);
      BytesOfGet(m', lo);
      assert m[lo..lo + 4][j - lo] == m'[lo..lo + 4][j - lo];
    } else {
      DwordsDetermine(m, m', lo + 4, hi, j);
    }
  }

  /** In memory: ADD/ADC leaves the sum with its carry exactly when no carry is lost. */
  lemma AdditionInMemory(s: State, p: nat, srcs: seq<Operand>, len: nat)
    requires p + 4 * |srcs| <= MEM_SIZE && Steady(srcs) && srcs != []
    ensures var t := LimbRun(s, ADD, p, srcs, len); var hi := p + 4 * |srcs|;
            var xs, ys := Dwords(s.mem, p, hi), SourceValues(s, srcs);
            && |xs| == |ys|
            && (IsSum(ChainOut(Dwords(t.mem, p, hi), t.eflags), Value(xs) + Value(ys)) <==> !LosesCarry(xs, ys, 0))
            && SameOutside(s.mem, t.mem, p, hi)
  {
    hide IsSum, LosesCarry, AddChain, LimbRun, SourceValues, Dwords;
    LimbRunComputes(s, ADD, p, srcs, len);
    AddChainExact(Dwords(s.mem, p, p + 4 * |srcs|), SourceValues(s, srcs), s.eflags);
  }

  /** In memory: SUB/SBB leaves the difference with its borrow exactly when no borrow is lost. */
  lemma SubtractionInMemory(s: State, p: nat, srcs: seq<Operand>, len: nat)
    requires p + 4 * |srcs| <= MEM_SIZE && Steady(srcs) && srcs != []
    ensures var t := LimbRun(s, SUB, p, srcs, len); var hi := p + 4 * |srcs|;
            var xs, ys := Dwords(s.mem, p, hi), SourceValues(s, srcs);
            && |xs| == |ys|
            && (IsDifference(ChainOut(Dwords(t.mem, p, hi), t.eflags), Value(xs), Value(ys)) <==>
                !LosesBorrow(xs, ys, 0))
            && SameOutside(s.mem, t.mem, p, hi)
  {
    hide IsDifference, LosesBorrow, SubChain, LimbRun, SourceValues, Dwords;
    LimbRunComputes(s, SUB, p, srcs, len);
    SubChainExact(Dwords(s.mem, p, p + 4 * |srcs|), SourceValues(s, srcs), s.eflags);
  }

  /** In memory: SUB/SBB of the same operands undoes ADD/ADC, byte for byte, and repeats its carry flag. */
  lemma SubtractionUndoesAddition(s: State, p: nat, srcs: seq<Operand>, len: nat)
    requires p + 4 * |srcs| <= MEM_SIZE && Steady(srcs) && srcs != []
    ensures var t := LimbRun(s, ADD, p, srcs, len); var u := LimbRun(t, SUB, p, srcs, len);
            u.mem == s.mem && u.regs == s.regs && (TestFlag(u.eflags, CF) <==> TestFlag(t.eflags, CF))
  {
    hide AddChain, SubChain, LimbRun, SourceValues, Dwords, TestFlag;
    var t := LimbRun(s, ADD, p, srcs, len);
    var u := LimbRun(t, SUB, p, srcs, len);
    var hi := p + 4 * |srcs|;
    LimbRunComputes(s, ADD, p, srcs, len);
    LimbRunComputes(t, SUB, p, srcs, len);
    SourcesSteady(s, t, srcs);
    SubChainUndoesAddChain(Dwords(s.mem, p, hi), SourceValues(s, srcs), s.eflags, t.eflags);
    forall j | 0 <= j < MEM_SIZE ensures u.mem[j] == s.mem[j] {
      if p <= j < hi {
        DwordsDetermine(s.mem, u.mem, p, hi, j);
      }
    }
  }
}
