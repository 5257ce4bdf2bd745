/** A multi-limb right shift in memory, run instruction by instruction through one scratch register. */
module ShiftRuns {
  import opened Bits
  import opened Words
  import opened Alu
  import opened Machine
  import opened Stack
  import opened Limbs
  import opened Shifts
  import opened AluInstr
  import opened LimbRuns

  /** mov r, dword [a] */
  function Load(s: State, r: Reg, a: nat, len: nat): State
    requires a + 4 <= MEM_SIZE
  {
    DwordOperand(s, a, 0);
    MovInstr(s, R(r), Dword(a), len)
  }

  /** mov dword [a], r */
  function Store(s: State, a: nat, r: Reg, len: nat): State
    requires a + 4 <= MEM_SIZE
  {
    DwordOperand(s, a, 0);
    MovInstr(s, Dword(a), R(r), len)
  }

  /** shrd dword [a], r, count */
  function ShiftLimb(s: State, a: nat, r: Reg, count: Byte, len: nat): State
    requires a + 4 <= MEM_SIZE
  {
    DwordOperand(s, a, 0);
    ShrdInstr(s, Dword(a), r, count, len)
  }

  /** Each dword takes the low bits of the one above it, loaded into r; the top one is shifted in r and stored. */
  function ShiftRun(s: State, p: nat, n: nat, r: Reg, count: Byte, len: nat): State
    requires n > 0 && p + 4 * n <= MEM_SIZE
    decreases n
  {
    if n == 1 then
      Store(ShrRegister(Load(s, r, p, len), r, count, len), p, r, len)
    else
      ShiftRun(ShiftLimb(Load(s, r, p + 4, len), p, r, count, len), p + 4, n - 1, r, count, len)
  }

  lemma RegisterFile(rs: Regs, r: Reg, v: Word, w: Word)
    ensures rs.Set(r, v).Get(r) == v && rs.Set(r, v).Set(r, w) == rs.Set(r, w)
  {
  }

  lemma LoadFacts(s: State, r: Reg, a: nat, len: nat)
    requires a + 4 <= MEM_SIZE
    ensures Load(s, r, a, len) == s.Advance(len).(regs := s.regs.Set(r, Get32(s.mem, a)))
  {
    hide Get32, Dword, EffAddr, Regs.Set, Regs.Get;
    DwordOperand(s, a, 0);
  }

  lemma StoreFacts(s: State, a: nat, r: Reg, len: nat)
    requires a + 4 <= MEM_SIZE
    ensures Store(s, a, r, len) == s.Advance(len).(mem := Put32(s.mem, a, s.regs.Get(r)))
  {
    hide Put32, Dword, WriteOp, ReadOp, EffAddr, Regs.Get;
    RegisterValue(s, r);
    DwordOperand(s, a, s.regs.Get(r));
  }

  lemma ShiftLimbFacts(s: State, a: nat, r: Reg, count: Byte, len: nat)
    requires a + 4 <= MEM_SIZE
    ensures var out := Shrd(Get32(s.mem, a), s.regs.Get(r), count, s.eflags);
            ShiftLimb(s, a, r, count, len) == s.Advance(len).(mem := Put32(s.mem, a, out.res), eflags := out.eflags)
  {
    assert Dword(a) != R(r);
    hide Put32, Get32, Dword, EffAddr, WriteOp, ReadOp, Regs.Get, Shrd;
    DwordOperand(s, a, Shrd(Get32(s.mem, a), s.regs.Get(r), count, s.eflags).res);
  }

  /** t follows from s by the shift of the dwords in [p, hi): only they, r, eip and the flags have changed. */
  ghost predicate Shifted(s: State, t: State, p: nat, hi: nat, r: Reg, count: Byte)
    requires p < hi <= MEM_SIZE
  {
    var xs := Dwords(s.mem, p, hi);
    && xs != [] && ChainOut(Dwords(t.mem, p, hi), t.eflags) == ShiftChain(xs, count, s.eflags)
    && t.regs == s.regs.Set(r, t.regs.Get(r)) && t.segs == s.segs && t.gdtr == s.gdtr
    && SameOutside(s.mem, t.mem, p, hi)
  }

  /** The top limb. */
  lemma ShiftTop(s: State, p: nat, r: Reg, count: Byte, len: nat)
    requires p + 4 <= MEM_SIZE
    ensures Shifted(s, ShiftRun(s, p, 1, r, count, len), p, p + 4, r, count)
  {
    hide Get32, Put32, ShrInstr, Regs.Get, Regs.Set, Load, Store;
    var x := Get32(s.mem, p);
    var s1 := Load(s, r, p, len);
    LoadFacts(s, r, p, len);
    RegisterFile(s.regs, r, x, ShrInstr(x, count, s.eflags).res);
    var s2 := ShrRegister(s1, r, count, len);
    var out := ShrInstr(x, count, s.eflags);
    RegisterFile(s.regs, r, out.res, out.res);
    StoreFacts(s2, p, r, len);
    StoreBelow(s.mem, p, out.res, p + 4);
    OneDword(s.mem, p);
    OneDword(Put32(s.mem, p, out.res), p);
  }

  lemma OneDword(m: Mem, p: nat)
    requires p + 4 <= MEM_SIZE
    ensures Dwords(m, p, p + 4) == [Get32(m, p)]
  {
    hide Get32;
  }

  /** One limb below a shifted run. */
  lemma ShiftedStep(s: State, s2: State, t: State, p: nat, hi: nat, r: Reg, count: Byte)
    requires p + 8 <= hi <= MEM_SIZE
    requires s2.regs == s.regs.Set(r, s2.regs.Get(r)) && s2.segs == s.segs && s2.gdtr == s.gdtr
    requires var out := Shrd(Get32(s.mem, p), Get32(s.mem, p + 4), count, s.eflags);
             s2.mem == Put32(s.mem, p, out.res) && s2.eflags == out.eflags
    requires Shifted(s2, t, p + 4, hi, r, count)
    ensures Shifted(s, t, p, hi, r, count)
  {
    hide Get32, Put32, Shrd, ShrInstr, Regs.Get, Regs.Set;
    var out := Shrd(Get32(s.mem, p), Get32(s.mem, p + 4), count, s.eflags);
    StoreBelow(s.mem, p, out.res, hi);
    SameWord(s2.mem, t.mem, p);
    RegisterFile(s.regs, r, s2.regs.Get(r), t.regs.Get(r));
    var xs := Dwords(s.mem, p, hi);
    assert xs[0] == Get32(s.mem, p) && xs[1] == Get32(s.mem, p + 4) && xs[1..] == Dwords(s.mem, p + 4, hi);
    assert Dwords(t.mem, p, hi) == [out.res] + Dwords(t.mem, p + 4, hi);
  }

  /** The run computes the limb chain in memory. */
  lemma {:induction false} ShiftRunComputes(s: State, p: nat, n: nat, r: Reg, count: Byte, len: nat)
    requires n > 0 && p + 4 * n <= MEM_SIZE
    ensures Shifted(s, ShiftRun(s, p, n, r, count, len), p, p + 4 * n, r, count)
    decreases n
  {
    hide Get32, Put32, Shrd, Regs.Get, Regs.Set, Load, ShiftLimb, Store, Shifted;
    if n == 1 {
      ShiftTop(s, p, r, count, len);
    } else {
      var y := Get32(s.mem, p + 4);
      var s1 := Load(s, r, p + 4, len);
      LoadFacts(s, r, p + 4, len);
      RegisterFile(s.regs, r, y, y);
      var s2 := ShiftLimb(s1, p, r, count, len);
      ShiftLimbFacts(s1, p, r, count, len);
      ShiftRunComputes(s2, p + 4, n - 1, r, count, len);
      ShiftedStep(s, s2, ShiftRun(s, p, n, r, count, len), p, p + 4 * n, r, count);
    }
  }

  /** In memory: the n-limb number at p is divided by 2^k, and only its dwords and the scratch register change. */
  lemma ShiftInMemory(s: State, p: nat, n: nat, r: Reg, k: Byte, len: nat)
    requires n > 0 && p + 4 * n <= MEM_SIZE && 0 < k < 32
    ensures var t := ShiftRun(s, p, n, r, k, len); var hi := p + 4 * n;
            && Value(Dwords(t.mem, p, hi)) == Value(Dwords(s.mem, p, hi)) / Pow2(k)
            && SameOutside(s.mem, t.mem, p, hi) && t.regs == s.regs.Set(r, t.regs.Get(r))
  {
    hide ShiftRun, Dwords, ShiftChain, SameOutside, Pow2, Regs.Get, Regs.Set, Value;
    ShiftRunComputes(s, p, n, r, k, len);
    ShiftChainDivides(Dwords(s.mem, p, p + 4 * n), k, s.eflags);
  }
}
