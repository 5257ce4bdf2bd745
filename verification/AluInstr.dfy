/** Arithmetic, conditional, division and shift instructions on the mutable processor (src/instr.c). */
module AluInstr {
  import opened Bits
  import opened Words
  import opened Flags
  import opened Alu
  import opened Machine
  import opened Division
  import opened Shifts

  // ---------------------------------------------------------------- ADD, ADC, SUB, SBB, CMP

  datatype Arith = ADD | ADC | SUB | SBB

  /** SUB and SBB are modelled for 32-bit operands. */
  predicate Modelled(op: Arith, w: Width) {
    op.ADD? || op.ADC? || w.W32?
  }

  function Compute(op: Arith, w: Width, a: Word, b: Word, e: Word): (out: AluOut)
    requires Modelled(op, w)
    ensures out.res < w.Modulus()
  {
    match op
    case ADD => Add(w, a, b, e)
    case ADC => Adc(w, a, b, e)
    case SUB => Sub(a, b, e)
    case SBB => Sbb(a, b, e)
  }

  predicate Operable(s: State, dst: Operand, src: Operand, w: Width) {
    !dst.I? && Accessible(s, dst, Size(w)) && Accessible(s, src, Size(w))
  }

  function ArithInstr(s: State, op: Arith, w: Width, dst: Operand, src: Operand, len: nat): State
    requires Modelled(op, w) && Operable(s, dst, src, w)
  {
    var out := Compute(op, w, ReadOp(s, dst, w), ReadOp(s, src, w), s.eflags);
    WriteOp(s, dst, w, out.res).(eip := Wrap(s.eip + len), eflags := out.eflags)
  }

  function CmpInstr(s: State, dst: Operand, src: Operand, len: nat): State
    requires Accessible(s, dst, 4) && Accessible(s, src, 4)
  {
    s.Advance(len).(eflags := Cmp(ReadOp(s, dst, W32), ReadOp(s, src, W32), s.eflags))
  }

  method AssignFlag(cpu: Cpu, f: Word, b: bool)
    modifies cpu`eflags
    ensures cpu.eflags == Assign(old(cpu.eflags), f, b)
  {
    if b {
      cpu.eflags := SetFlag(cpu.eflags, f);
    } else {
      cpu.eflags := ClearFlag(cpu.eflags, f);
    }
  }

  /** The six flag assignments that end the arithmetic instructions. */
  method AssignArithFlags(cpu: Cpu, w: Width, val1: Word, val2: Word, res: Word, cf: bool)
    modifies cpu`eflags
    ensures AluOut(res, cpu.eflags) == Flagged(w, val1, val2, res, cf, old(cpu.eflags))
  {
    hide Assign, Overflow, Sign, Adjust, EvenOnes;
    AssignFlag(cpu, CF, cf);
    AssignFlag(cpu, OF, Overflow(val1, val2, res, w.Bits()));
    AssignFlag(cpu, SF, Sign(res, w.Bits()));
    AssignFlag(cpu, ZF, Zero(res));
    AssignFlag(cpu, AF, Adjust(val1, val2, res));
    var p := Parity(res);
    AssignFlag(cpu, PF, p);
  }

  method ArithResult(op: Arith, w: Width, val1: Word, val2: Word, e: Word) returns (res: Word)
    requires Modelled(op, w)
    ensures res == Compute(op, w, val1, val2, e).res
  {
    hide TestFlag;
    match op {
      case ADD => res := (val1 + val2) % w.Modulus();
      case ADC => res := (val1 + val2 + Carry(e)) % w.Modulus();
      case SUB => res := Wrap(val1 - val2);
      case SBB => res := Wrap(val1 - val2 - Carry(e));
    }
  }

  /** The source value of SBB has the new CF added before the flag tests. */
  method ArithEflags(cpu: Cpu, op: Arith, w: Width, val1: Word, val2: Word, res: Word)
    requires Modelled(op, w) && res == Compute(op, w, val1, val2, cpu.eflags).res
    modifies cpu`eflags
    ensures cpu.eflags == Compute(op, w, val1, val2, old(cpu.eflags)).eflags
  {
    hide ArithFlags, Overflow, Sign, Adjust, EvenOnes, TestFlag;
    var e := cpu.eflags;
    match op {
      case ADD => AssignArithFlags(cpu, w, val1, val2, res, val1 > res);
      case ADC => AssignArithFlags(cpu, w, val1, val2, res, val1 > res);
      case SUB => AssignArithFlags(cpu, w, val1, val2, res, val1 < val2);
      case SBB =>
        var cf := val1 < Wrap(val2 + Carry(e));
        AssignArithFlags(cpu, w, val1, Wrap(val2 + ToCarry(cf)), res, cf);
    }
  }

  method ArithI(cpu: Cpu, op: Arith, w: Width, dst: Operand, src: Operand, len: nat)
    requires cpu.Valid() && Modelled(op, w) && Operable(cpu.Abs(), dst, src, w)
    modifies cpu, cpu.mem
    ensures cpu.Abs() == ArithInstr(old(cpu.Abs()), op, w, dst, src, len)
  {
    hide Accessible, Compute, ReadOp, WriteMem, EffAddr, Merge;
    var val2 := cpu.ReadOperand(src, w);
    var val1 := cpu.ReadOperand(dst, w);
    var res := ArithResult(op, w, val1, val2, cpu.eflags);
    cpu.WriteOperand(dst, w, res);
    ArithEflags(cpu, op, w, val1, val2, res);
    cpu.eip := Wrap(cpu.eip + len);
  }

  /**
   * ADD, ADC, SUB and SBB on the machine: the destination's own bits or bytes hold the result, those beside them
   * stay, and the flags are those of the operand values.
   */
  lemma ArithStores(s: State, op: Arith, w: Width, dst: Operand, src: Operand, len: nat)
    requires Modelled(op, w) && Operable(s, dst, src, w)
    ensures var s' := ArithInstr(s, op, w, dst, src, len); var m, c := w.Modulus(), Carry(s.eflags);
            var a, b := OperandValue(s, dst, w), OperandValue(s, src, w);
            && Stored(s, s', dst, w, (match op case ADD => a + b case ADC => a + b + c
                                               case SUB => a - b case SBB => a - b - c) % m)
            && s' == s.(regs := s'.regs, mem := s'.mem, eip := Wrap(s.eip + len), eflags := s'.eflags)
            && (op.SUB? ==> s'.eflags == Sub(a, b, s.eflags).eflags)
            && (op.SBB? ==> s'.eflags == Sbb(a, b, s.eflags).eflags)
    ensures op.ADD? || op.ADC? ==>
              var s' := ArithInstr(s, op, w, dst, src, len); var m := w.Modulus();
              var a, b := OperandValue(s, dst, w), OperandValue(s, src, w);
              var c := if op.ADC? then Carry(s.eflags) else 0;
              && AdditionFlags(w, a, b, c, (a + b + c) % m, s.eflags, s'.eflags)
              && ((TestFlag(s'.eflags, CF) <==> a + b % m + c >= m) <==> !(c == 1 && b % m == m - 1))
  {
    hide ReadOp, OperandValue, Compute, AdditionFlags, TestFlag, Accessible, Stored, WriteOp, Wrap, Sub, Sbb;
    ReadValue(s, dst, w);
    ReadValue(s, src, w);
    SmallOperand(s, dst, w);
    var a, b := ReadOp(s, dst, w), ReadOp(s, src, w);
    ComputeValue(op, w, a, b, s.eflags);
    var out := Compute(op, w, a, b, s.eflags);
    StoreAndStep(s, dst, w, out.res, Wrap(s.eip + len), out.eflags);
  }

  /** An instruction that stores its result and sets eip and the flags. */
  lemma StoreAndStep(s: State, o: Operand, w: Width, v: Word, eip: Word, eflags: Word)
    requires !o.I? && Accessible(s, o, Size(w)) && v < w.Modulus()
    ensures var s' := WriteOp(s, o, w, v).(eip := eip, eflags := eflags);
            Stored(s, s', o, w, v) && s' == s.(regs := s'.regs, mem := s'.mem, eip := eip, eflags := eflags)
  {
    hide WriteOp, Accessible;
    WriteStores(s, o, w, v);
    StoredElsewhere(s, WriteOp(s, o, w, v), WriteOp(s, o, w, v).(eip := eip, eflags := eflags), o, w, v);
    hide Stored;
  }

  lemma ComputeValue(op: Arith, w: Width, a: Word, b: Word, e: Word)
    requires Modelled(op, w) && a < w.Modulus()
    ensures var out, m, c := Compute(op, w, a, b, e), w.Modulus(), Carry(e);
            && out.res == (match op case ADD => a + b case ADC => a + b + c case SUB => a - b case SBB => a - b - c) % m
            && (op.SUB? ==> out.eflags == Sub(a, b, e).eflags) && (op.SBB? ==> out.eflags == Sbb(a, b, e).eflags)
    ensures op.ADD? || op.ADC? ==>
              var out, m, c := Compute(op, w, a, b, e), w.Modulus(), if op.ADC? then Carry(e) else 0;
              && AdditionFlags(w, a, b, c, (a + b + c) % m, e, out.eflags)
              && ((TestFlag(out.eflags, CF) <==> a + b % m + c >= m) <==> !(c == 1 && b % m == m - 1))
  {
    hide ArithFlags, Overflow, Sign, Adjust, EvenOnes, AdditionFlags, TestFlag;
    match op {
      case ADD => AddCorrect(w, a, b, e);
      case ADC => AdcCorrect(w, a, b, e);
      case SUB =>
      case SBB =>
    }
  }

  lemma SmallOperand(s: State, o: Operand, w: Width)
    requires !o.I? && Accessible(s, o, Size(w))
    ensures ReadOp(s, o, w) < w.Modulus()
  {
    hide Regs.Get, EffAddr;
  }

  /** What a store leaves does not depend on eip and the flags. */
  lemma StoredElsewhere(s: State, t: State, s': State, o: Operand, w: Width, v: int)
    requires !o.I? && Accessible(s, o, Size(w)) && Stored(s, t, o, w, v) && s'.regs == t.regs && s'.mem == t.mem
    ensures Stored(s, s', o, w, v)
  {
    hide Regs.Get, LittleEndian, EffAddr, SameOutside;
  }

  method CmpI(cpu: Cpu, dst: Operand, src: Operand, len: nat)
    requires cpu.Valid() && Accessible(cpu.Abs(), dst, 4) && Accessible(cpu.Abs(), src, 4)
    modifies cpu
    ensures cpu.Abs() == CmpInstr(old(cpu.Abs()), dst, src, len)
  {
    hide Accessible, Flagged, ReadOp;
    var val2 := cpu.ReadOperand(src, W32);
    var val1 := cpu.ReadOperand(dst, W32);
    var res: Word := Wrap(val1 as int - val2);
    AssignArithFlags(cpu, W32, val1, val2, res, val1 < val2);
    cpu.eip := Wrap(cpu.eip + len);
  }

  // ---------------------------------------------------------------- MOV

  /** 32-bit MOV. */
  function MovInstr(s: State, dst: Operand, src: Operand, len: nat): State
    requires !dst.I? && Accessible(s, dst, 4) && Accessible(s, src, 4)
  {
    WriteOp(s, dst, W32, ReadOp(s, src, W32)).(eip := Wrap(s.eip + len))
  }

  method MovI(cpu: Cpu, dst: Operand, src: Operand, len: nat)
    requires cpu.Valid() && !dst.I? && Accessible(cpu.Abs(), dst, 4) && Accessible(cpu.Abs(), src, 4)
    modifies cpu, cpu.mem
    ensures cpu.Abs() == MovInstr(old(cpu.Abs()), dst, src, len)
  {
    hide Accessible, ReadOp, WriteMem, EffAddr, Merge;
    var val := cpu.ReadOperand(src, W32);
    cpu.WriteOperand(dst, W32, val);
    cpu.eip := Wrap(cpu.eip + len);
  }

  // ---------------------------------------------------------------- conditions

  datatype Cond = Above | AboveEqual | Below | BelowEqual | Equal | NotEqual

  /** The flag test of JA/SETA, JAE/SETAE, JB/SETB, JBE/SETBE, JE/SETE and JNE/SETNE. */
  predicate Holds(c: Cond, e: Word) {
    match c
    case Above => !TestFlag(e, CF) && !TestFlag(e, ZF)
    case AboveEqual => !TestFlag(e, CF)
    case Below => TestFlag(e, CF)
    case BelowEqual => TestFlag(e, CF) || TestFlag(e, ZF)
    case Equal => TestFlag(e, ZF)
    case NotEqual => !TestFlag(e, ZF)
  }

  /** The relation on natural numbers that the condition is named after. */
  predicate Relation(c: Cond, a: nat, b: nat) {
    match c
    case Above => a > b
    case AboveEqual => a >= b
    case Below => a < b
    case BelowEqual => a <= b
    case Equal => a == b
    case NotEqual => a != b
  }

  /** The conditional jumps: the unsigned ones, and JL, JGE, JG, JLE and JNG. */
  datatype Branch = Unsigned(c: Cond) | Less | GreaterEqual | Greater | LessEqual | NotGreater

  /** The flag test of each jump; JLE joins its two halves by && where JNG has ||. */
  predicate Branches(b: Branch, e: Word) {
    match b
    case Unsigned(c) => Holds(c, e)
    case Less => TestFlag(e, SF) != TestFlag(e, OF)
    case GreaterEqual => TestFlag(e, SF) == TestFlag(e, OF)
    case Greater => !TestFlag(e, ZF) && TestFlag(e, SF) == TestFlag(e, OF)
    case LessEqual => TestFlag(e, ZF) && TestFlag(e, SF) != TestFlag(e, OF)
    case NotGreater => TestFlag(e, ZF) || TestFlag(e, SF) != TestFlag(e, OF)
  }

  /** The relation that a jump is named after, on naturals or on signed numbers. */
  predicate Meaning(b: Branch, x: Word, y: Word) {
    match b
    case Unsigned(c) => Relation(c, x, y)
    case Less => Signed(x) < Signed(y)
    case GreaterEqual => Signed(x) >= Signed(y)
    case Greater => Signed(x) > Signed(y)
    case LessEqual => Signed(x) <= Signed(y)
    case NotGreater => Signed(x) <= Signed(y)
  }

  /** Operands for which the test after CMP decides the relation. */
  predicate Decides(b: Branch, x: Word, y: Word) {
    var p, q := Signed(x), Signed(y);
    match b
    case Unsigned(_) => true
    case Less => OverflowTold(p, q)
    case GreaterEqual => OverflowTold(p, q)
    case Greater => p == q || OverflowTold(p, q)
    case NotGreater => p == q || OverflowTold(p, q)
    case LessEqual => p > q || p == q < 0
  }

  /** The target operand is read only when the jump is taken. */
  function JumpInstr(s: State, b: Branch, target: Operand, len: nat): State
    requires Branches(b, s.eflags) ==> Accessible(s, target, 4)
  {
    if Branches(b, s.eflags) then s.(eip := ReadOp(s, target, W32)) else s.Advance(len)
  }

  function SetInstr(s: State, c: Cond, dst: Operand, len: nat): State
    requires !dst.I? && Accessible(s, dst, 1)
  {
    WriteOp(s, dst, W8, if Holds(c, s.eflags) then 1 else 0).(eip := Wrap(s.eip + len))
  }

  method JumpI(cpu: Cpu, b: Branch, target: Operand, len: nat)
    requires cpu.Valid() && (Branches(b, cpu.eflags) ==> Accessible(cpu.Abs(), target, 4))
    modifies cpu`eip
    ensures cpu.Abs() == JumpInstr(old(cpu.Abs()), b, target, len)
  {
    hide Accessible, ReadOp, TestFlag;
    if Branches(b, cpu.eflags) {
      cpu.eip := cpu.ReadOperand(target, W32);
    } else {
      cpu.eip := Wrap(cpu.eip + len);
    }
  }

  method SetI(cpu: Cpu, c: Cond, dst: Operand, len: nat)
    requires cpu.Valid() && !dst.I? && Accessible(cpu.Abs(), dst, 1)
    modifies cpu, cpu.mem
    ensures cpu.Abs() == SetInstr(old(cpu.Abs()), c, dst, len)
  {
    hide Accessible, WriteMem, EffAddr, Merge, TestFlag;
    cpu.WriteOperand(dst, W8, if Holds(c, cpu.eflags) then 1 else 0);
    cpu.eip := Wrap(cpu.eip + len);
  }

  /** After CMP of a and b each condition holds exactly when its relation does. */
  lemma ConditionsAfterCmp(a: Word, b: Word, e: Word, c: Cond)
    ensures Holds(c, Cmp(a, b, e)) <==> Relation(c, a, b)
  {
    hide TestFlag, Sub;
    SubCorrect(a, b, e);
  }

  /** After CMP a jump's test decides the relation it is named after exactly for these operands. */
  lemma BranchesAfterCmp(x: Word, y: Word, e: Word, b: Branch)
    ensures (Branches(b, Cmp(x, y, e)) <==> Meaning(b, x, y)) <==> Decides(b, x, y)
  {
    hide TestFlag, Sub, OverflowTold, EvenOnes, OthersKept;
    match b {
      case Unsigned(c) =>
        hide Holds, Relation;
        ConditionsAfterCmp(x, y, e, c);
      case _ =>
        SubCorrect(x, y, e);
        SubOverflowExact(x, y, e);
        EqualOperands(x, y);
        hide Wrap;
        DifferenceSign(x, y);
    }
  }

  lemma EqualOperands(x: Word, y: Word)
    ensures Signed(x) == Signed(y) <==> x == y
    ensures x == y ==> Signed(Wrap(x - y)) == 0
  {
  }

  /** The sign of the wrapped difference is the true one unless the difference overflows. */
  lemma DifferenceSign(x: Word, y: Word)
    ensures (Signed(Wrap(x - y)) < 0 <==> Signed(x) < Signed(y)) <==> InRange(Signed(x) - Signed(y))
  {
  }

  /**
   * CMP then a conditional jump goes to the target exactly when the relation holds, and else to the next
   * instruction: always for the unsigned jumps, and for the signed ones exactly when their test decides it.
   */
  lemma CmpThenJump(s: State, dst: Operand, src: Operand, len: nat, b: Branch, target: Word, len': nat)
    requires Accessible(s, dst, 4) && Accessible(s, src, 4)
    ensures var s' := JumpInstr(CmpInstr(s, dst, src, len), b, I(target), len');
            var x, y := OperandValue(s, dst, W32), OperandValue(s, src, W32);
            var next := Wrap(Wrap(s.eip + len) + len');
            && (s'.eip == (if Meaning(b, x, y) then target else next) <==> Decides(b, x, y) || target == next)
            && s' == s.(eip := s'.eip, eflags := Cmp(x, y, s.eflags))
  {
    hide Cmp, ReadOp, OperandValue, Branches, Meaning, Decides;
    ReadValue(s, dst, W32);
    ReadValue(s, src, W32);
    BranchesAfterCmp(ReadOp(s, dst, W32), ReadOp(s, src, W32), s.eflags, b);
    ImmediateValue(CmpInstr(s, dst, src, len), target);
  }

  /** CMP 0, 1 does not satisfy JL, and CMP 0, 0 does not satisfy JLE. */
  lemma SignedJumpExample(e: Word)
    ensures !Branches(Less, Cmp(0, 1, e)) && Meaning(Less, 0, 1)
    ensures !Branches(LessEqual, Cmp(0, 0, e)) && Meaning(LessEqual, 0, 0)
  {
    hide Cmp, Branches;
    BranchesAfterCmp(0, 1, e, Less);
    BranchesAfterCmp(0, 0, e, LessEqual);
  }

  lemma ImmediateValue(s: State, v: Word)
    ensures ReadOp(s, I(v), W32) == v
  {
  }

  /** CMP writes neither registers nor memory, so it moves no operand. */
  lemma CmpKeepsAddresses(s: State, dst: Operand, src: Operand, len: nat, o: Operand)
    requires Accessible(s, dst, 4) && Accessible(s, src, 4) && Accessible(s, o, 1)
    ensures Accessible(CmpInstr(s, dst, src, len), o, 1)
    ensures o.M? ==> EffAddr(CmpInstr(s, dst, src, len), o.ref) == EffAddr(s, o.ref)
  {
    hide Cmp, ReadOp;
  }

  /**
   * CMP then SETcc stores 1 exactly when the relation holds, and else 0: in the low byte of a register, or in one
   * byte of memory.
   */
  lemma CmpThenSet(s: State, dst: Operand, src: Operand, len: nat, c: Cond, o: Operand, len': nat)
    requires Accessible(s, dst, 4) && Accessible(s, src, 4) && !o.I? && Accessible(s, o, 1)
    ensures Accessible(CmpInstr(s, dst, src, len), o, 1)
    ensures var s' := SetInstr(CmpInstr(s, dst, src, len), c, o, len');
            var v := if Relation(c, OperandValue(s, dst, W32), OperandValue(s, src, W32)) then 1 else 0;
            && Stored(s, s', o, W8, v)
            && s' == s.(regs := s'.regs, mem := s'.mem, eip := Wrap(Wrap(s.eip + len) + len'), eflags := s'.eflags)
  {
    hide CmpInstr, OperandValue, Holds, Relation, SetInstr, Stored, EffAddr, Accessible, Wrap;
    CmpKeepsAddresses(s, dst, src, len, o);
    CmpDecides(s, dst, src, len, c);
    var t := CmpInstr(s, dst, src, len);
    SetStores(t, c, o, len');
    StoredAfterCmp(s, t, SetInstr(t, c, o, len'), o, if Holds(c, t.eflags) then 1 else 0);
  }

  /** CMP changes eip and flags only, and each condition then holds exactly when its relation does. */
  lemma CmpDecides(s: State, dst: Operand, src: Operand, len: nat, c: Cond)
    requires Accessible(s, dst, 4) && Accessible(s, src, 4)
    ensures var t := CmpInstr(s, dst, src, len);
            && (Holds(c, t.eflags) <==> Relation(c, OperandValue(s, dst, W32), OperandValue(s, src, W32)))
            && t == s.(eip := Wrap(s.eip + len), eflags := t.eflags)
  {
    hide Cmp, ReadOp, OperandValue, Holds, Relation, Accessible;
    ReadValue(s, dst, W32);
    ReadValue(s, src, W32);
    ConditionsAfterCmp(ReadOp(s, dst, W32), ReadOp(s, src, W32), s.eflags, c);
  }

  lemma SetStores(s: State, c: Cond, o: Operand, len: nat)
    requires !o.I? && Accessible(s, o, 1)
    ensures var s' := SetInstr(s, c, o, len);
            && Stored(s, s', o, W8, if Holds(c, s.eflags) then 1 else 0)
            && s' == s.(regs := s'.regs, mem := s'.mem, eip := Wrap(s.eip + len))
  {
    hide Holds, WriteOp, Accessible, Stored, Wrap;
    StoreAndStep(s, o, W8, if Holds(c, s.eflags) then 1 else 0, Wrap(s.eip + len), s.eflags);
    WriteStores(s, o, W8, if Holds(c, s.eflags) then 1 else 0);
  }

  lemma StoredAfterCmp(s: State, t: State, s': State, o: Operand, v: int)
    requires !o.I? && Accessible(s, o, 1) && Accessible(t, o, 1) && t.regs == s.regs && t.mem == s.mem
    requires o.M? ==> EffAddr(t, o.ref) == EffAddr(s, o.ref)
    requires Stored(t, s', o, W8, v)
    ensures Stored(s, s', o, W8, v)
  {
    hide Regs.Get, LittleEndian, EffAddr, SameOutside;
  }

  // ---------------------------------------------------------------- division

  /** DIV and IDIV advance eip first; on Interrupt0 they return -1000 with eax and edx as they were. */
  function AfterDivision(s: State, out: DivOut, len: nat): State {
    match out
    case Interrupt0 => s.Advance(len)
    case Done(eax, edx) => s.Advance(len).(regs := s.regs.(eax := eax, edx := edx))
  }

  function ReturnCode(out: DivOut): int {
    if out.Interrupt0? then -1000 else 0
  }

  method DivI(cpu: Cpu, w: Width, src: Operand, len: nat) returns (ret: int)
    requires cpu.Valid() && !src.I? && Accessible(cpu.Abs(), src, Size(w))
    requires 0 < ReadOp(cpu.Abs(), src, w) < w.Modulus()
    modifies cpu
    ensures var s := old(cpu.Abs()); var out := Div(w, s.regs.eax, s.regs.edx, ReadOp(s, src, w));
            ret == ReturnCode(out) && cpu.Abs() == AfterDivision(s, out, len)
  {
    hide Accessible, ReadOp, Dividend, Deliver;
    var v := cpu.ReadOperand(src, w);
    cpu.eip := Wrap(cpu.eip + len);
    var div := Dividend(w, cpu.eax, cpu.edx);
    DivModRange(div, v);
    var res, rem := div / v, div % v;
    if res >= w.Modulus() {
      return -1000;
    }
    var out := Deliver(w, cpu.eax, cpu.edx, res, rem);
    cpu.eax, cpu.edx := out.eax, out.edx;
    ret := 0;
  }

  /** What a division leaves on every outcome: only eax and edx, and those only without a fault, and eip. */
  ghost predicate DivisionFrame(s: State, s': State, ret: int, len: nat) {
    && (ret == 0 || ret == -1000) && s'.eip == Wrap(s.eip + len)
    && s' == s.(eip := s'.eip, regs := s.regs.(eax := s'.regs.eax, edx := s'.regs.edx))
    && (ret == -1000 ==> s'.regs == s.regs)
  }

  /**
   * DIV on the machine returns -1000 exactly when the high half of the dividend reaches the divisor. Otherwise
   * quotient and remainder are in their registers: AL and AH, AX and DX, or EAX and EDX.
   */
  lemma DivLeaves(s: State, w: Width, src: Operand, len: nat)
    requires !src.I? && Accessible(s, src, Size(w)) && 0 < ReadOp(s, src, w) < w.Modulus()
    ensures var v, out := OperandValue(s, src, w), Div(w, s.regs.eax, s.regs.edx, ReadOp(s, src, w));
            var s', ret := AfterDivision(s, out, len), ReturnCode(out);
            var r, r' := s.regs, s'.regs;
            && DivisionFrame(s, s', ret, len)
            && (ret == -1000 <==> High(w, r.eax, r.edx) >= v)
            && (ret == 0 ==>
                  && Low(w, r'.eax) * v + High(w, r'.eax, r'.edx) == w.Modulus() * High(w, r.eax, r.edx) + Low(w, r.eax)
                  && High(w, r'.eax, r'.edx) < v
                  && SameElsewhere(w, r.eax, r.edx, r'.eax, r'.edx))
  {
    ReadValue(s, src, w);
    hide ReadOp, OperandValue, High, Low, Div, SameElsewhere, Accessible;
    DivCorrect(w, s.regs.eax, s.regs.edx, ReadOp(s, src, w));
  }

  /**
   * 32-bit IDIV on the machine returns -1000 exactly when the truncated quotient is no int32_t. Otherwise eax holds
   * it and edx the remainder.
   */
  lemma IdivLeaves(s: State, src: Operand, len: nat)
    requires !src.I? && Accessible(s, src, 4) && ReadOp(s, src, W32) != 0
    requires !(SignedPair(s.regs.eax, s.regs.edx) == -0x8000_0000_0000_0000 && Signed(ReadOp(s, src, W32)) == -1)
    ensures var b, out := Signed(OperandValue(s, src, W32)), Idiv(s.regs.eax, s.regs.edx, ReadOp(s, src, W32));
            var s', ret := AfterDivision(s, out, len), ReturnCode(out);
            var a := BASE * Signed(s.regs.edx) + s.regs.eax;
            && DivisionFrame(s, s', ret, len)
            && (ret == -1000 <==> !InRange(TruncDiv(a, b)))
            && (ret == 0 ==> IsTruncated(a, b, Signed(s'.regs.eax), Signed(s'.regs.edx)))
  {
    ReadValue(s, src, W32);
    hide ReadOp, OperandValue, Accessible, Idiv, IsTruncated, TruncDiv, Signed;
    IdivCorrect(s.regs.eax, s.regs.edx, ReadOp(s, src, W32));
  }

  function CdqInstr(s: State, len: nat): State {
    s.Advance(len).(regs := s.regs.(edx := Cdq(s.regs.eax)))
  }

  /**
   * CDQ then IDIV, with the divisor read after CDQ: a fault exactly for the least int32_t divided by -1, and else
   * the truncated quotient of the old eax in eax and its remainder in edx.
   */
  lemma CdqIdivLeaves(s: State, src: Operand, len: nat, len': nat)
    requires var s1 := CdqInstr(s, len); !src.I? && Accessible(s1, src, 4) && ReadOp(s1, src, W32) != 0
    ensures var s1 := CdqInstr(s, len);
            && SignedPair(s1.regs.eax, s1.regs.edx) == Signed(s.regs.eax) != -0x8000_0000_0000_0000
            && s1 == s.(eip := Wrap(s.eip + len), regs := s.regs.(edx := s1.regs.edx))
    ensures var s1 := CdqInstr(s, len); var b := Signed(OperandValue(s1, src, W32));
            var out := Idiv(s1.regs.eax, s1.regs.edx, ReadOp(s1, src, W32));
            var s', ret := AfterDivision(s1, out, len'), ReturnCode(out);
            && DivisionFrame(s1, s', ret, len')
            && (ret == -1000 <==> Signed(s.regs.eax) == -0x8000_0000 && b == -1)
            && (ret == 0 ==> IsTruncated(Signed(s.regs.eax), b, Signed(s'.regs.eax), Signed(s'.regs.edx)))
  {
    hide ReadOp, OperandValue, Accessible, Idiv, IsTruncated, Signed, Cdq, SignedPair;
    var s1 := CdqInstr(s, len);
    CdqIdivCorrect(s.regs.eax, ReadOp(s1, src, W32));
    CdqExtends(s.regs.eax);
    ReadValue(s1, src, W32);
  }

  method CdqI(cpu: Cpu, len: nat)
    requires cpu.Valid()
    modifies cpu
    ensures cpu.Abs() == CdqInstr(old(cpu.Abs()), len)
  {
    cpu.eip := Wrap(cpu.eip + len);
    if Sign(cpu.eax, 32) {
      cpu.edx := 0xFFFF_FFFF;
    } else {
      cpu.edx := 0;
    }
  }

  method IdivI(cpu: Cpu, src: Operand, len: nat) returns (ret: int)
    requires cpu.Valid() && !src.I? && Accessible(cpu.Abs(), src, 4) && ReadOp(cpu.Abs(), src, W32) != 0
    requires !(SignedPair(cpu.eax, cpu.edx) == -0x8000_0000_0000_0000 && Signed(ReadOp(cpu.Abs(), src, W32)) == -1)
    modifies cpu
    ensures var s := old(cpu.Abs()); var out := Idiv(s.regs.eax, s.regs.edx, ReadOp(s, src, W32));
            ret == ReturnCode(out) && cpu.Abs() == AfterDivision(s, out, len)
  {
    hide Accessible, ReadOp, TruncDiv, TruncRem, SignedPair;
    var val := cpu.ReadOperand(src, W32);
    cpu.eip := Wrap(cpu.eip + len);
    var div := SignedPair(cpu.eax, cpu.edx);
    var res, rem := TruncDiv(div, Signed(val)), TruncRem(div, Signed(val));
    if res > 0x7FFF_FFFF || res < -0x8000_0000 {
      return -1000;
    }
    cpu.eax, cpu.edx := Wrap(res), Wrap(rem);
    ret := 0;
  }

  // ---------------------------------------------------------------- shifts

  /** The destination is shifted in place before the source is read, which shows when they are one register. */
  function ShrdSource(s: State, dst: Operand, src: Reg, amt: nat): Word
    requires !dst.I?
  {
    var x := s.regs.Get(src);
    ShrFits(x, amt);
    if dst == R(src) then Shr(x, amt) else x
  }

  function ShrdInstr(s: State, dst: Operand, src: Reg, count: Byte, len: nat): State
    requires !dst.I? && Accessible(s, dst, 4)
  {
    var out := Shrd(ReadOp(s, dst, W32), ShrdSource(s, dst, src, count % 32), count, s.eflags);
    WriteOp(s, dst, W32, out.res).(eip := Wrap(s.eip + len), eflags := out.eflags)
  }

  method AssignShrdFlags(cpu: Cpu, cf: bool, res: Word)
    modifies cpu`eflags
    ensures cpu.eflags == ShrdEflags(old(cpu.eflags), cf, Sign(res, 32), Zero(res), EvenOnes(res))
  {
    hide Assign, Sign, EvenOnes;
    AssignFlag(cpu, CF, cf);
    AssignFlag(cpu, SF, Sign(res, 32));
    AssignFlag(cpu, ZF, Zero(res));
    var p := Parity(res);
    AssignFlag(cpu, PF, p);
  }

  method ShrdI(cpu: Cpu, dst: Operand, src: Reg, count: Byte, len: nat)
    requires cpu.Valid() && !dst.I? && Accessible(cpu.Abs(), dst, 4)
    modifies cpu, cpu.mem
    ensures cpu.Abs() == ShrdInstr(old(cpu.Abs()), dst, src, count, len)
  {
    hide Accessible, WriteMem, EffAddr, ReadOp, ShrdEflags, Sign, EvenOnes, Bit, Shr, ShrdResult;
    var amt := count % 32;
    var rm := cpu.ReadOperand(dst, W32);
    if amt != 0 {
      var r := cpu.GetReg(src);
      ShrFits(r, amt);
      if dst == R(src) {
        r := Shr(r, amt);
      }
      var res := ShrdResult(rm, r, amt);
      cpu.WriteOperand(dst, W32, res);
      AssignShrdFlags(cpu, Bit(rm, amt - 1) == 1, res);
    } else {
      WriteBack(cpu.Abs(), dst);
    }
    cpu.eip := Wrap(cpu.eip + len);
  }

  /**
   * SHRD on the machine, with the count masked to k: the destination holds its quotient by 2^k with the low k bits
   * of the source above it. For one register as both, the source is its own quotient. A count of 0 changes eip only.
   */
  lemma ShrdStores(s: State, dst: Operand, src: Reg, count: Byte, len: nat)
    requires !dst.I? && Accessible(s, dst, 4)
    ensures var s', k := ShrdInstr(s, dst, src, count, len), count % 32; var x := OperandValue(s, dst, W32);
            var y := if dst == R(src) then x / Pow2(k) else s.regs.Get(src);
            if k == 0 then s' == s.(eip := Wrap(s.eip + len))
            else
              && Stored(s, s', dst, W32, x / Pow2(k) + Pow2(32 - k) * (y % Pow2(k)))
              && s' == s.(regs := s'.regs, mem := s'.mem, eip := Wrap(s.eip + len), eflags := s'.eflags)
              && 0 <= y < BASE && s'.eflags == Shrd(x, y, k, s.eflags).eflags
  {
    var k := count % 32;
    ReadValue(s, dst, W32);
    SourceValue(s, dst, src, k);
    var x, y := ReadOp(s, dst, W32), ShrdSource(s, dst, src, k);
    MaskedCount(x, y, count, s.eflags);
    hide ReadOp, OperandValue, ShrdSource, Shrd, Pow2, Regs.Get;
    var out := Shrd(x, y, count, s.eflags);
    if k == 0 {
      WriteBack(s, dst);
      hide WriteOp;
    } else {
      hide WriteOp, Stored, Accessible, Wrap;
      StoreAndStep(s, dst, W32, out.res, Wrap(s.eip + len), out.eflags);
    }
  }

  lemma SourceValue(s: State, dst: Operand, src: Reg, k: nat)
    requires !dst.I? && Accessible(s, dst, 4)
    ensures ShrdSource(s, dst, src, k) == if dst == R(src) then ReadOp(s, dst, W32) / Pow2(k) else s.regs.Get(src)
  {
    RegisterValue(s, src);
    ShrIsDiv(s.regs.Get(src), k);
    hide ReadOp, Regs.Get, Shr, Pow2;
  }

  /** The count is taken modulo 32, and 0 leaves value and flags. */
  lemma MaskedCount(x: Word, y: Word, count: Byte, e: Word)
    ensures var k, out := count % 32, Shrd(x, y, count, e);
            if k == 0 then out == AluOut(x, e)
            else out.eflags == Shrd(x, y, k, e).eflags && out.res == x / Pow2(k) + Pow2(32 - k) * (y % Pow2(k))
  {
    hide ShrdResult, ShrdEflags, Bit, Sign, EvenOnes, Pow2;
    var k := count % 32;
    if k != 0 {
      ShrdIsSum(x, y, k);
    }
  }

  lemma RegisterValue(s: State, r: Reg)
    ensures ReadOp(s, R(r), W32) == s.regs.Get(r)
  {
    hide Regs.Get;
  }

  /** SHR on the machine: the register holds its quotient by 2^k, and a count of 0 changes eip only. */
  lemma ShrStores(s: State, r: Reg, count: Byte, len: nat)
    ensures var s', k, x := ShrRegister(s, r, count, len), count % 32, s.regs.Get(r);
            if k == 0 then s' == s.(eip := Wrap(s.eip + len))
            else
              && (forall q :: s'.regs.Get(q) == if q == r then x / Pow2(k) else s.regs.Get(q))
              && s' == s.(regs := s'.regs, eip := Wrap(s.eip + len), eflags := ShrInstr(x, k, s.eflags).eflags)
  {
    var k, x := count % 32, s.regs.Get(r);
    var out := ShrInstr(x, count, s.eflags);
    SameRegisters(s.regs, r);
    MaskedShr(x, count, s.eflags);
    hide Regs.Get, Regs.Set, ShrInstr, Pow2;
    forall q ensures s.regs.Set(r, out.res).Get(q) == if q == r then out.res else s.regs.Get(q) {
      SetGet(s.regs, r, out.res, q);
    }
  }

  lemma MaskedShr(x: Word, count: Byte, e: Word)
    ensures var k, out := count % 32, ShrInstr(x, count, e);
            if k == 0 then out == AluOut(x, e)
            else out.eflags == ShrInstr(x, k, e).eflags && out.res == x / Pow2(k)
  {
    hide ShrEflags, Bit, Sign, EvenOnes, Pow2, Shr;
    var k := count % 32;
    if k != 0 {
      ShrIsDiv(x, k);
    }
  }

  lemma SameRegisters(rs: Regs, r: Reg)
    ensures rs.Set(r, rs.Get(r)) == rs
  {
  }

  /** Storing what an operand holds changes nothing. */
  lemma WriteBack(s: State, o: Operand)
    requires !o.I? && Accessible(s, o, 4)
    ensures WriteOp(s, o, W32, ReadOp(s, o, W32)) == s
  {
    match o
    case R(r) =>
    case M(ref) =>
      var a := EffAddr(s, ref);
      BytesOfGet(s.mem, a);
      hide Bytes32, Get32;
      assert Put32(s.mem, a, Get32(s.mem, a)) == s.mem;
  }

  /** SHR is implemented for register destinations. */
  function ShrRegister(s: State, r: Reg, count: Byte, len: nat): State {
    var out := ShrInstr(s.regs.Get(r), count, s.eflags);
    s.(regs := s.regs.Set(r, out.res), eip := Wrap(s.eip + len), eflags := out.eflags)
  }

  method ShrI(cpu: Cpu, r: Reg, count: Byte, len: nat)
    requires cpu.Valid()
    modifies cpu
    ensures cpu.Abs() == ShrRegister(old(cpu.Abs()), r, count, len)
  {
    hide Assign, Sign, EvenOnes, Bit, Shr;
    var amt := count % 32;
    var x := cpu.GetReg(r);
    if amt != 0 {
      ShrFits(x, amt);
      var res: Word := Shr(x, amt);
      AssignFlag(cpu, CF, Bit(x, amt - 1) == 1);
      AssignFlag(cpu, OF, amt == 1 && Bit(res, 31) == 1);
      AssignFlag(cpu, ZF, Zero(res));
      var p := Parity(res);
      AssignFlag(cpu, PF, p);
      AssignFlag(cpu, SF, Sign(res, 32));
      cpu.SetReg(r, res);
    }
    cpu.eip := Wrap(cpu.eip + len);
  }
}
