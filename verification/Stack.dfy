/** The stack instructions on byte memory, and the abstract stack of dwords that they implement (src/instr.c). */
module Stack {
  import opened Bits
  import opened Words
  import opened Alu
  import opened Machine

  datatype Op =
    | Push(src: Operand)
    | Pop(dst: Operand)
    | Call(target: Operand)
    | Ret(imm: Half)
    | PushAd
    | PopAd
    | PushFd
    | PopFd

  /** A decoded instruction: operation and length in bytes. */
  datatype Insn = Insn(op: Op, len: nat)

  // ---------------------------------------------------------------- the instructions

  /** `esp -= 4; write32(esp, v)`. In range exactly for esp >= 4, since memory ends at 2^32 - 1. */
  function Push32(s: State, v: Word): State
    requires s.Esp() >= 4
  {
    s.WithEsp(s.Esp() - 4).(mem := Put32(s.mem, s.Esp() - 4, v))
  }

  function Top(s: State): Word
    requires s.Esp() + 4 <= MEM_SIZE
  {
    Get32(s.mem, s.Esp())
  }

  /** POP reads the top, stores it, and only then moves esp. */
  function PopInto(s: State, dst: Operand): State
    requires !dst.I? && s.Esp() + 4 <= MEM_SIZE && Accessible(s, dst, 4)
  {
    var s1 := WriteOp(s, dst, W32, Top(s));
    s1.WithEsp(Wrap(s1.Esp() + 4))
  }

  function RetFrom(s: State, imm: Half): State
    requires s.Esp() + 4 <= MEM_SIZE
  {
    s.(eip := Top(s)).WithEsp(Wrap(s.Esp() + 4 + imm))
  }

  function PushFour(s: State, a: Word, b: Word, c: Word, d: Word): State
    requires s.Esp() >= 16
  {
    Push32(Push32(Push32(Push32(s, a), b), c), d)
  }

  /** Pushes in the order EAX, ECX, EDX, EBX, old ESP, EBP, ESI, EDI. */
  function PushAll(s: State): State
    requires s.Esp() >= 32
  {
    var r := s.regs;
    PushFour(PushFour(s, r.eax, r.ecx, r.edx, r.ebx), r.esp, r.ebp, r.esi, r.edi)
  }

  /** Pops in the opposite order; the stored ESP is skipped. */
  function PopAll(s: State): State
    requires s.Esp() + 32 <= MEM_SIZE
  {
    var m, p := s.mem, s.Esp();
    s.(regs := Regs(Get32(m, p + 28), Get32(m, p + 24), Get32(m, p + 20), Get32(m, p + 16),
                    p + 32, Get32(m, p + 8), Get32(m, p + 4), Get32(m, p)))
  }

  /** POPFD replaces only the low half of EFLAGS. */
  function MergeFlags(e: Word, v: Word): Word {
    e - e % 0x1_0000 + v % 0x1_0000
  }

  /** The accesses of the C code stay inside the allocation. */
  predicate Enabled(s: State, op: Op) {
    match op
    case Push(o) => Accessible(s, o, 4) && s.Esp() >= 4
    case Pop(o) => !o.I? && Accessible(s, o, 4) && s.Esp() + 4 <= MEM_SIZE
    case Call(o) => Accessible(s, o, 4) && s.Esp() >= 4
    case Ret(_) => s.Esp() + 4 <= MEM_SIZE
    case PushAd => s.Esp() >= 32
    case PopAd => s.Esp() + 32 <= MEM_SIZE
    case PushFd => s.Esp() >= 4
    case PopFd => s.Esp() + 4 <= MEM_SIZE
  }

  function Step(s: State, i: Insn): State
    requires Enabled(s, i.op)
  {
    var n := s.Advance(i.len);
    match i.op
    case Push(o) => Push32(n, ReadOp(s, o, W32))
    case Pop(o) => PopInto(n, o)
    case Call(o) => Push32(n, n.eip).(eip := ReadOp(s, o, W32))
    case Ret(imm) => RetFrom(s, imm)
    case PushAd => PushAll(n)
    case PopAd => PopAll(n)
    case PushFd => Push32(n, n.eflags)
    case PopFd => n.(eflags := MergeFlags(n.eflags, Top(n))).WithEsp(n.Esp() + 4)
  }

  // ---------------------------------------------------------------- the abstract stack

  /** The dwords from lo up to hi, lowest address first: top of the stack at index 0. */
  function Dwords(m: Mem, lo: nat, hi: nat): seq<Word>
    requires hi <= MEM_SIZE
    decreases hi - lo
  {
    if lo + 4 <= hi then [Get32(m, lo)] + Dwords(m, lo + 4, hi) else []
  }

  /** A machine whose stack is a sequence: no memory, and esp is only a number it keeps. */
  datatype Abstract = Abstract(regs: Regs, eip: Word, eflags: Word, stack: seq<Word>) {
    function Push(v: Word): Abstract
      requires regs.esp >= 4
    {
      this.(stack := [v] + stack, regs := regs.(esp := regs.esp - 4))
    }

    function Drop(n: nat): Abstract
      requires n <= |stack| && regs.esp + 4 * n < BASE
    {
      this.(stack := stack[n..], regs := regs.(esp := regs.esp + 4 * n))
    }

    /** Operand value; what a memory operand holds is supplied from outside. */
    function Value(o: Operand, loaded: Word): Word {
      match o case R(r) => regs.Get(r) case I(v) => v case M(_) => loaded
    }
  }

  /** How many dwords an operation adds to or takes from the stack. */
  function Pushes(op: Op): nat {
    match op case Push(_) => 1 case Call(_) => 1 case PushFd => 1 case PushAd => 8 case _ => 0
  }

  function Pops(op: Op): nat {
    match op case Pop(_) => 1 case PopFd => 1 case PopAd => 8 case Ret(imm) => 1 + imm / 4 case _ => 0
  }

  predicate HasRoom(a: Abstract, op: Op) {
    a.regs.esp >= 4 * Pushes(op) && Pops(op) <= |a.stack| && a.regs.esp + 4 * Pops(op) < BASE
  }

  function AStep(a: Abstract, i: Insn, loaded: Word): Abstract
    requires HasRoom(a, i.op)
  {
    var n := a.(eip := Wrap(a.eip + i.len));
    match i.op
    case Push(o) => n.Push(a.Value(o, loaded))
    case Pop(o) => var d := n.Drop(1); if o.R? then d.(regs := d.regs.Set(o.reg, a.stack[0])) else d
    case Call(o) => n.Push(n.eip).(eip := a.Value(o, loaded))
    case Ret(imm) => n.Drop(1 + imm / 4).(eip := a.stack[0])
    case PushAd =>
      var r := a.regs;
      n.(stack := [r.edi, r.esi, r.ebp, r.esp, r.ebx, r.edx, r.ecx, r.eax] + a.stack, regs := r.(esp := r.esp - 32))
    case PopAd =>
      var t := a.stack;
      n.Drop(8).(regs := Regs(t[7], t[6], t[5], t[4], a.regs.esp + 32, t[2], t[1], t[0]))
    case PushFd => n.Push(a.eflags)
    case PopFd => n.Drop(1).(eflags := 0x1_0000 * (a.eflags / 0x1_0000) + a.stack[0] % 0x1_0000)
  }

  /** The abstract machine that a state with stack base `base` represents. */
  function AbsOf(s: State, base: nat): Abstract
    requires base <= MEM_SIZE
  {
    Abstract(s.regs, s.eip, s.eflags, Dwords(s.mem, s.Esp(), base))
  }

  /** The stack lies in [floor, base) and holds whole dwords. */
  predicate InZone(s: State, floor: nat, base: nat) {
    floor <= s.Esp() <= base <= MEM_SIZE && (base - s.Esp()) % 4 == 0
  }

  /** The four bytes that a POP to memory stores. */
  predicate Stores(s: State, op: Op, j: int) {
    op.Pop? && op.dst.M? && (op.dst.ref.segment.Some? ==> TableFits(s.gdtr)) &&
    EffAddr(s, op.dst.ref) <= j < EffAddr(s, op.dst.ref) + 4
  }

  /**
   * What the caller of an operation has to respect: the depth bounds, no POP into esp, RET immediates
   * of whole dwords, and no POP to memory onto the dwords that stay on the stack.
   */
  predicate Disciplined(s: State, op: Op, floor: nat, base: nat) {
    && Enabled(s, op)
    && floor <= s.Esp() - 4 * Pushes(op) && s.Esp() + 4 * Pops(op) <= base
    && (op.Ret? ==> op.imm % 4 == 0)
    && (op.Pop? && op.dst.R? ==> op.dst.reg != ESP)
    && (op.Pop? && op.dst.M? ==> EffAddr(s, op.dst.ref) + 4 <= s.Esp() + 4 || base <= EffAddr(s, op.dst.ref))
  }

  /** The value that the memory operand of a PUSH or CALL supplies. */
  function Loaded(s: State, op: Op): Word
    requires Enabled(s, op)
  {
    if op.Push? then ReadOp(s, op.src, W32) else if op.Call? then ReadOp(s, op.target, W32) else 0
  }

  /** Four PUSHes of registers or immediates, and four POPs to registers, as instructions of their own. */
  function FourPushes(a: Abstract, o1: Operand, o2: Operand, o3: Operand, o4: Operand): Abstract
    requires a.regs.esp >= 16
  {
    var a1 := AStep(a, Insn(Push(o1), 0), 0);
    var a2 := AStep(a1, Insn(Push(o2), 0), 0);
    var a3 := AStep(a2, Insn(Push(o3), 0), 0);
    AStep(a3, Insn(Push(o4), 0), 0)
  }

  function FourPops(a: Abstract, r1: Reg, r2: Reg, r3: Reg, r4: Reg): Abstract
    requires |a.stack| >= 4 && a.regs.esp + 16 < BASE && ESP !in {r1, r2, r3, r4}
  {
    var a1 := AStep(a, Insn(Pop(R(r1)), 0), 0);
    var a2 := AStep(a1, Insn(Pop(R(r2)), 0), 0);
    var a3 := AStep(a2, Insn(Pop(R(r3)), 0), 0);
    AStep(a3, Insn(Pop(R(r4)), 0), 0)
  }

  lemma UpperPushes(a: Abstract)
    requires a.regs.esp >= 16
    ensures var r := a.regs;
            FourPushes(a, R(EAX), R(ECX), R(EDX), R(EBX)) ==
            a.(eip := Wrap(a.eip), stack := [r.ebx, r.edx, r.ecx, r.eax] + a.stack, regs := r.(esp := r.esp - 16))
  {
  }

  lemma LowerPushes(a: Abstract, esp: Word)
    requires a.regs.esp >= 16
    ensures var r := a.regs;
            FourPushes(a, I(esp), R(EBP), R(ESI), R(EDI)) ==
            a.(eip := Wrap(a.eip), stack := [r.edi, r.esi, r.ebp, esp] + a.stack, regs := r.(esp := r.esp - 16))
  {
  }

  /** PUSHAD is eight PUSHes, the fifth of the esp from before. */
  lemma PushAdIsPushes(a: Abstract)
    requires a.regs.esp >= 32
    ensures AStep(a, Insn(PushAd, 0), 0) ==
            FourPushes(FourPushes(a, R(EAX), R(ECX), R(EDX), R(EBX)), I(a.regs.Get(ESP)), R(EBP), R(ESI), R(EDI))
  {
    hide FourPushes;
    UpperPushes(a);
    LowerPushes(FourPushes(a, R(EAX), R(ECX), R(EDX), R(EBX)), a.regs.Get(ESP));
  }

  lemma LowerPops(a: Abstract)
    requires |a.stack| >= 4 && a.regs.esp + 16 < BASE
    ensures var b, t := FourPops(a, EDI, ESI, EBP, EBX), a.stack;
            && b.stack == t[4..] && b.eip == Wrap(a.eip) && b.eflags == a.eflags
            && b.regs == a.regs.(edi := t[0], esi := t[1], ebp := t[2], ebx := t[3], esp := a.regs.esp + 16)
  {
  }

  lemma UpperPops(a: Abstract)
    requires |a.stack| >= 4 && a.regs.esp + 16 < BASE
    ensures var b, t := FourPops(a, EBX, EDX, ECX, EAX), a.stack;
            && b.stack == t[4..] && b.eip == Wrap(a.eip) && b.eflags == a.eflags
            && b.regs == a.regs.(ebx := t[0], edx := t[1], ecx := t[2], eax := t[3], esp := a.regs.esp + 16)
  {
  }

  /** POPAD is eight POPs, of which the fourth is overwritten by the fifth. */
  lemma PopAdIsPops(a: Abstract)
    requires |a.stack| >= 8 && a.regs.esp + 32 < BASE
    ensures AStep(a, Insn(PopAd, 0), 0) == FourPops(FourPops(a, EDI, ESI, EBP, EBX), EBX, EDX, ECX, EAX)
  {
    hide FourPops;
    LowerPops(a);
    UpperPops(FourPops(a, EDI, ESI, EBP, EBX));
  }

  // ---------------------------------------------------------------- lemmas about Dwords

  lemma {:induction false} DwordsLength(m: Mem, lo: nat, hi: nat)
    requires hi <= MEM_SIZE && lo <= hi && (hi - lo) % 4 == 0
    ensures 4 * |Dwords(m, lo, hi)| == hi - lo
    decreases hi - lo
  {
    if lo < hi {
      DwordsLength(m, lo + 4, hi);
    }
  }

  /** Element i is the dword at lo + 4i, and dropping i dwords starts i dwords higher. */
  lemma {:induction false} DwordsAt(m: Mem, lo: nat, hi: nat, i: nat)
    requires hi <= MEM_SIZE && lo + 4 * i <= hi
    ensures i <= |Dwords(m, lo, hi)|
    ensures Dwords(m, lo + 4 * i, hi) == Dwords(m, lo, hi)[i..]
    ensures lo + 4 * i + 4 <= hi ==> i < |Dwords(m, lo, hi)| && Dwords(m, lo, hi)[i] == Get32(m, lo + 4 * i)
    decreases i
  {
    if i > 0 {
      DwordsAt(m, lo + 4, hi, i - 1);
    }
  }

  /** Only the bytes in [lo, hi) matter. */
  lemma {:induction false} DwordsFrame(m: Mem, m': Mem, lo: nat, hi: nat)
    requires hi <= MEM_SIZE && forall j :: lo <= j < hi ==> m'[j] == m[j]
    ensures Dwords(m', lo, hi) == Dwords(m, lo, hi)
    decreases hi - lo
  {
    if lo + 4 <= hi {
      SameWord(m, m', lo);
      DwordsFrame(m, m', lo + 4, hi);
    }
  }

  /** PUSH adds one dword on top and writes nothing but it. */
  lemma PushRefines(s: State, v: Word, base: nat)
    requires 4 <= s.Esp() <= base <= MEM_SIZE
    ensures AbsOf(Push32(s, v), base) == AbsOf(s, base).Push(v)
    ensures SameOutside(s.mem, Push32(s, v).mem, s.Esp() - 4, s.Esp())
    ensures Push32(s, v).segs == s.segs && Push32(s, v).gdtr == s.gdtr
  {
    var m' := Push32(s, v).mem;
    ReadBack(s.mem, s.Esp() - 4, v);
    DwordsFrame(s.mem, m', s.Esp(), base);
  }

  lemma PushFourFrame(s: State, a: Word, b: Word, c: Word, d: Word)
    requires 16 <= s.Esp()
    ensures SameOutside(s.mem, PushFour(s, a, b, c, d).mem, s.Esp() - 16, s.Esp())
    ensures PushFour(s, a, b, c, d).segs == s.segs && PushFour(s, a, b, c, d).gdtr == s.gdtr
  {
    hide Bytes32;
  }

  lemma PushFourRefines(s: State, a: Word, b: Word, c: Word, d: Word, base: nat)
    requires 16 <= s.Esp() <= base <= MEM_SIZE
    ensures AbsOf(PushFour(s, a, b, c, d), base) ==
            AbsOf(s, base).(stack := [d, c, b, a] + AbsOf(s, base).stack, regs := s.regs.(esp := s.Esp() - 16))
  {
    hide Push32, Dwords, SameOutside;
    var st := AbsOf(s, base).stack;
    PushRefines(s, a, base);
    var p1 := Push32(s, a);
    PushRefines(p1, b, base);
    var p2 := Push32(p1, b);
    assert AbsOf(p2, base).stack == [b, a] + st;
    PushRefines(p2, c, base);
    var p3 := Push32(p2, c);
    assert AbsOf(p3, base).stack == [c, b, a] + st;
    PushRefines(p3, d, base);
  }

  lemma PushAllRefines(s: State, base: nat)
    requires 32 <= s.Esp() <= base <= MEM_SIZE
    ensures var r := s.regs; var p := PushAll(s);
            AbsOf(p, base) ==
            AbsOf(s, base).(stack := [r.edi, r.esi, r.ebp, r.esp, r.ebx, r.edx, r.ecx, r.eax] + AbsOf(s, base).stack,
                            regs := r.(esp := r.esp - 32))
    ensures SameOutside(s.mem, PushAll(s).mem, s.Esp() - 32, s.Esp())
    ensures PushAll(s).segs == s.segs && PushAll(s).gdtr == s.gdtr
  {
    var r := s.regs;
    var p := PushFour(s, r.eax, r.ecx, r.edx, r.ebx);
    PushFourRefines(s, r.eax, r.ecx, r.edx, r.ebx, base);
    PushFourRefines(p, r.esp, r.ebp, r.esi, r.edi, base);
    PushFourFrame(s, r.eax, r.ecx, r.edx, r.ebx);
    PushFourFrame(p, r.esp, r.ebp, r.esi, r.edi);
    hide Dwords, PushFour;
    assert [r.edi, r.esi, r.ebp, r.esp] + ([r.ebx, r.edx, r.ecx, r.eax] + AbsOf(s, base).stack) ==
           [r.edi, r.esi, r.ebp, r.esp, r.ebx, r.edx, r.ecx, r.eax] + AbsOf(s, base).stack;
  }

  /** POPAD takes eight dwords and delivers seven of them; the stored esp is skipped. */
  lemma PopAllRefines(s: State, base: nat)
    requires s.Esp() + 32 <= base <= MEM_SIZE
    ensures var t := AbsOf(s, base).stack;
            |t| >= 8 &&
            AbsOf(PopAll(s), base) ==
            AbsOf(s, base).(stack := t[8..], regs := Regs(t[7], t[6], t[5], t[4], s.Esp() + 32, t[2], t[1], t[0]))
  {
    var m, p := s.mem, s.Esp();
    hide Dwords, Get32;
    DwordsAt(m, p, base, 0);
    DwordsAt(m, p, base, 1);
    DwordsAt(m, p, base, 2);
    DwordsAt(m, p, base, 4);
    DwordsAt(m, p, base, 5);
    DwordsAt(m, p, base, 6);
    DwordsAt(m, p, base, 7);
    DwordsAt(m, p, base, 8);
  }

  /** POP to a register delivers the top dword. */
  lemma PopRegRefines(s: State, r: Reg, base: nat)
    requires s.Esp() + 4 <= base <= MEM_SIZE && r != ESP
    ensures var a := AbsOf(s, base);
            |a.stack| >= 1 && AbsOf(PopInto(s, R(r)), base) == a.Drop(1).(regs := a.Drop(1).regs.Set(r, a.stack[0]))
    ensures PopInto(s, R(r)).mem == s.mem
  {
    hide Dwords, Get32;
    DwordsAt(s.mem, s.Esp(), base, 0);
    DwordsAt(s.mem, s.Esp(), base, 1);
  }

  /** POP to memory delivers the top dword there and disturbs no dword that stays. */
  lemma PopMemRefines(s: State, ref: MemRef, base: nat)
    requires s.Esp() + 4 <= base <= MEM_SIZE && Accessible(s, M(ref), 4)
    requires EffAddr(s, ref) + 4 <= s.Esp() + 4 || base <= EffAddr(s, ref)
    ensures |AbsOf(s, base).stack| >= 1 && AbsOf(PopInto(s, M(ref)), base) == AbsOf(s, base).Drop(1)
    ensures PopInto(s, M(ref)).mem == Put32(s.mem, EffAddr(s, ref), AbsOf(s, base).stack[0])
  {
    hide Dwords, Get32, EffAddr, Bytes32;
    DwordsAt(s.mem, s.Esp(), base, 0);
    DwordsAt(s.mem, s.Esp(), base, 1);
    var m' := Put32(s.mem, EffAddr(s, ref), Top(s));
    DwordsFrame(s.mem, m', s.Esp() + 4, base);
    hide Put32;
  }

  lemma RetRefines(s: State, imm: Half, base: nat)
    requires s.Esp() + 4 + imm <= base <= MEM_SIZE && imm % 4 == 0
    ensures var a := AbsOf(s, base); var n := 1 + imm / 4;
            n <= |a.stack| && AbsOf(RetFrom(s, imm), base) == a.Drop(n).(eip := a.stack[0])
  {
    hide Dwords, Get32;
    DwordsAt(s.mem, s.Esp(), base, 0);
    DwordsAt(s.mem, s.Esp(), base, 1 + imm / 4);
  }

  lemma PopFlagsRefines(s: State, base: nat)
    requires s.Esp() + 4 <= base <= MEM_SIZE
    ensures var a := AbsOf(s, base); var s' := s.(eflags := MergeFlags(s.eflags, Top(s))).WithEsp(s.Esp() + 4);
            && |a.stack| >= 1
            && AbsOf(s', base) == a.Drop(1).(eflags := 0x1_0000 * (a.eflags / 0x1_0000) + a.stack[0] % 0x1_0000)
  {
    hide Dwords, Get32;
    DwordsAt(s.mem, s.Esp(), base, 0);
    DwordsAt(s.mem, s.Esp(), base, 1);
  }

  /** After POPFD bits 0 to 15 of EFLAGS are those of the top dword, and bits 16 to 31 stay. */
  lemma PopFdBits(s: State, len: nat, j: nat)
    requires Enabled(s, PopFd) && j < 32
    ensures var s', top := Step(s, Insn(PopFd, len)), Get32(s.mem, s.Esp());
            && Bit(s'.eflags, j) == (if j < 16 then Bit(top, j) else Bit(s.eflags, j))
            && s' == s.(eflags := s'.eflags, eip := Wrap(s.eip + len), regs := s.regs.(esp := s.Esp() + 4))
  {
    hide Get32, Bit, Pow2;
    var e, v := s.eflags, Get32(s.mem, s.Esp());
    WidthPowers();
    SplitBit(e / 0x1_0000, v % 0x1_0000, 16, j);
    SplitBit(v / 0x1_0000, v % 0x1_0000, 16, j);
    SplitBit(e / 0x1_0000, e % 0x1_0000, 16, j);
  }

  /** PUSH stores the operand's value below the old top, and CALL continues at it, both read before esp moves. */
  lemma OperandTaken(s: State, o: Operand, len: nat)
    requires Enabled(s, Push(o)) || Enabled(s, Call(o))
    ensures Get32(Step(s, Insn(Push(o), len)).mem, s.Esp() - 4) == OperandValue(s, o, W32)
    ensures Step(s, Insn(Call(o), len)).eip == OperandValue(s, o, W32)
    ensures Get32(Step(s, Insn(Call(o), len)).mem, s.Esp() - 4) == Wrap(s.eip + len)
  {
    ReadValue(s, o, W32);
    hide Get32, Put32, ReadOp, OperandValue, Accessible;
    ReadBack(s.mem, s.Esp() - 4, ReadOp(s, o, W32));
    ReadBack(s.mem, s.Esp() - 4, Wrap(s.eip + len));
  }

  /** POP into esp adds 4 to the dword that it has just put there. */
  lemma PopEsp(s: State, len: nat)
    requires Enabled(s, Pop(R(ESP)))
    ensures Step(s, Insn(Pop(R(ESP)), len)) ==
            s.(eip := Wrap(s.eip + len), regs := s.regs.(esp := Wrap(Get32(s.mem, s.Esp()) + 4)))
  {
    hide Get32;
  }

  lemma RoomInZone(s: State, op: Op, floor: nat, base: nat)
    requires InZone(s, floor, base) && Disciplined(s, op, floor, base)
    ensures HasRoom(AbsOf(s, base), op)
  {
    hide Dwords, EffAddr;
    DwordsLength(s.mem, s.Esp(), base);
  }

  /** Memory changes at most in the stack zone and where a POP to memory stores. */
  ghost predicate StackTraffic(s: State, m': Mem, op: Op, floor: nat, base: nat) {
    forall j :: 0 <= j < MEM_SIZE && !(floor <= j < base) && !Stores(s, op, j) ==> m'[j] == s.mem[j]
  }

  /** What one step owes the abstract machine. */
  ghost predicate Refined(s: State, s': State, i: Insn, floor: nat, base: nat)
    requires base <= MEM_SIZE && Enabled(s, i.op)
  {
    && HasRoom(AbsOf(s, base), i.op)
    && AbsOf(s', base) == AStep(AbsOf(s, base), i, Loaded(s, i.op))
    && InZone(s', floor, base)
    && StackTraffic(s, s'.mem, i.op, floor, base)
    && s'.segs == s.segs && s'.gdtr == s.gdtr
  }

  lemma PushingRefines(s: State, i: Insn, floor: nat, base: nat)
    requires InZone(s, floor, base) && Disciplined(s, i.op, floor, base)
    requires i.op.Push?
    ensures Refined(s, Step(s, i), i, floor, base)
  {
    hide Dwords, EffAddr, Push32, ReadMem, Regs.Get;
    RoomInZone(s, i.op, floor, base);
    PushRefines(s.Advance(i.len), ReadOp(s, i.op.src, W32), base);
  }

  lemma CallingRefines(s: State, i: Insn, floor: nat, base: nat)
    requires InZone(s, floor, base) && Disciplined(s, i.op, floor, base)
    requires i.op.Call?
    ensures Refined(s, Step(s, i), i, floor, base)
  {
    hide Dwords, EffAddr, Push32, ReadMem;
    RoomInZone(s, i.op, floor, base);
    var n := s.Advance(i.len);
    PushRefines(n, n.eip, base);
  }

  lemma PushFdRefines(s: State, i: Insn, floor: nat, base: nat)
    requires InZone(s, floor, base) && Disciplined(s, i.op, floor, base)
    requires i.op.PushFd?
    ensures Refined(s, Step(s, i), i, floor, base)
  {
    hide Dwords, EffAddr, Push32, ReadMem;
    RoomInZone(s, i.op, floor, base);
    PushRefines(s.Advance(i.len), s.eflags, base);
  }

  lemma PoppingRefines(s: State, i: Insn, floor: nat, base: nat)
    requires InZone(s, floor, base) && Disciplined(s, i.op, floor, base)
    requires i.op.Pop?
    ensures Refined(s, Step(s, i), i, floor, base)
  {
    hide Dwords, EffAddr, Get32;
    RoomInZone(s, i.op, floor, base);
    var n := s.Advance(i.len);
    if i.op.dst.R? {
      PopRegRefines(n, i.op.dst.reg, base);
    } else {
      EffAddrAdvance(s, i.len, i.op.dst.ref);
      PopMemRefines(n, i.op.dst.ref, base);
    }
  }

  lemma ReturningRefines(s: State, i: Insn, floor: nat, base: nat)
    requires InZone(s, floor, base) && Disciplined(s, i.op, floor, base)
    requires i.op.Ret?
    ensures Refined(s, Step(s, i), i, floor, base)
  {
    hide Dwords, EffAddr, Get32;
    RoomInZone(s, i.op, floor, base);
    RetRefines(s, i.op.imm, base);
  }

  lemma PopAdRefines(s: State, i: Insn, floor: nat, base: nat)
    requires InZone(s, floor, base) && Disciplined(s, i.op, floor, base)
    requires i.op.PopAd?
    ensures Refined(s, Step(s, i), i, floor, base)
  {
    hide Dwords, EffAddr, Get32;
    RoomInZone(s, i.op, floor, base);
    PopAllRefines(s.Advance(i.len), base);
  }

  lemma PopFdRefines(s: State, i: Insn, floor: nat, base: nat)
    requires InZone(s, floor, base) && Disciplined(s, i.op, floor, base)
    requires i.op.PopFd?
    ensures Refined(s, Step(s, i), i, floor, base)
  {
    hide Dwords, EffAddr, Get32;
    RoomInZone(s, i.op, floor, base);
    PopFlagsRefines(s.Advance(i.len), base);
  }

  lemma PushAdRefines(s: State, i: Insn, floor: nat, base: nat)
    requires InZone(s, floor, base) && Disciplined(s, i.op, floor, base)
    requires i.op.PushAd?
    ensures Refined(s, Step(s, i), i, floor, base)
  {
    hide Dwords, EffAddr, Get32, PushAll;
    RoomInZone(s, i.op, floor, base);
    PushAllRefines(s.Advance(i.len), base);
  }

  /** One instruction of a disciplined program is one step of the abstract machine. */
  lemma StepRefines(s: State, i: Insn, floor: nat, base: nat)
    requires InZone(s, floor, base) && Disciplined(s, i.op, floor, base)
    ensures Refined(s, Step(s, i), i, floor, base)
  {
    hide Refined, Step, Disciplined;
    match i.op {
      case Push(_) => PushingRefines(s, i, floor, base);
      case Call(_) => CallingRefines(s, i, floor, base);
      case PushFd => PushFdRefines(s, i, floor, base);
      case Pop(_) => PoppingRefines(s, i, floor, base);
      case PushAd => PushAdRefines(s, i, floor, base);
      case PopAd => PopAdRefines(s, i, floor, base);
      case PopFd => PopFdRefines(s, i, floor, base);
      case Ret(_) => ReturningRefines(s, i, floor, base);
    }
  }

  lemma EffAddrAdvance(s: State, len: nat, ref: MemRef)
    requires ref.segment.Some? ==> TableFits(s.gdtr)
    ensures EffAddr(s.Advance(len), ref) == EffAddr(s, ref)
  {
  }
}
