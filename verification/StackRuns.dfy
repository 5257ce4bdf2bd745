/** Whole runs of stack instructions, and properly nested calls. */
module StackRuns {
  import opened Words
  import opened Alu
  import opened Machine
  import opened Stack

  // ---------------------------------------------------------------- straight runs

  /** Every instruction of the run is disciplined where it executes. */
  predicate DisciplinedRun(s: State, prog: seq<Insn>, floor: nat, base: nat)
    decreases |prog|
  {
    prog == [] || (Disciplined(s, prog[0].op, floor, base) && DisciplinedRun(Step(s, prog[0]), prog[1..], floor, base))
  }

  function Run(s: State, prog: seq<Insn>, floor: nat, base: nat): State
    requires DisciplinedRun(s, prog, floor, base)
    decreases |prog|
  {
    if prog == [] then s else Run(Step(s, prog[0]), prog[1..], floor, base)
  }

  /** The values that memory operands supply along the run. */
  function Loads(s: State, prog: seq<Insn>, floor: nat, base: nat): (r: seq<Word>)
    requires DisciplinedRun(s, prog, floor, base)
    ensures |r| == |prog|
    decreases |prog|
  {
    if prog == [] then [] else [Loaded(s, prog[0].op)] + Loads(Step(s, prog[0]), prog[1..], floor, base)
  }

  /** The same program on the abstract machine; None if its stack underflows or its esp runs out. */
  function ARun(a: Abstract, prog: seq<Insn>, loads: seq<Word>): Option<Abstract>
    requires |loads| == |prog|
    decreases |prog|
  {
    if prog == [] then Some(a)
    else if !HasRoom(a, prog[0].op) then None
    else ARun(AStep(a, prog[0], loads[0]), prog[1..], loads[1..])
  }

  /** Some POP to memory in the run stores at address j. */
  predicate StoresIn(s: State, prog: seq<Insn>, floor: nat, base: nat, j: int)
    requires DisciplinedRun(s, prog, floor, base)
    decreases |prog|
  {
    prog != [] && (Stores(s, prog[0].op, j) || StoresIn(Step(s, prog[0]), prog[1..], floor, base, j))
  }

  /**
   * The dwords from esp up to the base are, after every disciplined run, exactly the stack that the
   * abstract machine computes, together with registers, eip and flags; the abstract stack never underflows.
   */
  lemma {:induction false} RunRefines(s: State, prog: seq<Insn>, floor: nat, base: nat)
    requires InZone(s, floor, base) && DisciplinedRun(s, prog, floor, base)
    ensures ARun(AbsOf(s, base), prog, Loads(s, prog, floor, base)) == Some(AbsOf(Run(s, prog, floor, base), base))
    ensures InZone(Run(s, prog, floor, base), floor, base)
    decreases |prog|
  {
    if prog != [] {
      assert Disciplined(s, prog[0].op, floor, base) && Enabled(s, prog[0].op);
      hide Step, AbsOf, Disciplined, HasRoom, AStep, Loaded, StackTraffic, InZone, Enabled;
      var s1 := Step(s, prog[0]);
      StepRefines(s, prog[0], floor, base);
      RunRefines(s1, prog[1..], floor, base);
      assert Loads(s, prog, floor, base)[1..] == Loads(s1, prog[1..], floor, base);
    }
  }

  /** Memory outside the stack zone changes only where a POP to memory stores. */
  lemma {:induction false} RunFrame(s: State, prog: seq<Insn>, floor: nat, base: nat, j: nat)
    requires InZone(s, floor, base) && DisciplinedRun(s, prog, floor, base)
    requires j < MEM_SIZE && !(floor <= j < base) && !StoresIn(s, prog, floor, base, j)
    ensures var t := Run(s, prog, floor, base); t.mem[j] == s.mem[j] && t.segs == s.segs && t.gdtr == s.gdtr
    decreases |prog|
  {
    if prog != [] {
      assert Disciplined(s, prog[0].op, floor, base) && Enabled(s, prog[0].op);
      hide Step, AbsOf, Disciplined, HasRoom, AStep, Loaded, Stores, InZone, Enabled;
      StepRefines(s, prog[0], floor, base);
      RunFrame(Step(s, prog[0]), prog[1..], floor, base, j);
    }
  }

  // ---------------------------------------------------------------- nested calls

  /** An execution, with its calls paired with their returns. */
  datatype Trace =
    | Done
    | Other(after: State, rest: Trace)  // any other instructions, and the state that they leave
    | Called(len: nat, target: Word, body: Trace, imm: Half, rest: Trace)  // CALL, body, RET imm
    | SavedRegs(len: nat, body: Trace, len': nat, rest: Trace)  // PUSHAD, body, POPAD
    | SavedFlags(len: nat, body: Trace, len': nat, rest: Trace)  // PUSHFD, body, POPFD

  /** The bytes that a bracket keeps on the stack while its body runs. */
  function Slot(t: Trace): nat {
    match t case SavedRegs(_, _, _, _) => 32 case _ => 4
  }

  /** The state before the body of a bracket. */
  function Enter(s: State, t: Trace): State
    requires !t.Done? && !t.Other? && s.Esp() >= Slot(t)
  {
    match t
    case Called(len, target, _, _, _) => Step(s, Insn(Call(I(target)), len))
    case SavedRegs(len, _, _, _) => Step(s, Insn(PushAd, len))
    case SavedFlags(len, _, _, _) => Step(s, Insn(PushFd, len))
  }

  /** The state after the closing instruction. */
  function Leave(s: State, t: Trace): State
    requires !t.Done? && !t.Other? && s.Esp() + Slot(t) <= MEM_SIZE
  {
    match t
    case Called(_, _, _, imm, _) => Step(s, Insn(Ret(imm), 0))
    case SavedRegs(_, _, len', _) => Step(s, Insn(PopAd, len'))
    case SavedFlags(_, _, len', _) => Step(s, Insn(PopFd, len'))
  }

  /** Runs a trace; None where a stack access would leave memory. */
  function Exec(s: State, t: Trace): Option<State>
    decreases t
  {
    match t
    case Done => Some(s)
    case Other(after, rest) => Exec(after, rest)
    case _ =>
      if s.Esp() < Slot(t) then None
      else
        var inner := Exec(Enter(s, t), t.body);
        if inner.None? || inner.value.Esp() + Slot(t) > MEM_SIZE then None
        else Exec(Leave(inner.value, t), t.rest)
  }

  ghost predicate SameFrom(m: Mem, m': Mem, limit: nat) {
    forall j :: limit <= j < MEM_SIZE ==> m'[j] == m[j]
  }

  /**
   * Everything in the trace writes only below `limit`, and every bracketed body is stack-balanced and
   * writes only below the slot that its opening instruction pushed.
   */
  ghost predicate Contained(s: State, t: Trace, limit: nat)
    decreases t
  {
    match t
    case Done => true
    case Other(after, rest) => SameFrom(s.mem, after.mem, limit) && Contained(after, rest, limit)
    case _ =>
      && Slot(t) <= s.Esp() <= limit
      && var s1 := Enter(s, t);
      && Contained(s1, t.body, s1.Esp())
      && var s2 := Exec(s1, t.body);
      && s2.Some? && s2.value.Esp() == s.Esp() - Slot(t)
      && Contained(Leave(s2.value, t), t.rest, limit)
  }

  /** What the bracket at the head of a trace promises: s before it, s2 before its closing instruction, s3 after. */
  ghost predicate Restored(s: State, t: Trace, s2: State, s3: State) {
    match t
    case Called(len, _, _, imm, _) => s3.eip == Wrap(s.eip + len) && s3.Esp() == Wrap(s.Esp() + imm)
    case SavedRegs(_, _, _, _) => s3.regs == s.regs
    case SavedFlags(_, _, _, _) =>
      && s3.eflags % 0x1_0000 == s.eflags % 0x1_0000 && s3.eflags / 0x1_0000 == s2.eflags / 0x1_0000
      && s3.Esp() == s.Esp()
    case _ => true
  }

  /** Every bracket in the trace, at every depth, keeps its promise. */
  ghost predicate AllRestored(s: State, t: Trace)
    decreases t
  {
    match t
    case Done => true
    case Other(after, rest) => AllRestored(after, rest)
    case _ =>
      s.Esp() >= Slot(t) &&
      var s1 := Enter(s, t);
      var s2 := Exec(s1, t.body);
      && AllRestored(s1, t.body)
      && s2.Some? && s2.value.Esp() + Slot(t) <= MEM_SIZE
      && Restored(s, t, s2.value, Leave(s2.value, t))
      && AllRestored(Leave(s2.value, t), t.rest)
  }

  lemma EnterFrame(s: State, t: Trace)
    requires !t.Done? && !t.Other? && s.Esp() >= Slot(t)
    ensures SameFrom(s.mem, Enter(s, t).mem, s.Esp())
    ensures Enter(s, t).Esp() == s.Esp() - Slot(t)
  {
    hide Push32, PushAll, Dwords;
    var n := s.Advance(t.len);
    match t {
      case Called(_, _, _, _, _) => PushRefines(n, n.eip, s.Esp());
      case SavedFlags(_, _, _, _) => PushRefines(n, n.eflags, s.Esp());
      case SavedRegs(_, _, _, _) => PushAllRefines(n, s.Esp());
    }
  }

  /** A dword pushed before the body is found after it. */
  lemma SlotKept(s: State, v: Word, s2: State)
    requires s.Esp() >= 4 && s2.Esp() == s.Esp() - 4
    requires SameFrom(Push32(s, v).mem, s2.mem, s.Esp() - 4)
    ensures Top(s2) == v
  {
    hide Bytes32;
    var m := Push32(s, v).mem;
    ReadBack(s.mem, s.Esp() - 4, v);
    SameWord(m, s2.mem, s.Esp() - 4);
  }

  /** The eight registers pushed before the body are popped after it. */
  lemma RegsKept(s: State, s2: State)
    requires s.Esp() >= 32 && s2.Esp() == s.Esp() - 32
    requires SameFrom(PushAll(s).mem, s2.mem, s.Esp() - 32)
    ensures PopAll(s2).regs == s.regs
  {
    hide PushAll, Get32;
    var base := s.Esp();
    PushAllRefines(s, base);
    DwordsFrame(PushAll(s).mem, s2.mem, s2.Esp(), base);
    assert Dwords(s.mem, s.Esp(), base) == [];
    hide Dwords;
    PopAllRefines(s2, base);
  }

  lemma LeaveRestores(s: State, t: Trace, s2: State)
    requires !t.Done? && !t.Other? && s.Esp() >= Slot(t) && s2.Esp() == s.Esp() - Slot(t)
    requires SameFrom(Enter(s, t).mem, s2.mem, s2.Esp())
    ensures Restored(s, t, s2, Leave(s2, t)) && Leave(s2, t).mem == s2.mem
  {
    hide Put32, Get32;
    match t {
      case Called(len, _, _, _, _) => SlotKept(s.Advance(len), s.Advance(len).eip, s2);
      case SavedFlags(len, _, _, _) => SlotKept(s.Advance(len), s.eflags, s2);
      case SavedRegs(len, _, _, _) => hide PushAll; RegsKept(s.Advance(len), s2);
    }
  }

  /**
   * In every contained execution, at every depth of nesting: RET resumes just after its own CALL with esp
   * as before the CALL plus the immediate, POPAD restores all eight registers, POPFD the low half of EFLAGS
   * and no more; and the execution as a whole leaves memory from its limit up as it was.
   */
  lemma {:induction false} NestedCallsReturn(s: State, t: Trace, limit: nat)
    requires Contained(s, t, limit)
    ensures AllRestored(s, t)
    ensures Exec(s, t).Some? && SameFrom(s.mem, Exec(s, t).value.mem, limit)
    decreases t
  {
    hide Enter, Leave, Restored;
    match t {
      case Done =>
      case Other(after, rest) => NestedCallsReturn(after, rest, limit);
      case _ =>
        var s1 := Enter(s, t);
        EnterFrame(s, t);
        NestedCallsReturn(s1, t.body, s1.Esp());
        var s2 := Exec(s1, t.body).value;
        LeaveRestores(s, t, s2);
        NestedCallsReturn(Leave(s2, t), t.rest, limit);
    }
  }

  /** n CALLs nested in one another, each followed by its RET. */
  function Deep(n: nat, len: nat, target: Word): Trace {
    if n == 0 then Done else Called(len, target, Deep(n - 1, len, target), 0, Done)
  }

  /** One CALL around a contained and balanced body. */
  lemma ContainedCall(s: State, t: Trace, s2: State)
    requires t.Called? && t.rest == Done && s.Esp() >= 4
    requires var s1 := Enter(s, t);
             Contained(s1, t.body, s1.Esp()) && Exec(s1, t.body) == Some(s2) && s2.Esp() == s.Esp() - 4
    ensures Contained(s, t, s.Esp()) && Exec(s, t) == Some(Leave(s2, t))
  {
    hide Enter, Leave;
    assert Contained(Leave(s2, t), t.rest, s.Esp());
    assert Exec(Leave(s2, t), t.rest) == Some(Leave(s2, t));
  }

  /** Such a CALL comes back to the next instruction with esp as it was. */
  lemma CallComesBack(s: State, t: Trace, s2: State)
    requires t.Called? && t.rest == Done && t.imm == 0 && s.Esp() >= 4
    requires var s1 := Enter(s, t);
             Contained(s1, t.body, s1.Esp()) && Exec(s1, t.body) == Some(s2) && s2.Esp() == s1.Esp()
    ensures Contained(s, t, s.Esp()) && Exec(s, t).Some?
    ensures Exec(s, t).value.Esp() == s.Esp() && Exec(s, t).value.eip == Wrap(s.eip + t.len)
  {
    hide Enter, Leave, Contained, Exec, AllRestored, SameFrom;
    EnterFrame(s, t);
    NestedCallsReturn(Enter(s, t), t.body, Enter(s, t).Esp());
    ContainedCall(s, t, s2);
    LeaveRestores(s, t, s2);
  }

  lemma NoCall(s: State)
    ensures Contained(s, Done, s.Esp()) && Exec(s, Done) == Some(s)
  {
  }

  /** Recursion to any depth that the stack has room for is such an execution, and comes back to where it began. */
  lemma {:induction false} DeepCallsReturn(s: State, n: nat, len: nat, target: Word)
    requires s.Esp() >= 4 * n
    ensures Contained(s, Deep(n, len, target), s.Esp())
    ensures var t := Exec(s, Deep(n, len, target));
            t.Some? && t.value.Esp() == s.Esp() && (n > 0 ==> t.value.eip == Wrap(s.eip + len))
    decreases n
  {
    hide Enter, Contained, Exec;
    var t := Deep(n, len, target);
    if n == 0 {
      NoCall(s);
    } else {
      EnterFrame(s, t);
      hide SameFrom;
      var s1 := Enter(s, t);
      DeepCallsReturn(s1, n - 1, len, target);
      CallComesBack(s, t, Exec(s1, t.body).value);
    }
  }
}
