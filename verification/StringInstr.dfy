/** REP MOVS and REP STOS as the code runs them, and the loop that dispatches them again. */
module StringInstr {
  import Bits
  import opened Words
  import opened Flags
  import opened Machine
  import opened RepMovs
  import opened RepStos

  /** The byte, word or dword at esi is stored at edi. */
  method MoveElement(cpu: Cpu, sz: nat)
    requires cpu.Valid() && MovsEnabled(cpu.Abs(), sz)
    modifies cpu.mem
    ensures cpu.mem[..] == Blit(old(cpu.mem[..]), cpu.edi, old(cpu.mem[..])[cpu.esi..cpu.esi + sz])
  {
    hide Get16, Get32, Bytes16, Bytes32, Blit;
    if sz == 1 {
      cpu.Copy(cpu.edi, [cpu.mem[cpu.esi]]);
      assert [old(cpu.mem[..])[cpu.esi]] == old(cpu.mem[..])[cpu.esi..cpu.esi + 1];
    } else if sz == 2 {
      var v := cpu.Read16(cpu.esi);
      BytesOfGet16(cpu.mem[..], cpu.esi);
      cpu.Write16(cpu.edi, v);
    } else {
      var v := cpu.Read32(cpu.esi);
      BytesOfGet(cpu.mem[..], cpu.esi);
      cpu.Write32(cpu.edi, v);
    }
  }

  method RepMovsI(cpu: Cpu, sz: nat, len: nat)
    requires cpu.Valid() && MovsEnabled(cpu.Abs(), sz)
    modifies cpu, cpu.mem
    ensures cpu.Abs() == MovsStep(old(cpu.Abs()), sz, len)
  {
    hide TestFlag, Blit;
    MoveElement(cpu, sz);
    cpu.ecx := Wrap(cpu.ecx as int - 1);
    cpu.edi := Move(cpu.eflags, cpu.edi, sz);
    cpu.esi := Move(cpu.eflags, cpu.esi, sz);
    if cpu.ecx == 0 {
      cpu.eip := Wrap(cpu.eip + len);
    }
  }

  /** AL, AX or EAX is stored at dest. */
  method StoreElement(cpu: Cpu, dest: Word, sz: nat)
    requires cpu.Valid() && IsSize(sz) && dest + sz <= MEM_SIZE
    modifies cpu.mem
    ensures cpu.mem[..] == Blit(old(cpu.mem[..]), dest, Accumulator(cpu.eax, sz))
  {
    LowParts(cpu.eax);
    hide Accumulator, Bytes32, Bytes16;
    if sz == 1 {
      cpu.Copy(dest, [cpu.eax % 0x100]);
    } else if sz == 2 {
      cpu.Write16(dest, cpu.eax % 0x1_0000);
    } else {
      cpu.Write32(dest, cpu.eax);
    }
  }

  lemma LowParts(x: Word)
    ensures Accumulator(x, 1) == [x % 0x100]
    ensures Accumulator(x, 2) == Bytes16(x % 0x1_0000)
    ensures Accumulator(x, 4) == Bytes32(x)
  {
    LowHalf(x);
  }

  method RepStosI(cpu: Cpu, sz: nat, len: nat)
    requires cpu.Valid() && StosEnabled(cpu.Abs(), sz)
    modifies cpu, cpu.mem
    ensures cpu.Abs() == StosStep(old(cpu.Abs()), sz, len)
  {
    hide TestFlag, GetGdtBase, Accumulator, Blit;
    var segbase := cpu.GdtBase(cpu.segs.es % 0x1_0000);
    var dest := Wrap(segbase + cpu.edi);
    StoreElement(cpu, dest, sz);
    cpu.edi := Move(cpu.eflags, cpu.edi, sz);
    cpu.ecx := Wrap(cpu.ecx as int - 1);
    if cpu.ecx == 0 {
      cpu.eip := Wrap(cpu.eip + len);
    }
  }

  lemma LowHalf(x: Word)
    ensures Accumulator(x, 2) == Bytes16(x % 0x1_0000)
  {
    var h := x % 0x1_0000;
    assert x == 0x1_0000 * (x / 0x1_0000) + h;
    Bits.DivModUnique(x, 0x100, 0x100 * (x / 0x1_0000) + h / 0x100, h % 0x100);
    Bits.DivModUnique(x / 0x100, 0x100, x / 0x1_0000, h / 0x100);
  }

  /** A REP MOVS that can be dispatched to its end: buffers in memory, and not onto the instruction itself. */
  predicate MovsRunnable(s: State, sz: nat, len: nat) {
    MovsStart(s, sz, s.regs.ecx) && CodeApart(s.eip, len, s.regs.edi, s.regs.edi + s.regs.ecx * sz)
  }

  /** While eip stays, the count has not run out and the next iteration is in range; at the end both have moved. */
  lemma MovsContinues(s: State, sz: nat, len: nat, k: nat)
    requires MovsRunnable(s, sz, len) && k <= s.regs.ecx
    ensures Movs(s, sz, len, k).Some?
    ensures var t := Movs(s, sz, len, k).value;
            if t.eip == s.eip then k < s.regs.ecx && MovsEnabled(t, sz)
            else k == s.regs.ecx && t.regs.ecx == 0 && t.eip == Wrap(s.eip + len)
  {
    hide TestFlag, Movs, Copied, MovsRegs;
    var n := s.regs.ecx;
    MovsRunsExactly(s, sz, len, n);
    MovsAfter(s, sz, len, n, k);
    if k < n {
      MovsRegsStep(s, sz, len, n, k, Movs(s, sz, len, k).value);
    }
  }

  /** The emulator dispatches the instruction at eip for as long as eip stays on it. */
  method RunRepMovs(cpu: Cpu, sz: nat, len: nat)
    requires cpu.Valid() && MovsRunnable(cpu.Abs(), sz, len)
    modifies cpu, cpu.mem
    ensures Movs(old(cpu.Abs()), sz, len, old(cpu.ecx)) == Some(cpu.Abs())
    ensures cpu.ecx == 0 && cpu.eip == Wrap(old(cpu.eip) + len)
  {
    hide MovsStep, MovsEnabled, MovsRunnable;
    ghost var s, k := cpu.Abs(), 0;
    var start := cpu.eip;
    MovsContinues(s, sz, len, 0);
    while cpu.eip == start
      invariant 0 <= k <= s.regs.ecx && Movs(s, sz, len, k) == Some(cpu.Abs())
      decreases s.regs.ecx - k
    {
      MovsContinues(s, sz, len, k);
      RepMovsI(cpu, sz, len);
      k := k + 1;
    }
    MovsContinues(s, sz, len, k);
  }
}
