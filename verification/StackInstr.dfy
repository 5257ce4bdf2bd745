/** The stack instructions as the code runs them, on the mutable processor. */
module StackInstr {
  import opened Words
  import opened Alu
  import opened Machine
  import opened Stack

  method PushDword(cpu: Cpu, v: Word)
    requires cpu.Valid() && cpu.esp >= 4
    modifies cpu`esp, cpu.mem
    ensures cpu.esp == old(cpu.esp) - 4 && cpu.Abs() == Push32(old(cpu.Abs()), v)
  {
    cpu.esp := cpu.esp - 4;
    cpu.Write32(cpu.esp, v);
  }

  method PopDword(cpu: Cpu) returns (v: Word)
    requires cpu.Valid() && cpu.esp + 4 <= MEM_SIZE
    modifies cpu`esp
    ensures v == Get32(cpu.mem[..], old(cpu.esp)) && cpu.esp == old(cpu.esp) + 4
  {
    v := cpu.Read32(cpu.esp);
    cpu.esp := cpu.esp + 4;
  }

  method PushI(cpu: Cpu, src: Operand, len: nat)
    requires cpu.Valid() && Enabled(cpu.Abs(), Push(src))
    modifies cpu, cpu.mem
    ensures cpu.Abs() == Step(old(cpu.Abs()), Insn(Push(src), len))
  {
    hide Put32, ReadMem, EffAddr;
    var val := cpu.ReadOperand(src, W32);
    cpu.eip := Wrap(cpu.eip + len);
    PushDword(cpu, val);
  }

  lemma AccessibleAdvance(s: State, o: Operand, len: nat)
    requires Accessible(s, o, 4)
    ensures Accessible(s.Advance(len), o, 4)
  {
  }

  method PopI(cpu: Cpu, dst: Operand, len: nat)
    requires cpu.Valid() && Enabled(cpu.Abs(), Pop(dst))
    modifies cpu, cpu.mem
    ensures cpu.Abs() == Step(old(cpu.Abs()), Insn(Pop(dst), len))
  {
    hide Get32, EffAddr, Accessible;
    cpu.eip := Wrap(cpu.eip + len);
    var val := cpu.Read32(cpu.esp);
    AccessibleAdvance(old(cpu.Abs()), dst, len);
    cpu.WriteOperand(dst, W32, val);
    cpu.esp := Wrap(cpu.esp + 4);
  }

  method CallI(cpu: Cpu, target: Operand, len: nat)
    requires cpu.Valid() && Enabled(cpu.Abs(), Call(target))
    modifies cpu, cpu.mem
    ensures cpu.Abs() == Step(old(cpu.Abs()), Insn(Call(target), len))
  {
    hide Put32, ReadMem, EffAddr;
    var val := cpu.ReadOperand(target, W32);
    cpu.eip := Wrap(cpu.eip + len);
    PushDword(cpu, cpu.eip);
    cpu.eip := val;
  }

  method RetI(cpu: Cpu, imm: Half, len: nat)
    requires cpu.Valid() && Enabled(cpu.Abs(), Ret(imm))
    modifies cpu
    ensures cpu.Abs() == Step(old(cpu.Abs()), Insn(Ret(imm), len))
  {
    cpu.eip := cpu.Read32(cpu.esp);
    cpu.esp := Wrap(cpu.esp + 4);
    cpu.esp := Wrap(cpu.esp + imm);
  }

  method PushFourDwords(cpu: Cpu, a: Word, b: Word, c: Word, d: Word)
    requires cpu.Valid() && cpu.esp >= 16
    modifies cpu`esp, cpu.mem
    ensures cpu.esp == old(cpu.esp) - 16 && cpu.Abs() == PushFour(old(cpu.Abs()), a, b, c, d)
  {
    hide Put32;
    PushDword(cpu, a);
    PushDword(cpu, b);
    PushDword(cpu, c);
    PushDword(cpu, d);
  }

  method PushAdI(cpu: Cpu, len: nat)
    requires cpu.Valid() && Enabled(cpu.Abs(), PushAd)
    modifies cpu, cpu.mem
    ensures cpu.Abs() == Step(old(cpu.Abs()), Insn(PushAd, len))
  {
    hide PushFour;
    cpu.eip := Wrap(cpu.eip + len);
    var temp := cpu.esp;
    PushFourDwords(cpu, cpu.eax, cpu.ecx, cpu.edx, cpu.ebx);
    PushFourDwords(cpu, temp, cpu.ebp, cpu.esi, cpu.edi);
  }

  method PopFourDwords(cpu: Cpu) returns (a: Word, b: Word, c: Word, d: Word)
    requires cpu.Valid() && cpu.esp + 16 <= MEM_SIZE
    modifies cpu`esp
    ensures var m, p := cpu.mem[..], old(cpu.esp);
            && a == Get32(m, p) && b == Get32(m, p + 4) && c == Get32(m, p + 8) && d == Get32(m, p + 12)
            && cpu.esp == p + 16
  {
    hide Get32;
    a := PopDword(cpu);
    b := PopDword(cpu);
    c := PopDword(cpu);
    d := PopDword(cpu);
  }

  method PopAdI(cpu: Cpu, len: nat)
    requires cpu.Valid() && Enabled(cpu.Abs(), PopAd)
    modifies cpu
    ensures cpu.Abs() == Step(old(cpu.Abs()), Insn(PopAd, len))
  {
    hide Get32;
    cpu.eip := Wrap(cpu.eip + len);
    var edi, esi, ebp, _ := PopFourDwords(cpu);
    cpu.edi, cpu.esi, cpu.ebp := edi, esi, ebp;
    var ebx, edx, ecx, eax := PopFourDwords(cpu);
    cpu.ebx, cpu.edx, cpu.ecx, cpu.eax := ebx, edx, ecx, eax;
  }

  method PushFdI(cpu: Cpu, len: nat)
    requires cpu.Valid() && Enabled(cpu.Abs(), PushFd)
    modifies cpu, cpu.mem
    ensures cpu.Abs() == Step(old(cpu.Abs()), Insn(PushFd, len))
  {
    cpu.eip := Wrap(cpu.eip + len);
    PushDword(cpu, cpu.eflags);
  }

  method PopFdI(cpu: Cpu, len: nat)
    requires cpu.Valid() && Enabled(cpu.Abs(), PopFd)
    modifies cpu
    ensures cpu.Abs() == Step(old(cpu.Abs()), Insn(PopFd, len))
  {
    cpu.eip := Wrap(cpu.eip + len);
    var v := PopDword(cpu);
    cpu.eflags := MergeFlags(cpu.eflags, v);
  }
}
