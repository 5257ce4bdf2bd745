/** init_gdt, initialize and the set_thread_area system call on the mutable processor. */
module Syscalls {
  import opened Words
  import opened Machine
  import opened Gdt

  method InitGdtI(cpu: Cpu, table: nat)
    requires cpu.Valid() && TableFits(table)
    modifies cpu.mem
    ensures cpu.mem[..] == InitTable(old(cpu.mem[..]), table, GDT_ENTRIES)
  {
    hide InitialDescriptor;
    for i := 0 to GDT_ENTRIES
      invariant cpu.mem[..] == InitTable(old(cpu.mem[..]), table, i)
    {
      cpu.Copy(table + i * DESCRIPTOR_SIZE, InitialDescriptor(i));
    }
  }

  /** initialize: registers and segments, and a flat descriptor table at GDT_ADDR. */
  method Initialize(cpu: Cpu)
    requires cpu.Valid()
    modifies cpu, cpu.mem
    ensures cpu.Abs() == old(cpu.Abs()).(regs := old(cpu.Abs()).regs.(esp := STACK_BOTTOM),
                                         segs := Segs(0x23, 0x2b, 0x2b, 0x2b, 0, 0), gdtr := GDT_ADDR,
                                         mem := InitTable(old(cpu.mem[..]), GDT_ADDR, GDT_ENTRIES))
    ensures Taken(cpu.mem[..], cpu.gdtr, 0)
    ensures forall n | 0 <= n < GDT_ENTRIES :: SlotBase(cpu.mem[..], cpu.gdtr, n) == 0
  {
    cpu.esp := STACK_BOTTOM;
    cpu.segs := Segs(0x23, 0x2b, 0x2b, 0x2b, 0, 0);
    InitGdtI(cpu, GDT_ADDR);
    cpu.gdtr := GDT_ADDR;
    InitialTableIsFlat(old(cpu.mem[..]), GDT_ADDR);
  }

  method StoreBase(cpu: Cpu, d: nat, u: nat)
    requires cpu.Valid() && u + 16 <= MEM_SIZE && d + 9 <= MEM_SIZE
    modifies cpu.mem
    ensures cpu.mem[..] == BaseFields(old(cpu.mem[..]), d, u)
  {
    hide Get32, Put16;
    cpu.mem[d + 8] := 1;
    var limit := cpu.Read32(u + 8);
    cpu.Write16(d, limit % 0x1_0000);
    var base := cpu.Read32(u + 4);
    cpu.Write16(d + 2, base % 0x1_0000);
    base := cpu.Read32(u + 4);
    cpu.mem[d + 4] := base / 0x1_0000 % 0x100;
    base := cpu.Read32(u + 4);
    cpu.mem[d + 7] := base / 0x100_0000;
  }

  method ReadSegmentI(cpu: Cpu, u: nat) returns (s: Segment)
    requires cpu.Valid() && u + 16 <= MEM_SIZE
    ensures s == ReadSegment(cpu.mem[..], u)
  {
    var base := cpu.Read32(u + 4);
    var limit := cpu.Read32(u + 8);
    var bits: nat := cpu.mem[u + 12];
    s := Segment(base, limit, bits % 2 == 1, bits / 2 % 4, bits / 8 % 2 == 1,
                 bits / 16 % 2 == 1, bits / 32 % 2 == 1, bits / 64 % 2 == 1);
  }

  method StoreAttributes(cpu: Cpu, d: nat, u: nat)
    requires cpu.Valid() && u + 16 <= MEM_SIZE && d + 9 <= MEM_SIZE
    modifies cpu.mem
    ensures cpu.mem[..] == AttributeFields(old(cpu.mem[..]), d, u)
  {
    hide ReadSegment, Access, Granularity;
    var s := ReadSegmentI(cpu, u);
    cpu.mem[d + 5] := Access(s.(notPresent := false));
    s := ReadSegmentI(cpu, u);
    if s.notPresent {
      cpu.mem[d + 5] := cpu.mem[d + 5] % 0x80;
    }
    s := ReadSegmentI(cpu, u);
    cpu.mem[d + 6] := Granularity(s);
  }

  /** The field-by-field stores into gdt[index], with u read again as they go. */
  method StoreDescriptor(cpu: Cpu, d: nat, u: nat)
    requires cpu.Valid() && u + 16 <= MEM_SIZE && d + 9 <= MEM_SIZE
    modifies cpu.mem
    ensures cpu.mem[..] == StoreFields(old(cpu.mem[..]), d, u)
  {
    hide BaseFields, AttributeFields;
    StoreBase(cpu, d, u);
    StoreAttributes(cpu, d, u);
  }

  /** The scan of the three TLS slots. */
  method FindFree(cpu: Cpu) returns (found: bool, index: nat)
    requires cpu.Valid() && TableFits(cpu.gdtr)
    ensures FreeSlot(cpu.mem[..], cpu.gdtr) == if found then Some(index) else None
  {
    index := 0;
    for i := 0 to 3
      invariant forall k | FIRST_TLS <= k < FIRST_TLS + i :: Used(cpu.mem[..], cpu.gdtr, k)
    {
      index := FIRST_TLS + i;
      if cpu.mem[cpu.gdtr + index * DESCRIPTOR_SIZE + 8] == 0 {
        return true, index;
      }
      assert Used(cpu.mem[..], cpu.gdtr, index);
      if i == 2 {
        return false, index;
      }
    }
    found := false;
  }

  method SetThreadAreaI(cpu: Cpu, arg1: Word) returns (ret: Word)
    requires cpu.Valid() && AreaFits(cpu.mem[..], cpu.gdtr, arg1)
    modifies cpu.mem
    ensures AreaOut(cpu.mem[..], ret) == SetThreadArea(old(cpu.mem[..]), cpu.gdtr, arg1)
  {
    hide StoreFields;
    var index: nat := 0;
    var entry := cpu.Read32(arg1);
    if entry != MINUS_ONE {
      index := entry % 0x100;
    } else {
      var found, i := FindFree(cpu);
      if !found {
        return MINUS_ONE;
      }
      index := i;
    }
    hide ChosenSlot;
    StoreDescriptor(cpu, cpu.gdtr + index * DESCRIPTOR_SIZE, arg1);
    cpu.Write32(arg1, index);
    ret := 0;
  }
}
