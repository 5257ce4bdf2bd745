/** The processor: register file, segment registers, EFLAGS, GDTR and flat memory (src/instr.c). */
module Machine {
  import Bits
  import opened Words
  import opened Alu

  datatype Option<+T> = None | Some(value: T)

  datatype Reg = EAX | ECX | EDX | EBX | ESP | EBP | ESI | EDI

  datatype Seg = CS | DS | SS | ES | FS | GS

  datatype Regs = Regs(eax: Word, ecx: Word, edx: Word, ebx: Word, esp: Word, ebp: Word, esi: Word, edi: Word) {
    function Get(r: Reg): Word {
      match r
      case EAX => eax case ECX => ecx case EDX => edx case EBX => ebx
      case ESP => esp case EBP => ebp case ESI => esi case EDI => edi
    }

    function Set(r: Reg, v: Word): Regs {
      match r
      case EAX => this.(eax := v) case ECX => this.(ecx := v)
      case EDX => this.(edx := v) case EBX => this.(ebx := v)
      case ESP => this.(esp := v) case EBP => this.(ebp := v)
      case ESI => this.(esi := v) case EDI => this.(edi := v)
    }
  }

  datatype Segs = Segs(cs: Word, ds: Word, ss: Word, es: Word, fs: Word, gs: Word) {
    function Get(r: Seg): Word {
      match r
      case CS => cs case DS => ds case SS => ss case ES => es case FS => fs case GS => gs
    }
  }

  /** Everything the instructions read and write, as one value. */
  datatype State = State(regs: Regs, eip: Word, eflags: Word, segs: Segs, gdtr: Word, mem: Mem) {
    /** `eip += insn->size` */
    function Advance(len: nat): State {
      this.(eip := Wrap(eip + len))
    }

    function Esp(): Word {
      regs.esp
    }

    function WithEsp(v: Word): State {
      this.(regs := regs.(esp := v))
    }
  }

  // ---------------------------------------------------------------- segment bases

  const GDT_ENTRIES: int := 9
  const GDT_ADDR: int := 0xC0FF_F000
  const DESCRIPTOR_SIZE: int := 10  // sizeof(GDT_Descriptor): nine bytes of fields, two-byte alignment
  const STACK_BOTTOM: int := 0xFFF0_0000

  /** The whole table lies in memory. */
  predicate TableFits(gdtr: int) {
    0 <= gdtr && gdtr + GDT_ENTRIES * DESCRIPTOR_SIZE <= MEM_SIZE
  }

  /** The base address stored in descriptor n. */
  function SlotBase(m: Mem, gdtr: nat, n: nat): Word
    requires TableFits(gdtr) && n < GDT_ENTRIES
  {
    var d := gdtr + n * DESCRIPTOR_SIZE;
    Join(m[d + 2], m[d + 3], m[d + 4], m[d + 7])
  }

  /** get_gdt_base: the descriptor index is taken from bits 15-3 and reduced modulo the table size. */
  function GetGdtBase(m: Mem, gdtr: nat, selector: Half): Word
    requires TableFits(gdtr)
  {
    SlotBase(m, gdtr, selector / 8 % 0x2000 % GDT_ENTRIES)
  }

  // ---------------------------------------------------------------- operands

  datatype MemRef = MemRef(base: Option<Reg>, index: Option<Reg>, scale: nat, disp: Word, segment: Option<Seg>)

  datatype Operand = R(reg: Reg) | I(imm: Word) | M(ref: MemRef)

  function SegmentBase(s: State, seg: Option<Seg>): Word
    requires seg.Some? ==> TableFits(s.gdtr)
  {
    if seg.None? then 0 else GetGdtBase(s.mem, s.gdtr, s.segs.Get(seg.value) % 0x1_0000)
  }

  function EffAddr(s: State, m: MemRef): Word
    requires m.segment.Some? ==> TableFits(s.gdtr)
  {
    var base := if m.base.Some? then s.regs.Get(m.base.value) else 0;
    var index := if m.index.Some? then s.regs.Get(m.index.value) else 0;
    var scale := if m.scale != 0 then m.scale else 1;
    Wrap(SegmentBase(s, m.segment) + base + index * scale + m.disp)
  }

  /** Words that differ by a multiple of 2^32 wrap alike. */
  lemma WrapShift(x: int, k: int)
    ensures Wrap(x - BASE * k) == Wrap(x)
  {
    Bits.DivModUnique(x - BASE * k, BASE, x / BASE - k, x % BASE);
  }

  lemma SignedOffset(x: Word)
    ensures Signed(x) == x - BASE * (if Signed(x) < 0 then 1 else 0)
  {
  }

  /**
   * The sum of the signed parts gives the same address, so a negative displacement or index counts downwards:
   * the address is that sum whenever the sum is an address.
   */
  lemma EffAddrSigned(s: State, m: MemRef)
    requires m.segment.Some? ==> TableFits(s.gdtr)
    ensures var base := if m.base.Some? then Signed(s.regs.Get(m.base.value)) else 0;
            var index := if m.index.Some? then Signed(s.regs.Get(m.index.value)) else 0;
            var sum := Signed(SegmentBase(s, m.segment)) + base
                       + index * (if m.scale != 0 then m.scale else 1) + Signed(m.disp);
            EffAddr(s, m) == Wrap(sum) && (0 <= sum < BASE ==> EffAddr(s, m) == sum)
  {
    hide Signed, SegmentBase, Regs.Get;
    var g := SegmentBase(s, m.segment);
    var b: Word := if m.base.Some? then s.regs.Get(m.base.value) else 0;
    var i: Word := if m.index.Some? then s.regs.Get(m.index.value) else 0;
    var scale := if m.scale != 0 then m.scale else 1;
    SignedZero();
    SignedSum(g, b, i, scale, m.disp);
    hide Wrap;
    WrapOfWord(Signed(g) + Signed(b) + Signed(i) * scale + Signed(m.disp));
  }

  lemma SignedZero()
    ensures Signed(0) == 0
  {
  }

  lemma WrapOfWord(x: int)
    ensures 0 <= x < BASE ==> Wrap(x) == x
  {
  }

  lemma SignedSum(g: Word, b: Word, i: Word, scale: nat, d: Word)
    ensures Wrap(g + b + i * scale + d) == Wrap(Signed(g) + Signed(b) + Signed(i) * scale + Signed(d))
  {
    hide Signed, Wrap;
    SignedOffset(g);
    SignedOffset(b);
    SignedOffset(i);
    SignedOffset(d);
    var one := (x: Word) => if Signed(x) < 0 then 1 else 0;
    var k := one(g) + one(b) + one(i) * scale + one(d);
    assert Signed(i) * scale == i * scale - BASE * (one(i) * scale);
    WrapShift(g + b + i * scale + d, k);
  }

  /** Each segment register supplies its own selector, and the selector's bits 3 to 15 name the descriptor. */
  lemma SegmentNamed(s: State, seg: Seg, slot: nat, low: nat)
    requires TableFits(s.gdtr) && low < 8
    requires var g := s.segs;
             8 * slot + low == (match seg case CS => g.cs case DS => g.ds case SS => g.ss
                                          case ES => g.es case FS => g.fs case GS => g.gs) % 0x1_0000
    ensures SegmentBase(s, Some(seg)) == SlotBase(s.mem, s.gdtr, slot % GDT_ENTRIES)
    ensures SegmentBase(s, None) == 0
  {
    hide SlotBase;
    assert (8 * slot + low) / 8 == slot && slot < 0x2000;
  }

  lemma SegmentDisplaced(s: State, seg: Seg, disp: Word)
    requires TableFits(s.gdtr)
    ensures EffAddr(s, MemRef(None, None, 1, disp, Some(seg))) == Wrap(SegmentBase(s, Some(seg)) + disp)
  {
    hide SegmentBase;
  }

  /** The C access through this operand stays inside the allocation. */
  predicate Accessible(s: State, o: Operand, size: nat) {
    o.M? ==> (o.ref.segment.Some? ==> TableFits(s.gdtr)) && EffAddr(s, o.ref) + size <= MEM_SIZE
  }

  function Size(w: Width): nat {
    match w case W8 => 1 case W16 => 2 case W32 => 4
  }

  /** Operand value, zero-extended; an immediate is taken as decoded. */
  function ReadOp(s: State, o: Operand, w: Width): Word
    requires Accessible(s, o, Size(w))
  {
    match o
    case R(r) => s.regs.Get(r) % w.Modulus()
    case I(v) => v
    case M(ref) => ReadMem(s.mem, EffAddr(s, ref), w)
  }

  function ReadMem(m: Mem, a: nat, w: Width): Word
    requires a + Size(w) <= MEM_SIZE
  {
    match w case W8 => m[a] case W16 => Get16(m, a) case W32 => Get32(m, a)
  }

  function WriteMem(m: Mem, a: nat, w: Width, v: Word): Mem
    requires a + Size(w) <= MEM_SIZE && v < w.Modulus()
  {
    match w case W8 => Blit(m, a, [v]) case W16 => Put16(m, a, v) case W32 => Put32(m, a, v)
  }

  /** The low part of a register replaced; the high-byte names AH..DH denote the low byte in the code. */
  function Merge(before: Word, w: Width, v: Word): Word
    requires v < w.Modulus()
  {
    match w
    case W8 => before - before % 0x100 + v
    case W16 => before - before % 0x1_0000 + v
    case W32 => v
  }

  function WriteOp(s: State, o: Operand, w: Width, v: Word): State
    requires !o.I? && Accessible(s, o, Size(w)) && v < w.Modulus()
  {
    match o
    case R(r) => s.(regs := s.regs.Set(r, Merge(s.regs.Get(r), w, v)))
    case M(ref) => s.(mem := WriteMem(s.mem, EffAddr(s, ref), w, v))
  }

  // ---------------------------------------------------------------- partial operands

  /** What an operand of width w holds: the low bits of a register, the bytes at an address, or the immediate. */
  ghost function OperandValue(s: State, o: Operand, w: Width): nat
    requires Accessible(s, o, Size(w))
  {
    match o
    case R(r) => s.regs.Get(r) % w.Modulus()
    case I(v) => v
    case M(ref) => LittleEndian(s.mem, EffAddr(s, ref), Size(w))
  }

  /** In s' the operand holds v, and what lies beside it in its register or in memory is as in s. */
  ghost predicate Stored(s: State, s': State, o: Operand, w: Width, v: int)
    requires !o.I? && Accessible(s, o, Size(w))
  {
    match o
    case R(r) =>
      && s'.regs.Get(r) % w.Modulus() == v && s'.regs.Get(r) / w.Modulus() == s.regs.Get(r) / w.Modulus()
      && (forall q | q != r :: s'.regs.Get(q) == s.regs.Get(q)) && s'.mem == s.mem
    case M(ref) =>
      var a := EffAddr(s, ref);
      && LittleEndian(s'.mem, a, Size(w)) == v && SameOutside(s.mem, s'.mem, a, a + Size(w)) && s'.regs == s.regs
  }

  lemma MemoryValue(m: Mem, a: nat, w: Width)
    requires a + Size(w) <= MEM_SIZE
    ensures ReadMem(m, a, w) == LittleEndian(m, a, Size(w))
  {
    assert LittleEndian(m, a, 1) == m[a];
    if w != W8 {
      assert LittleEndian(m, a + 1, 1) == m[a + 1];
    }
    if w == W32 {
      assert LittleEndian(m, a + 2, 2) == m[a + 2] + 0x100 * LittleEndian(m, a + 3, 1);
    }
  }

  lemma WriteReads(m: Mem, a: nat, w: Width, v: Word)
    requires a + Size(w) <= MEM_SIZE && v < w.Modulus()
    ensures ReadMem(WriteMem(m, a, w, v), a, w) == v
    ensures SameOutside(m, WriteMem(m, a, w, v), a, a + Size(w))
  {
    match w {
      case W8 =>
      case W16 => hide Bytes16; assert Bytes16(v) == [v % 0x100, v / 0x100] by { BytesOfHalf(v); }
      case W32 => ReadBack(m, a, v); hide Bytes32, Get32;
    }
  }

  lemma BytesOfHalf(v: Half)
    ensures Bytes16(v) == [v % 0x100, v / 0x100]
  {
  }

  lemma MergeParts(x: Word, w: Width, v: Word)
    requires v < w.Modulus()
    ensures var y := Merge(x, w, v); y % w.Modulus() == v && y / w.Modulus() == x / w.Modulus()
  {
    Bits.DivModUnique(Merge(x, w, v), w.Modulus(), x / w.Modulus(), v);
  }

  lemma SetGet(rs: Regs, r: Reg, v: Word, q: Reg)
    ensures rs.Set(r, v).Get(q) == if q == r then v else rs.Get(q)
  {
  }

  lemma ReadValue(s: State, o: Operand, w: Width)
    requires Accessible(s, o, Size(w))
    ensures ReadOp(s, o, w) == OperandValue(s, o, w)
  {
    hide ReadMem, LittleEndian, EffAddr;
    if o.M? {
      MemoryValue(s.mem, EffAddr(s, o.ref), w);
    }
  }

  /** A store of any width puts the value in the operand's own bits or bytes, and touches nothing else. */
  lemma WriteStores(s: State, o: Operand, w: Width, v: Word)
    requires !o.I? && Accessible(s, o, Size(w)) && v < w.Modulus()
    ensures var s' := WriteOp(s, o, w, v);
            Stored(s, s', o, w, v) && s' == s.(regs := s'.regs, mem := s'.mem)
  {
    hide Merge, Regs.Get, Regs.Set, ReadMem, WriteMem, LittleEndian, EffAddr;
    match o {
      case R(r) =>
        var x := s.regs.Get(r);
        MergeParts(x, w, v);
        forall q ensures s.regs.Set(r, Merge(x, w, v)).Get(q) == if q == r then Merge(x, w, v) else s.regs.Get(q) {
          SetGet(s.regs, r, Merge(x, w, v), q);
        }
      case M(ref) =>
        var a := EffAddr(s, ref);
        WriteReads(s.mem, a, w, v);
        MemoryValue(WriteMem(s.mem, a, w, v), a, w);
    }
  }

  // ---------------------------------------------------------------- the emulator's globals

  class Cpu {
    var eax: Word
    var ecx: Word
    var edx: Word
    var ebx: Word
    var esp: Word
    var ebp: Word
    var esi: Word
    var edi: Word
    var eip: Word
    var eflags: Word
    var segs: Segs
    var gdtr: Word
    const mem: array<Byte>

    ghost predicate Valid() {
      mem.Length == MEM_SIZE
    }

    /** The globals as the program starts: calloc'ed memory and cleared registers. */
    constructor ()
      ensures Valid() && fresh(mem)
      ensures Abs().regs == Regs(0, 0, 0, 0, 0, 0, 0, 0) && eip == 0 && eflags == 0x202 && gdtr == 0
      ensures segs == Segs(0, 0, 0, 0, 0, 0) && forall j | 0 <= j < MEM_SIZE :: mem[j] == 0
    {
      eax, ecx, edx, ebx, esp, ebp, esi, edi := 0, 0, 0, 0, 0, 0, 0, 0;
      eip, eflags, gdtr, segs := 0, 0x202, 0, Segs(0, 0, 0, 0, 0, 0);
      mem := new Byte[MEM_SIZE](_ => 0);
    }

    /** The register file and memory, as the value that the specifications speak of. */
    ghost function Abs(): State
      reads this, mem
      requires Valid()
    {
      State(Regs(eax, ecx, edx, ebx, esp, ebp, esi, edi), eip, eflags, segs, gdtr, mem[..])
    }

    method Read16(addr: Word) returns (v: Half)
      requires Valid() && addr + 2 <= MEM_SIZE
      ensures v == Get16(mem[..], addr)
    {
      v := Join(mem[addr], mem[addr + 1], 0, 0);
    }

    method Read32(addr: Word) returns (v: Word)
      requires Valid() && addr + 4 <= MEM_SIZE
      ensures v == Get32(mem[..], addr)
    {
      v := Join(mem[addr], mem[addr + 1], mem[addr + 2], mem[addr + 3]);
    }

    method Write16(addr: Word, value: Half)
      requires Valid() && addr + 2 <= MEM_SIZE
      modifies mem
      ensures mem[..] == Put16(old(mem[..]), addr, value)
    {
      mem[addr] := value % 0x100;
      mem[addr + 1] := value / 0x100;
    }

    method Write32(addr: Word, value: Word)
      requires Valid() && addr + 4 <= MEM_SIZE
      modifies mem
      ensures mem[..] == Put32(old(mem[..]), addr, value)
    {
      mem[addr] := value % 0x100;
      mem[addr + 1] := value / 0x100 % 0x100;
      mem[addr + 2] := value / 0x1_0000 % 0x100;
      mem[addr + 3] := value / 0x100_0000;
    }

    /** memcpy(&mem[addr], bs, |bs|) */
    method Copy(addr: nat, bs: seq<Byte>)
      requires Valid() && addr + |bs| <= MEM_SIZE
      modifies mem
      ensures mem[..] == Blit(old(mem[..]), addr, bs)
    {
      for i := 0 to |bs|
        invariant forall j :: 0 <= j < MEM_SIZE ==> mem[j] == if addr <= j < addr + i then bs[j - addr] else old(mem[j])
      {
        mem[addr + i] := bs[i];
      }
    }

    method GetReg(r: Reg) returns (v: Word)
      requires Valid()
      ensures v == Abs().regs.Get(r)
    {
      match r
      case EAX => v := eax; case ECX => v := ecx;
      case EDX => v := edx; case EBX => v := ebx;
      case ESP => v := esp; case EBP => v := ebp;
      case ESI => v := esi; case EDI => v := edi;
    }

    method SetReg(r: Reg, v: Word)
      requires Valid()
      modifies this
      ensures Abs() == old(Abs()).(regs := old(Abs()).regs.Set(r, v))
    {
      match r
      case EAX => eax := v; case ECX => ecx := v;
      case EDX => edx := v; case EBX => ebx := v;
      case ESP => esp := v; case EBP => ebp := v;
      case ESI => esi := v; case EDI => edi := v;
    }

    method GdtBase(selector: Half) returns (base: Word)
      requires Valid() && TableFits(gdtr)
      ensures base == GetGdtBase(mem[..], gdtr, selector)
    {
      var n := selector / 8 % 0x2000;
      n := n % GDT_ENTRIES;
      var d := gdtr + n * DESCRIPTOR_SIZE;
      base := Join(mem[d + 2], mem[d + 3], mem[d + 4], mem[d + 7]);
    }

    method Address(m: MemRef) returns (a: Word)
      requires Valid() && (m.segment.Some? ==> TableFits(gdtr))
      ensures a == EffAddr(Abs(), m)
    {
      var base, index, segment, scale := 0, 0, 0, 1;
      if m.base.Some? {
        base := GetReg(m.base.value);
      }
      if m.index.Some? {
        index := GetReg(m.index.value);
      }
      if m.scale != 0 {
        scale := m.scale;
      }
      if m.segment.Some? {
        segment := GdtBase(segs.Get(m.segment.value) % 0x1_0000);
      }
      a := Wrap(segment + base + index * scale + m.disp);
    }

    method ReadOperand(o: Operand, w: Width) returns (v: Word)
      requires Valid() && Accessible(Abs(), o, Size(w))
      ensures v == ReadOp(Abs(), o, w)
    {
      match o
      case R(r) =>
        v := GetReg(r);
        v := v % w.Modulus();
      case I(i) =>
        v := i;
      case M(ref) =>
        var a := Address(ref);
        match w {
          case W8 => v := mem[a];
          case W16 => v := Read16(a);
          case W32 => v := Read32(a);
        }
    }

    method WriteOperand(o: Operand, w: Width, v: Word)
      requires Valid() && !o.I? && Accessible(Abs(), o, Size(w)) && v < w.Modulus()
      modifies this, mem
      ensures Abs() == WriteOp(old(Abs()), o, w, v)
    {
      match o
      case R(r) =>
        var x := GetReg(r);
        SetReg(r, Merge(x, w, v));
      case M(ref) =>
        var a := Address(ref);
        match w {
          case W8 => Copy(a, [v]);
          case W16 => Write16(a, v);
          case W32 => Write32(a, v);
        }
    }
  }
}
