/** REP STOS: one iteration per dispatch, with the base of ES read again at each of them (src/instr.c). */
module RepStos {
  import opened Bits
  import opened Words
  import opened Flags
  import opened Machine
  import opened RepMovs
  import opened Gdt

  /** Where REP STOS stores next: the base of ES, read from the descriptor table, plus edi. */
  function StosDest(s: State): Word
    requires TableFits(s.gdtr)
  {
    Wrap(GetGdtBase(s.mem, s.gdtr, s.segs.es % 0x1_0000) + s.regs.edi)
  }

  predicate StosEnabled(s: State, sz: nat) {
    IsSize(sz) && TableFits(s.gdtr) && StosDest(s) + sz <= MEM_SIZE
  }

  /** AL, AX or EAX as bytes. */
  function Accumulator(eax: Word, sz: nat): seq<Byte>
    requires IsSize(sz)
  {
    Bytes32(eax)[..sz]
  }

  /** One dispatch of REP STOS. */
  function StosStep(s: State, sz: nat, len: nat): State
    requires StosEnabled(s, sz)
  {
    var r := s.regs;
    var ecx := Wrap(r.ecx - 1);
    s.(mem := Blit(s.mem, StosDest(s), Accumulator(r.eax, sz)),
       regs := r.(edi := Move(s.eflags, r.edi, sz), ecx := ecx),
       eip := NextEip(s, ecx, len))
  }

  function Stos(s: State, sz: nat, len: nat, k: nat): Option<State> {
    if k == 0 then Some(s)
    else
      var t := Stos(s, sz, len, k - 1);
      if t.Some? && StosEnabled(t.value, sz) then Some(StosStep(t.value, sz, len)) else None
  }

  /** The start of a REP STOS of n elements: DF clear, and a destination in memory apart from the table. */
  predicate StosStart(s: State, sz: nat, n: nat) {
    && IsSize(sz) && n > 0 && s.regs.ecx == n && !TestFlag(s.eflags, DF) && TableFits(s.gdtr)
    && StosDest(s) + n * sz <= MEM_SIZE
    && (StosDest(s) + n * sz <= s.gdtr || s.gdtr + GDT_ENTRIES * DESCRIPTOR_SIZE <= StosDest(s))
  }

  /** Byte j when p bytes from address a on have been filled. */
  predicate FilledAt(m: Mem, m': Mem, a: nat, eax: Word, sz: nat, p: nat, j: int)
    requires IsSize(sz)
  {
    0 <= j < MEM_SIZE ==> m'[j] == if a <= j < a + p then Bytes32(eax)[(j - a) % sz] else m[j]
  }

  ghost predicate Filled(m: Mem, m': Mem, a: nat, eax: Word, sz: nat, p: nat)
    requires IsSize(sz)
  {
    forall j :: FilledAt(m, m', a, eax, sz, p, j)
  }

  /** t is the state after k of n iterations. */
  ghost predicate StosAt(s: State, sz: nat, len: nat, n: nat, k: nat, t: State)
    requires StosStart(s, sz, n) && k <= n
  {
    && t == s.(regs := s.regs.(ecx := n - k, edi := Wrap(s.regs.edi + k * sz)),
               eip := if k == n then Wrap(s.eip + len) else s.eip, mem := t.mem)
    && Filled(s.mem, t.mem, StosDest(s), s.regs.eax, sz, k * sz)
  }

  lemma FillChunk(m: Mem, m': Mem, a: nat, eax: Word, sz: nat, p: nat)
    requires IsSize(sz) && p % sz == 0 && a + p + sz <= MEM_SIZE && Filled(m, m', a, eax, sz, p)
    ensures Filled(m, Blit(m', a + p, Accumulator(eax, sz)), a, eax, sz, p + sz)
  {
    hide Bytes32;
    var m'' := Blit(m', a + p, Accumulator(eax, sz));
    var q := p + sz;
    forall j ensures FilledAt(m, m'', a, eax, sz, q, j) {
      if a + p <= j < a + q {
        OffsetInChunk(sz, p, j - a);
      } else {
        assert FilledAt(m, m', a, eax, sz, p, j);
      }
    }
  }

  /** A fill apart from the table leaves every descriptor's base. */
  lemma FillKeepsBase(m: Mem, m': Mem, a: nat, eax: Word, sz: nat, p: nat, gdtr: nat, selector: Half)
    requires IsSize(sz) && TableFits(gdtr) && Filled(m, m', a, eax, sz, p)
    requires a + p <= gdtr || gdtr + GDT_ENTRIES * DESCRIPTOR_SIZE <= a
    ensures GetGdtBase(m', gdtr, selector) == GetGdtBase(m, gdtr, selector)
  {
    var d := gdtr + selector / 8 % 0x2000 % GDT_ENTRIES * DESCRIPTOR_SIZE;
    assert FilledAt(m, m', a, eax, sz, p, d + 2);
    assert FilledAt(m, m', a, eax, sz, p, d + 3);
    assert FilledAt(m, m', a, eax, sz, p, d + 4);
    assert FilledAt(m, m', a, eax, sz, p, d + 7);
  }

  lemma WrapAdd(b: int, e: int, p: nat)
    requires Wrap(b + e) + p < BASE
    ensures Wrap(b + Wrap(e + p)) == Wrap(b + e) + p
  {
    var q := (b + e) / BASE;
    var r := (e + p) / BASE;
    DivModUnique(b + (e + p - BASE * r), BASE, q - r, Wrap(b + e) + p);
  }

  /** The destination moves with edi, since the table is not overwritten. */
  lemma StosDestMoves(s: State, sz: nat, len: nat, n: nat, k: nat, t: State)
    requires StosStart(s, sz, n) && k < n && StosAt(s, sz, len, n, k, t)
    ensures StosEnabled(t, sz) && StosDest(t) == StosDest(s) + k * sz
  {
    hide TestFlag, Filled, GetGdtBase;
    MulLe(k + 1, n, sz);
    ChunkMultiple(sz, k);
    var sel := s.segs.es % 0x1_0000;
    FillKeepsBase(s.mem, t.mem, StosDest(s), s.regs.eax, sz, k * sz, s.gdtr, sel);
    WrapAdd(GetGdtBase(s.mem, s.gdtr, sel), s.regs.edi, k * sz);
  }

  lemma StosAtStep(s: State, sz: nat, len: nat, n: nat, k: nat, t: State)
    requires StosStart(s, sz, n) && k < n && StosAt(s, sz, len, n, k, t)
    ensures StosEnabled(t, sz) && StosAt(s, sz, len, n, k + 1, StosStep(t, sz, len))
  {
    hide TestFlag, Filled, GetGdtBase, StosDest, Blit, Accumulator;
    StosDestMoves(s, sz, len, n, k, t);
    MulLe(k + 1, n, sz);
    ChunkMultiple(sz, k);
    WrapAdd(0, s.regs.edi + k * sz, 0);
    WrapTwice(s.regs.edi + k * sz, sz);
    FillChunk(s.mem, t.mem, StosDest(s), s.regs.eax, sz, k * sz);
  }

  lemma WrapTwice(x: int, y: int)
    ensures Wrap(Wrap(x) + y) == Wrap(x + y)
  {
    var q := x / BASE;
    DivModUnique(x + y, BASE, q + (Wrap(x) + y) / BASE, Wrap(Wrap(x) + y));
  }

  lemma StosAtStart(s: State, sz: nat, len: nat, n: nat)
    requires StosStart(s, sz, n)
    ensures StosAt(s, sz, len, n, 0, s)
  {
    hide TestFlag, StosDest;
    assert 0 * sz == 0;
    assert Filled(s.mem, s.mem, StosDest(s), s.regs.eax, sz, 0);
  }

  /** The state after k of n iterations of REP STOS. */
  lemma {:induction false} StosAfter(s: State, sz: nat, len: nat, n: nat, k: nat)
    requires StosStart(s, sz, n) && k <= n
    ensures Stos(s, sz, len, k).Some? && StosAt(s, sz, len, n, k, Stos(s, sz, len, k).value)
    decreases k
  {
    hide StosStart, StosStep, StosEnabled, StosAt;
    if k == 0 {
      StosAtStart(s, sz, len, n);
    } else {
      StosAfter(s, sz, len, n, k - 1);
      StosAtStep(s, sz, len, n, k - 1, Stos(s, sz, len, k - 1).value);
    }
  }

  lemma StosDestIsStart(s: State, slot: nat, low: nat)
    requires TableFits(s.gdtr) && low < 8 && s.segs.es % 0x1_0000 == 8 * slot + low
    ensures StosDest(s) == Wrap(SlotBase(s.mem, s.gdtr, slot % GDT_ENTRIES) + s.regs.edi)
  {
    hide SlotBase;
    assert (8 * slot + low) / 8 == slot && slot < 0x2000;
  }

  /** The p bytes from address a on are copies of AL, AX or EAX, lowest byte first, and nothing else has changed. */
  ghost predicate FilledFrom(s: State, t: State, a: int, sz: nat, p: nat) {
    && IsSize(sz) && 0 <= a && a + p <= MEM_SIZE
    && SameOutside(s.mem, t.mem, a, a + p)
    && forall i | 0 <= i < p :: t.mem[a + i] == s.regs.eax / Pow2(8 * (i % sz)) % 0x100
  }

  /** Before iteration k < n the same instruction is fetched again, with its bytes as they were. */
  ghost predicate Repeats(s: State, sz: nat, len: nat, n: nat) {
    s.eip + len <= MEM_SIZE &&
    forall k | 0 <= k < n ::
      Stos(s, sz, len, k).Some? &&
      var t := Stos(s, sz, len, k).value;
      t.eip == s.eip && t.regs.ecx == n - k && t.mem[s.eip..s.eip + len] == s.mem[s.eip..s.eip + len]
  }

  /** n elements from a on lie in memory, apart from the descriptor table and the instruction. */
  predicate FillApart(s: State, a: nat, sz: nat, len: nat, n: nat) {
    var z := a + n * sz;
    z <= MEM_SIZE && (z <= s.gdtr || s.gdtr + GDT_ENTRIES * DESCRIPTOR_SIZE <= a) && CodeApart(s.eip, len, a, z)
  }

  /**
   * Re-dispatching REP STOS with a selector of descriptor `slot` in ES, whatever its low three bits, takes exactly
   * n steps. It writes n copies of the accumulator from that descriptor's base plus edi on, and nothing else.
   */
  lemma StosFillsExactly(s: State, sz: nat, len: nat, n: nat, slot: nat, low: nat, a: Word)
    requires IsSize(sz) && n > 0 && s.regs.ecx == n && !TestFlag(s.eflags, DF) && TableFits(s.gdtr)
    requires low < 8 && s.segs.es % 0x1_0000 == 8 * slot + low
    requires a == Wrap(SlotBase(s.mem, s.gdtr, slot % GDT_ENTRIES) + s.regs.edi) && FillApart(s, a, sz, len, n)
    ensures Repeats(s, sz, len, n) && Stos(s, sz, len, n).Some?
    ensures var t := Stos(s, sz, len, n).value;
            && t.eip == Wrap(s.eip + len) != s.eip
            && t == s.(regs := s.regs.(ecx := 0, edi := Wrap(s.regs.edi + n * sz)), eip := t.eip, mem := t.mem)
            && FilledFrom(s, t, a, sz, n * sz)
  {
    hide TestFlag, StosDest, Stos, SlotBase, Pow2, FillApart, FilledFrom, Repeats;
    StosDestIsStart(s, slot, low);
    StosRun(s, sz, len, n);
  }

  lemma AccumulatorByte(eax: Word, sz: nat, i: nat)
    requires IsSize(sz) && i < sz
    ensures Accumulator(eax, sz)[i] == eax / Pow2(8 * i) % 0x100
  {
    BytePowers();
    hide Pow2;
  }

  lemma BytePowers()
    ensures Pow2(0) == 1 && Pow2(8) == 0x100 && Pow2(16) == 0x1_0000 && Pow2(24) == 0x100_0000
  {
    WidthPowers();
    Pow2Add(16, 8);
  }

  /** With ES = 0x2B over the table that init_gdt leaves, ES:EDI is address edi. */
  lemma FlatFill(s: State, m: Mem, sz: nat, len: nat, n: nat)
    requires IsSize(sz) && n > 0 && s.regs.ecx == n && !TestFlag(s.eflags, DF) && s.segs.es == 0x2B
    requires TableFits(s.gdtr) && SameTable(InitTable(m, s.gdtr, GDT_ENTRIES), s.mem, s.gdtr)
    requires FillApart(s, s.regs.edi, sz, len, n)
    ensures Stos(s, sz, len, n).Some?
    ensures FilledFrom(s, Stos(s, sz, len, n).value, s.regs.edi, sz, n * sz)
  {
    hide TestFlag, Stos, SlotBase, InitTable, SameSlot, FilledFrom, Repeats, Taken;
    InitialTableIsFlat(m, s.gdtr);
    SameSlotFacts(InitTable(m, s.gdtr, GDT_ENTRIES), s.mem, s.gdtr, 5);
    StosFillsExactly(s, sz, len, n, 5, 3, s.regs.edi);
  }

  /** The run in terms of the address that each dispatch computes. */
  lemma StosRun(s: State, sz: nat, len: nat, n: nat)
    requires IsSize(sz) && n > 0 && s.regs.ecx == n && !TestFlag(s.eflags, DF) && TableFits(s.gdtr)
    requires FillApart(s, StosDest(s), sz, len, n)
    ensures s.eip + len <= MEM_SIZE && StosDest(s) + n * sz <= MEM_SIZE
    ensures Repeats(s, sz, len, n) && Stos(s, sz, len, n).Some?
    ensures var t := Stos(s, sz, len, n).value;
            && t.eip == Wrap(s.eip + len) != s.eip
            && t == s.(regs := s.regs.(ecx := 0, edi := Wrap(s.regs.edi + n * sz)), eip := t.eip, mem := t.mem)
            && FilledFrom(s, t, StosDest(s), sz, n * sz)
  {
    hide TestFlag, StosDest, Stos, Bytes32, Pow2;
    forall k | 0 <= k < n
      ensures Stos(s, sz, len, k).Some?
      ensures var t := Stos(s, sz, len, k).value;
              t.eip == s.eip && t.regs.ecx == n - k && t.mem[s.eip..s.eip + len] == s.mem[s.eip..s.eip + len]
    {
      StosAfter(s, sz, len, n, k);
      MulLe(k, n, sz);
      CodeKeptByFill(s, sz, k * sz, Stos(s, sz, len, k).value.mem, StosDest(s), len);
    }
    StosAfter(s, sz, len, n, n);
    FilledNumbers(s.mem, Stos(s, sz, len, n).value.mem, StosDest(s), s.regs.eax, sz, n * sz);
  }

  lemma CodeKeptByFill(s: State, sz: nat, p: nat, m': Mem, a: nat, len: nat)
    requires IsSize(sz) && Filled(s.mem, m', a, s.regs.eax, sz, p)
    requires s.eip + len <= MEM_SIZE && (s.eip + len <= a || a + p <= s.eip)
    ensures m'[s.eip..s.eip + len] == s.mem[s.eip..s.eip + len]
  {
    hide Bytes32;
    forall j | s.eip <= j < s.eip + len ensures m'[j] == s.mem[j] {
      assert FilledAt(s.mem, m', a, s.regs.eax, sz, p, j);
    }
  }

  lemma FilledBytes(m: Mem, m': Mem, a: nat, eax: Word, sz: nat, p: nat)
    requires IsSize(sz) && a + p <= MEM_SIZE && Filled(m, m', a, eax, sz, p)
    ensures forall j | 0 <= j < MEM_SIZE && !(a <= j < a + p) :: m'[j] == m[j]
    ensures forall i | 0 <= i < p :: m'[a + i] == Accumulator(eax, sz)[i % sz]
  {
    hide Bytes32;
    forall j | 0 <= j < MEM_SIZE && !(a <= j < a + p) ensures m'[j] == m[j] {
      assert FilledAt(m, m', a, eax, sz, p, j);
    }
    forall i | 0 <= i < p ensures m'[a + i] == Accumulator(eax, sz)[i % sz] {
      assert FilledAt(m, m', a, eax, sz, p, a + i);
      assert (a + i - a) % sz == i % sz;
    }
  }

  /** The same in terms of the number in eax: byte i of an element is its byte i from below. */
  lemma FilledNumbers(m: Mem, m': Mem, a: nat, eax: Word, sz: nat, p: nat)
    requires IsSize(sz) && a + p <= MEM_SIZE && Filled(m, m', a, eax, sz, p)
    ensures forall j | 0 <= j < MEM_SIZE && !(a <= j < a + p) :: m'[j] == m[j]
    ensures forall i | 0 <= i < p :: m'[a + i] == eax / Pow2(8 * (i % sz)) % 0x100
  {
    hide Accumulator, Pow2, Filled;
    FilledBytes(m, m', a, eax, sz, p);
    forall i | 0 <= i < p ensures m'[a + i] == eax / Pow2(8 * (i % sz)) % 0x100 {
      AccumulatorByte(eax, sz, i % sz);
    }
  }

  predicate FourEqualBytes(eax: Word) {
    forall i | 0 <= i < 4 :: Bytes32(eax)[i] == Bytes32(eax)[0]
  }

  lemma RepeatedByte(b: Byte)
    ensures FourEqualBytes(0x0101_0101 * b)
  {
    var x := 0x0101_0101 * b;
    DivModUnique(x, 0x100, 0x1_0101 * b, b);
    DivModUnique(0x1_0101 * b, 0x100, 0x101 * b, b);
    DivModUnique(x, 0x1_0000, 0x101 * b, 0x101 * b);
    DivModUnique(0x101 * b, 0x100, b, b);
    DivModUnique(x, 0x100_0000, b, 0x1_0101 * b);
  }

  /** With four equal bytes in eax, REP STOSD of n and REP STOSB of 4n end in the same state. */
  lemma WideFillRefinesByteFill(s: State, len: nat, n: nat, v: Byte)
    requires StosStart(s, 4, n) && s.regs.eax == 0x0101_0101 * v
    ensures var b := s.(regs := s.regs.(ecx := 4 * n));
            StosStart(b, 1, 4 * n) && Stos(s, 4, len, n) == Stos(b, 1, len, 4 * n)
  {
    hide TestFlag, Stos, Filled, FourEqualBytes, GetGdtBase;
    RepeatedByte(v);
    var b := s.(regs := s.regs.(ecx := 4 * n));
    assert StosDest(b) == StosDest(s);
    hide StosDest;
    StosAfter(s, 4, len, n, n);
    StosAfter(b, 1, len, 4 * n, 4 * n);
    SameFills(s.mem, Stos(s, 4, len, n).value.mem, Stos(b, 1, len, 4 * n).value.mem, StosDest(s), s.regs.eax, 4 * n);
  }

  lemma SameFills(m: Mem, m1: Mem, m2: Mem, a: nat, eax: Word, p: nat)
    requires Filled(m, m1, a, eax, 4, p) && Filled(m, m2, a, eax, 1, p)
    requires FourEqualBytes(eax)
    ensures m1 == m2
  {
    hide Bytes32;
    forall j | 0 <= j < MEM_SIZE ensures m1[j] == m2[j] {
      assert FilledAt(m, m1, a, eax, 4, p, j);
      assert FilledAt(m, m2, a, eax, 1, p, j);
    }
  }
}
