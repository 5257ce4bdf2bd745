/** REP MOVS and REP STOS with DF set: the same copies and fills, from the top down (src/instr.c). */
module RepDown {
  import opened Bits
  import opened Words
  import opened Flags
  import opened Machine
  import opened RepMovs
  import opened RepStos

  // ---------------------------------------------------------------- memory upside down

  /** Memory with the order of its bytes reversed: address a becomes MEM_SIZE - 1 - a. */
  function Flip(m: Mem): (r: Mem)
    ensures forall j :: 0 <= j < MEM_SIZE ==> r[j] == m[MEM_SIZE - 1 - j]
  {
    seq(MEM_SIZE, j requires 0 <= j < MEM_SIZE => m[MEM_SIZE - 1 - j])
  }

  /** Where the element of sz bytes at address a starts in flipped memory. */
  function Mirror(a: nat, sz: nat): int {
    MEM_SIZE - sz - a
  }

  /** Copying an element within memory is copying its mirror image within flipped memory. */
  lemma FlipCopy(m: Mem, from: nat, to: nat, sz: nat)
    requires from + sz <= MEM_SIZE && to + sz <= MEM_SIZE
    ensures var f, t := Mirror(from, sz), Mirror(to, sz);
            Flip(Blit(m, to, m[from..from + sz])) == Blit(Flip(m), t, Flip(m)[f..f + sz])
  {
    var f, t := Mirror(from, sz), Mirror(to, sz);
    var m1, m2 := Flip(Blit(m, to, m[from..from + sz])), Blit(Flip(m), t, Flip(m)[f..f + sz]);
    hide Blit, Flip;
    forall j | 0 <= j < MEM_SIZE ensures m1[j] == m2[j] {
      FlipCopyAt(m, from, to, sz, j);
    }
  }

  lemma FlipCopyAt(m: Mem, from: nat, to: nat, sz: nat, j: nat)
    requires from + sz <= MEM_SIZE && to + sz <= MEM_SIZE && j < MEM_SIZE
    ensures var f, t := Mirror(from, sz), Mirror(to, sz);
            Flip(Blit(m, to, m[from..from + sz]))[j] == Blit(Flip(m), t, Flip(m)[f..f + sz])[j]
  {
    hide Blit, Flip;
    var f, t, i := Mirror(from, sz), Mirror(to, sz), MEM_SIZE - 1 - j;
    if t <= j < t + sz {
      assert Flip(m)[f..f + sz][j - t] == Flip(m)[f + (j - t)] == m[from + (i - to)];
      assert m[from..from + sz][i - to] == m[from + (i - to)];
    }
  }

  // ---------------------------------------------------------------- REP MOVS

  /** The start of a downward REP MOVS: esi and edi address the highest element, and both buffers are in memory. */
  predicate DownStart(s: State, sz: nat, n: nat) {
    && IsSize(sz) && n > 0 && s.regs.ecx == n && TestFlag(s.eflags, DF)
    && s.regs.esi + sz <= MEM_SIZE && s.regs.edi + sz <= MEM_SIZE
    && n * sz <= s.regs.esi + sz && n * sz <= s.regs.edi + sz
  }

  /** Registers and eip after k of n iterations. */
  function DownRegs(s: State, sz: nat, len: nat, n: nat, k: nat): State
    requires s.regs.ecx == n && k <= n
  {
    s.(regs := s.regs.(ecx := n - k, esi := Wrap(s.regs.esi - k * sz), edi := Wrap(s.regs.edi - k * sz)),
       eip := if k == n then Wrap(s.eip + len) else s.eip)
  }

  /** t is the state after k of n iterations; upside down, its memory is that of an upward copy. */
  ghost predicate DownAt(s: State, sz: nat, len: nat, n: nat, k: nat, t: State)
    requires DownStart(s, sz, n) && k <= n
  {
    MulLe(k, n, sz);
    && t == DownRegs(s, sz, len, n, k).(mem := t.mem)
    && Copied(Flip(s.mem), Flip(t.mem), Mirror(s.regs.esi, sz), Mirror(s.regs.edi, sz), sz, k * sz)
  }

  lemma DownRegsStep(s: State, sz: nat, len: nat, n: nat, k: nat, t: State)
    requires DownStart(s, sz, n) && k < n && t == DownRegs(s, sz, len, n, k).(mem := t.mem)
    ensures var esi, edi := s.regs.esi - k * sz, s.regs.edi - k * sz;
            && 0 <= esi && 0 <= edi && esi + sz <= MEM_SIZE && edi + sz <= MEM_SIZE && MovsEnabled(t, sz)
            && var u := MovsStep(t, sz, len);
            && u == DownRegs(s, sz, len, n, k + 1).(mem := u.mem)
            && u.mem == Blit(t.mem, edi, t.mem[esi..esi + sz])
  {
    DownRoom(s, sz, n, k);
    hide TestFlag, Blit, DownStart;
    var p := k * sz;
    WrapWord(s.regs.esi - p);
    WrapWord(s.regs.edi - p);
    hide Wrap;
  }

  /** Element k from the top lies in memory in both buffers. */
  lemma DownRoom(s: State, sz: nat, n: nat, k: nat)
    requires DownStart(s, sz, n) && k < n
    ensures var p := k * sz;
            && (k + 1) * sz == p + sz && 0 <= s.regs.esi - p && 0 <= s.regs.edi - p
            && s.regs.esi - p + sz <= MEM_SIZE && s.regs.edi - p + sz <= MEM_SIZE
            && IsSize(sz) && TestFlag(s.eflags, DF) && s.regs.ecx == n > 0
  {
    hide TestFlag;
    MulLe(k + 1, n, sz);
    ChunkMultiple(sz, k);
  }

  lemma WrapWord(x: Word)
    ensures Wrap(x) == x
  {
  }

  lemma DownAtStep(s: State, sz: nat, len: nat, n: nat, k: nat, t: State)
    requires DownStart(s, sz, n) && k < n && DownAt(s, sz, len, n, k, t)
    ensures MovsEnabled(t, sz) && DownAt(s, sz, len, n, k + 1, MovsStep(t, sz, len))
  {
    hide TestFlag, Copied, DownRegs, MovsStep, Flip;
    DownRegsStep(s, sz, len, n, k, t);
    MulLe(k, n, sz);
    ChunkMultiple(sz, k);
    FlipCopy(t.mem, s.regs.esi - k * sz, s.regs.edi - k * sz, sz);
    CopyChunk(Flip(s.mem), Flip(t.mem), Mirror(s.regs.esi, sz), Mirror(s.regs.edi, sz), sz, k * sz);
  }

  lemma DownAtStart(s: State, sz: nat, len: nat, n: nat)
    requires DownStart(s, sz, n)
    ensures DownAt(s, sz, len, n, 0, s)
  {
    hide TestFlag, Origin, Flip;
    assert 0 * sz == 0;
    assert Copied(Flip(s.mem), Flip(s.mem), Mirror(s.regs.esi, sz), Mirror(s.regs.edi, sz), sz, 0);
  }

  /** The state after k of n downward iterations, for every overlap of the buffers. */
  lemma {:induction false} DownAfter(s: State, sz: nat, len: nat, n: nat, k: nat)
    requires DownStart(s, sz, n) && k <= n
    ensures Movs(s, sz, len, k).Some? && DownAt(s, sz, len, n, k, Movs(s, sz, len, k).value)
    decreases k
  {
    hide DownStart, MovsStep, MovsEnabled, DownAt;
    if k == 0 {
      DownAtStart(s, sz, len, n);
    } else {
      DownAfter(s, sz, len, n, k - 1);
      DownAtStep(s, sz, len, n, k - 1, Movs(s, sz, len, k - 1).value);
    }
  }

  /**
   * With DF set, re-dispatching REP MOVS takes exactly n steps: it writes only the n elements that end at edi, both
   * pointers move down by n * sz modulo 2^32, and eip advances with the last step.
   */
  lemma MovsDownRuns(s: State, sz: nat, len: nat, n: nat)
    requires DownStart(s, sz, n)
    ensures forall k | 0 < k < n :: Movs(s, sz, len, k).Some? && Movs(s, sz, len, k).value.eip == s.eip
    ensures Movs(s, sz, len, n).Some?
    ensures var t, r, p := Movs(s, sz, len, n).value, s.regs, n * sz;
            && t == s.(regs := r.(ecx := 0, esi := Wrap(r.esi - p), edi := Wrap(r.edi - p)),
                       eip := Wrap(s.eip + len), mem := t.mem)
            && SameOutside(s.mem, t.mem, r.edi + sz - p, r.edi + sz)
  {
    hide TestFlag, Movs, Copied, Flip;
    forall k | 0 < k < n ensures Movs(s, sz, len, k).Some? && Movs(s, sz, len, k).value.eip == s.eip {
      DownAfter(s, sz, len, n, k);
    }
    DownAfter(s, sz, len, n, n);
    DownFrame(s.mem, Movs(s, sz, len, n).value.mem, s.regs.esi, s.regs.edi, sz, n * sz);
  }

  /**
   * What a downward copy leaves at byte i, counted down from the top: the old source where the destination lies at or
   * above the source, or wholly below it; and the source repeated with period d where the destination lies d bytes
   * below, for d of at least one element.
   */
  lemma MovsDownCopies(s: State, sz: nat, len: nat, n: nat, i: nat)
    requires DownStart(s, sz, n) && i < n * sz
    ensures Movs(s, sz, len, n).Some?
    ensures var m', esi, edi := Movs(s, sz, len, n).value.mem, s.regs.esi + sz - 1, s.regs.edi + sz - 1;
            var d: int := esi - edi;
            && (d <= 0 || d >= n * sz ==> m'[edi - i] == s.mem[esi - i])
            && (d >= sz ==> m'[edi - i] == s.mem[esi - i % d])
  {
    hide TestFlag, Movs, Copied, Flip;
    DownAfter(s, sz, len, n, n);
    DownByte(s.mem, Movs(s, sz, len, n).value.mem, s.regs.esi, s.regs.edi, sz, n * sz, i);
    var d: int := s.regs.esi - s.regs.edi;
    if d >= sz {
      OriginPeriod(d, sz, i);
      assert i < d ==> i % d == i;
    }
  }

  lemma DownFrame(m: Mem, m': Mem, esi: nat, edi: nat, sz: nat, p: nat)
    requires sz > 0 && esi + sz <= MEM_SIZE && edi + sz <= MEM_SIZE && p <= esi + sz && p <= edi + sz
    requires Copied(Flip(m), Flip(m'), Mirror(esi, sz), Mirror(edi, sz), sz, p)
    ensures SameOutside(m, m', edi + sz - p, edi + sz)
  {
    hide Origin;
    forall j | 0 <= j < MEM_SIZE && !(edi + sz - p <= j < edi + sz) ensures m'[j] == m[j] {
      var i := MEM_SIZE - 1 - j;
      assert CopiedAt(Flip(m), Flip(m'), Mirror(esi, sz), Mirror(edi, sz), sz, p, i);
      assert Flip(m)[i] == m[j] && Flip(m')[i] == m'[j];
    }
  }

  lemma DownByte(m: Mem, m': Mem, esi: nat, edi: nat, sz: nat, p: nat, i: nat)
    requires sz > 0 && esi + sz <= MEM_SIZE && edi + sz <= MEM_SIZE && p <= esi + sz && p <= edi + sz && i < p
    requires Copied(Flip(m), Flip(m'), Mirror(esi, sz), Mirror(edi, sz), sz, p)
    ensures m'[edi + sz - 1 - i] == m[esi + sz - 1 - Origin(esi - edi, sz, i)]
  {
    hide Origin;
    var j := Mirror(edi, sz) + i;
    assert CopiedAt(Flip(m), Flip(m'), Mirror(esi, sz), Mirror(edi, sz), sz, p, j);
    var o := Origin(esi - edi, sz, i);
    assert Flip(m')[j] == m'[edi + sz - 1 - i] && Flip(m)[Mirror(esi, sz) + o] == m[esi + sz - 1 - o];
  }

  // ---------------------------------------------------------------- REP STOS

  /** The p bytes below `top` lie in memory, apart from the descriptor table. */
  predicate FillRoom(s: State, top: int, p: int) {
    p <= top <= MEM_SIZE && (top <= s.gdtr || s.gdtr + GDT_ENTRIES * DESCRIPTOR_SIZE <= top - p)
  }

  /** The start of a downward REP STOS whose highest element lies at a, apart from the descriptor table. */
  predicate StosDownStart(s: State, sz: nat, n: nat) {
    && IsSize(sz) && n > 0 && s.regs.ecx == n && TestFlag(s.eflags, DF) && TableFits(s.gdtr)
    && FillRoom(s, StosDest(s) + sz, n * sz)
  }

  /** t is the state after k of n iterations: the k highest elements are filled. */
  ghost predicate StosDownAt(s: State, top: nat, sz: nat, len: nat, n: nat, k: nat, t: State)
    requires IsSize(sz) && n * sz <= top && k <= n == s.regs.ecx
  {
    MulLe(k, n, sz);
    && t == s.(regs := s.regs.(ecx := n - k, edi := Wrap(s.regs.edi - k * sz)),
               eip := if k == n then Wrap(s.eip + len) else s.eip, mem := t.mem)
    && Filled(s.mem, t.mem, top - k * sz, s.regs.eax, sz, k * sz)
  }

  lemma FillChunkBelow(m: Mem, m': Mem, a: nat, eax: Word, sz: nat, p: nat)
    requires IsSize(sz) && sz <= a && a + p <= MEM_SIZE && Filled(m, m', a, eax, sz, p)
    ensures Filled(m, Blit(m', a - sz, Accumulator(eax, sz)), a - sz, eax, sz, p + sz)
  {
    hide Bytes32, Blit;
    var m'' := Blit(m', a - sz, Accumulator(eax, sz));
    var b, q := a - sz, p + sz;
    forall j ensures FilledAt(m, m'', b, eax, sz, q, j) {
      assert FilledAt(m, m', a, eax, sz, p, j);
      if a <= j {
        NextChunk(j - a, sz);
      }
    }
  }

  lemma NextChunk(i: nat, sz: nat)
    requires IsSize(sz)
    ensures (i + sz) % sz == i % sz
  {
  }

  lemma WrapDown(b: int, e: int, p: nat)
    requires p <= Wrap(b + e)
    ensures Wrap(b + Wrap(e - p)) == Wrap(b + e) - p
  {
    var q := (b + e) / BASE;
    var r := (e - p) / BASE;
    DivModUnique(b + (e - p - BASE * r), BASE, q - r, Wrap(b + e) - p);
  }

  lemma StosDownDest(s: State, sz: nat, len: nat, n: nat, k: nat, t: State)
    requires StosDownStart(s, sz, n) && k < n && StosDownAt(s, StosDest(s) + sz, sz, len, n, k, t)
    ensures k * sz + sz <= n * sz && StosEnabled(t, sz) && StosDest(t) == StosDest(s) - k * sz
  {
    hide TestFlag, Filled, GetGdtBase;
    MulLe(k + 1, n, sz);
    ChunkMultiple(sz, k);
    var sel := s.segs.es % 0x1_0000;
    FillKeepsBase(s.mem, t.mem, StosDest(s) + sz - k * sz, s.regs.eax, sz, k * sz, s.gdtr, sel);
    WrapDown(GetGdtBase(s.mem, s.gdtr, sel), s.regs.edi, k * sz);
  }

  lemma StosDownStep(s: State, sz: nat, len: nat, n: nat, k: nat, t: State)
    requires StosDownStart(s, sz, n) && k < n && StosDownAt(s, StosDest(s) + sz, sz, len, n, k, t)
    ensures StosEnabled(t, sz) && StosDownAt(s, StosDest(s) + sz, sz, len, n, k + 1, StosStep(t, sz, len))
  {
    hide TestFlag, Filled, GetGdtBase, StosDest, Blit, Accumulator;
    StosDownDest(s, sz, len, n, k, t);
    ChunkMultiple(sz, k);
    var down: int := 0 - sz;
    WrapTwice(s.regs.edi - k * sz, down);
    FillChunkBelow(s.mem, t.mem, StosDest(s) + sz - k * sz, s.regs.eax, sz, k * sz);
  }

  lemma StosDownAtStart(s: State, sz: nat, len: nat, n: nat)
    requires StosDownStart(s, sz, n)
    ensures StosDownAt(s, StosDest(s) + sz, sz, len, n, 0, s)
  {
    hide TestFlag, StosDest;
    assert 0 * sz == 0;
    assert Filled(s.mem, s.mem, StosDest(s) + sz, s.regs.eax, sz, 0);
  }

  lemma {:induction false} StosDownAfter(s: State, sz: nat, len: nat, n: nat, k: nat)
    requires StosDownStart(s, sz, n) && k <= n
    ensures Stos(s, sz, len, k).Some? && StosDownAt(s, StosDest(s) + sz, sz, len, n, k, Stos(s, sz, len, k).value)
    decreases k
  {
    hide StosDownStart, StosStep, StosEnabled, StosDownAt;
    if k == 0 {
      StosDownAtStart(s, sz, len, n);
    } else {
      StosDownAfter(s, sz, len, n, k - 1);
      StosDownStep(s, sz, len, n, k - 1, Stos(s, sz, len, k - 1).value);
    }
  }

  /** eip stays before the last of n iterations. */
  ghost predicate Stays(s: State, sz: nat, len: nat, n: nat) {
    forall k | 0 <= k < n :: Stos(s, sz, len, k).Some? && Stos(s, sz, len, k).value.eip == s.eip
  }

  /**
   * With DF set and a selector of descriptor `slot` in ES, re-dispatching REP STOS takes exactly n steps and writes
   * n copies of the accumulator, the highest at that descriptor's base plus edi, and nothing else.
   */
  lemma StosDownFills(s: State, sz: nat, len: nat, n: nat, slot: nat, low: nat, a: Word, p: nat)
    requires IsSize(sz) && n > 0 && s.regs.ecx == n && TestFlag(s.eflags, DF) && TableFits(s.gdtr)
    requires low < 8 && s.segs.es % 0x1_0000 == 8 * slot + low
    requires a == Wrap(SlotBase(s.mem, s.gdtr, slot % GDT_ENTRIES) + s.regs.edi)
    requires p == n * sz && FillRoom(s, a + sz, p)
    ensures Stays(s, sz, len, n) && Stos(s, sz, len, n).Some?
    ensures var t := Stos(s, sz, len, n).value;
            && t == s.(regs := s.regs.(ecx := 0, edi := Wrap(s.regs.edi - p)), eip := Wrap(s.eip + len), mem := t.mem)
            && FilledFrom(s, t, a + sz - p, sz, p)
  {
    StosDestIsStart(s, slot, low);
    hide TestFlag, StosDest, Stos, SlotBase, FilledFrom, FillRoom, Stays, Wrap;
    StosDownRun(s, sz, len, n, p);
  }

  lemma StosDownRun(s: State, sz: nat, len: nat, n: nat, p: nat)
    requires StosDownStart(s, sz, n) && p == n * sz
    ensures Stays(s, sz, len, n) && Stos(s, sz, len, n).Some?
    ensures var t := Stos(s, sz, len, n).value;
            && t == s.(regs := s.regs.(ecx := 0, edi := Wrap(s.regs.edi - p)), eip := Wrap(s.eip + len), mem := t.mem)
            && FilledFrom(s, t, StosDest(s) + sz - p, sz, p)
  {
    hide TestFlag, StosDest, Stos, Pow2, Filled;
    forall k | 0 <= k < n ensures Stos(s, sz, len, k).Some? && Stos(s, sz, len, k).value.eip == s.eip {
      StosDownAfter(s, sz, len, n, k);
    }
    StosDownAfter(s, sz, len, n, n);
    FilledNumbers(s.mem, Stos(s, sz, len, n).value.mem, StosDest(s) + sz - p, s.regs.eax, sz, p);
  }
}
