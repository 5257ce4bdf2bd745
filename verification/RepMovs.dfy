/** REP MOVS: one iteration per dispatch, eip advancing only with the last (src/instr.c). */
module RepMovs {
  import opened Bits
  import opened Words
  import opened Flags
  import opened Machine

  predicate IsSize(sz: nat) {
    sz == 1 || sz == 2 || sz == 4
  }

  /** `reg += !test_Flag(DF) ? sz : -sz` */
  function Move(e: Word, r: Word, sz: nat): Word {
    if !TestFlag(e, DF) then Wrap(r + sz) else Wrap(r - sz)
  }

  /** The next eip: the instruction repeats itself until ecx is 0. */
  function NextEip(s: State, ecx: Word, len: nat): Word {
    if ecx == 0 then Wrap(s.eip + len) else s.eip
  }

  // ---------------------------------------------------------------- REP MOVS

  predicate MovsEnabled(s: State, sz: nat) {
    IsSize(sz) && s.regs.esi + sz <= MEM_SIZE && s.regs.edi + sz <= MEM_SIZE
  }

  /** One dispatch of REP MOVS with elements of sz bytes, encoded in len bytes. */
  function MovsStep(s: State, sz: nat, len: nat): State
    requires MovsEnabled(s, sz)
  {
    var r := s.regs;
    var ecx := Wrap(r.ecx - 1);
    s.(mem := Blit(s.mem, r.edi, s.mem[r.esi..r.esi + sz]),
       regs := r.(ecx := ecx, edi := Move(s.eflags, r.edi, sz), esi := Move(s.eflags, r.esi, sz)),
       eip := NextEip(s, ecx, len))
  }

  /** k dispatches in a row; None if an access leaves memory. */
  function Movs(s: State, sz: nat, len: nat, k: nat): Option<State> {
    if k == 0 then Some(s)
    else
      var t := Movs(s, sz, len, k - 1);
      if t.Some? && MovsEnabled(t.value, sz) then Some(MovsStep(t.value, sz, len)) else None
  }

  /** Source offset of the byte that ends up at destination offset i, when the destination starts d above. */
  function Origin(d: int, sz: nat, i: nat): (o: nat)
    requires sz > 0
    ensures o <= i
    decreases i
  {
    if d <= 0 || i < d || i % sz >= d then i else Origin(d, sz, i - d)
  }

  /** The start of a REP MOVS of n elements with DF clear and both buffers in memory. */
  predicate MovsStart(s: State, sz: nat, n: nat) {
    && IsSize(sz) && n > 0 && s.regs.ecx == n && !TestFlag(s.eflags, DF)
    && s.regs.esi + n * sz <= MEM_SIZE && s.regs.edi + n * sz <= MEM_SIZE
  }

  /** Byte j of memory when p bytes have been copied: an old source byte in the destination, else as it was. */
  predicate CopiedAt(m: Mem, m': Mem, esi: nat, edi: nat, sz: nat, p: nat, j: int)
    requires sz > 0 && esi + p <= MEM_SIZE
  {
    0 <= j < MEM_SIZE ==> m'[j] == if edi <= j < edi + p then m[esi + Origin(edi - esi, sz, j - edi)] else m[j]
  }

  ghost predicate Copied(m: Mem, m': Mem, esi: nat, edi: nat, sz: nat, p: nat)
    requires sz > 0 && esi + p <= MEM_SIZE
  {
    forall j :: CopiedAt(m, m', esi, edi, sz, p, j)
  }

  /** Registers and eip after k of n iterations. */
  function MovsRegs(s: State, sz: nat, len: nat, n: nat, k: nat): State
    requires MovsStart(s, sz, n) && k <= n
  {
    MulLe(k, n, sz);
    s.(regs := s.regs.(ecx := n - k, esi := s.regs.esi + k * sz, edi := s.regs.edi + k * sz),
       eip := if k == n then Wrap(s.eip + len) else s.eip)
  }

  lemma MulLe(k: nat, n: nat, sz: nat)
    requires k <= n
    ensures k * sz <= n * sz
  {
  }

  lemma OffsetInChunk(sz: nat, p: nat, i: nat)
    requires IsSize(sz) && p % sz == 0 && p <= i < p + sz
    ensures i % sz == i - p
  {
  }

  /** The byte that an iteration finds at source offset i is the one Origin names. */
  lemma ChunkOrigin(m: Mem, m': Mem, esi: nat, edi: nat, sz: nat, p: nat, i: nat)
    requires IsSize(sz) && p % sz == 0 && p <= i < p + sz
    requires esi + p + sz <= MEM_SIZE && edi + p + sz <= MEM_SIZE
    requires Copied(m, m', esi, edi, sz, p)
    ensures m'[esi + i] == m[esi + Origin(edi - esi, sz, i)]
  {
    OffsetInChunk(sz, p, i);
    assert CopiedAt(m, m', esi, edi, sz, p, esi + i);
  }

  lemma CopyChunk(m: Mem, m': Mem, esi: nat, edi: nat, sz: nat, p: nat)
    requires IsSize(sz) && p % sz == 0
    requires esi + p + sz <= MEM_SIZE && edi + p + sz <= MEM_SIZE
    requires Copied(m, m', esi, edi, sz, p)
    ensures Copied(m, Blit(m', edi + p, m'[esi + p..esi + p + sz]), esi, edi, sz, p + sz)
  {
    hide Origin;
    var m'' := Blit(m', edi + p, m'[esi + p..esi + p + sz]);
    var q := p + sz;
    forall j ensures CopiedAt(m, m'', esi, edi, sz, q, j) {
      if edi + p <= j < edi + p + sz {
        ChunkOrigin(m, m', esi, edi, sz, p, j - edi);
        assert m''[j] == m'[esi + (j - edi)];
      } else {
        assert CopiedAt(m, m', esi, edi, sz, p, j);
      }
    }
  }

  lemma ChunkMultiple(sz: nat, k: nat)
    requires IsSize(sz)
    ensures k * sz % sz == 0 && (k + 1) * sz == k * sz + sz
  {
  }

  /** One more iteration moves the registers along. */
  lemma MovsRegsStep(s: State, sz: nat, len: nat, n: nat, k: nat, t: State)
    requires MovsStart(s, sz, n) && k < n && t == MovsRegs(s, sz, len, n, k).(mem := t.mem)
    ensures MovsEnabled(t, sz)
    ensures s.regs.esi + k * sz + sz <= MEM_SIZE && s.regs.edi + k * sz + sz <= MEM_SIZE
    ensures var u := MovsStep(t, sz, len); var p := k * sz;
            && u == MovsRegs(s, sz, len, n, k + 1).(mem := u.mem)
            && u.mem == Blit(t.mem, s.regs.edi + p, t.mem[s.regs.esi + p..s.regs.esi + p + sz])
  {
    hide TestFlag;
    MulLe(k + 1, n, sz);
    ChunkMultiple(sz, k);
  }

  /** t is the state after k of n iterations: registers moved along, k elements copied. */
  ghost predicate MovsAt(s: State, sz: nat, len: nat, n: nat, k: nat, t: State)
    requires MovsStart(s, sz, n) && k <= n
  {
    MulLe(k, n, sz);
    t == MovsRegs(s, sz, len, n, k).(mem := t.mem) && Copied(s.mem, t.mem, s.regs.esi, s.regs.edi, sz, k * sz)
  }

  lemma MovsAtStart(s: State, sz: nat, len: nat, n: nat)
    requires MovsStart(s, sz, n)
    ensures MovsAt(s, sz, len, n, 0, s)
  {
    hide TestFlag, Origin;
    assert 0 * sz == 0;
    assert Copied(s.mem, s.mem, s.regs.esi, s.regs.edi, sz, 0);
  }

  lemma MovsAtStep(s: State, sz: nat, len: nat, n: nat, k: nat, t: State)
    requires MovsStart(s, sz, n) && k < n && MovsAt(s, sz, len, n, k, t)
    ensures MovsEnabled(t, sz) && MovsAt(s, sz, len, n, k + 1, MovsStep(t, sz, len))
  {
    hide TestFlag, Copied, MovsRegs;
    MovsRegsStep(s, sz, len, n, k, t);
    ChunkMultiple(sz, k);
    CopyChunk(s.mem, t.mem, s.regs.esi, s.regs.edi, sz, k * sz);
  }

  /** The state after k of n iterations, in closed form, for every overlap of the buffers. */
  lemma {:induction false} MovsAfter(s: State, sz: nat, len: nat, n: nat, k: nat)
    requires MovsStart(s, sz, n) && k <= n
    ensures Movs(s, sz, len, k).Some? && MovsAt(s, sz, len, n, k, Movs(s, sz, len, k).value)
    decreases k
  {
    hide MovsStart, MovsStep, MovsEnabled, MovsAt;
    if k == 0 {
      MovsAtStart(s, sz, len, n);
    } else {
      MovsAfter(s, sz, len, n, k - 1);
      MovsAtStep(s, sz, len, n, k - 1, Movs(s, sz, len, k - 1).value);
    }
  }

  /** The instruction's own bytes lie in memory, apart from [lo, hi). */
  predicate CodeApart(eip: nat, len: nat, lo: nat, hi: nat) {
    0 < len <= 15 && eip + len <= MEM_SIZE && (eip + len <= lo || hi <= eip)
  }

  /**
   * Re-dispatching REP MOVS takes exactly n steps: before the last one eip and the instruction's bytes stay, so
   * the same instruction is fetched again; after it eip has moved on, ecx is 0, both pointers have moved by
   * n * sz, and memory outside the destination is as it was.
   */
  lemma MovsRunsExactly(s: State, sz: nat, len: nat, n: nat)
    requires MovsStart(s, sz, n) && CodeApart(s.eip, len, s.regs.edi, s.regs.edi + n * sz)
    ensures forall k | 0 <= k < n ::
              Movs(s, sz, len, k).Some? &&
              var t := Movs(s, sz, len, k).value;
              t.eip == s.eip && t.regs.ecx == n - k && t.mem[s.eip..s.eip + len] == s.mem[s.eip..s.eip + len]
    ensures Movs(s, sz, len, n).Some?
    ensures var t := Movs(s, sz, len, n).value; var r := s.regs;
            && t.eip == Wrap(s.eip + len) != s.eip
            && t.regs == r.(ecx := 0, esi := r.esi + n * sz, edi := r.edi + n * sz)
            && t.eflags == s.eflags && t.segs == s.segs && t.gdtr == s.gdtr
            && forall j | 0 <= j < MEM_SIZE && !(r.edi <= j < r.edi + n * sz) :: t.mem[j] == s.mem[j]
  {
    hide TestFlag, Origin, Movs;
    forall k | 0 <= k < n
      ensures Movs(s, sz, len, k).Some?
      ensures var t := Movs(s, sz, len, k).value;
              t.eip == s.eip && t.regs.ecx == n - k && t.mem[s.eip..s.eip + len] == s.mem[s.eip..s.eip + len]
    {
      MovsAfter(s, sz, len, n, k);
      MulLe(k, n, sz);
      CodeKept(s, sz, k * sz, Movs(s, sz, len, k).value.mem, s.eip, len);
    }
    MovsAfter(s, sz, len, n, n);
    var t := Movs(s, sz, len, n).value;
    var p := n * sz;
    forall j | 0 <= j < MEM_SIZE && !(s.regs.edi <= j < s.regs.edi + p) ensures t.mem[j] == s.mem[j] {
      assert CopiedAt(s.mem, t.mem, s.regs.esi, s.regs.edi, sz, p, j);
    }
  }

  lemma CodeKept(s: State, sz: nat, p: nat, m': Mem, a: nat, len: nat)
    requires sz > 0 && s.regs.esi + p <= MEM_SIZE && Copied(s.mem, m', s.regs.esi, s.regs.edi, sz, p)
    requires a + len <= MEM_SIZE && (a + len <= s.regs.edi || s.regs.edi + p <= a)
    ensures m'[a..a + len] == s.mem[a..a + len]
  {
    hide Origin;
    forall j | a <= j < a + len ensures m'[j] == s.mem[j] {
      assert CopiedAt(s.mem, m', s.regs.esi, s.regs.edi, sz, p, j);
    }
  }

  /** For a shift of at least one element, chunked copying repeats the source with that period. */
  lemma {:induction false} OriginPeriod(d: nat, sz: nat, i: nat)
    requires 0 < sz <= d
    ensures Origin(d, sz, i) == i % d
    decreases i
  {
    ModStep(i, d);
    if i >= d {
      OriginPeriod(d, sz, i - d);
    }
  }

  /** Destination byte i after the run, for every overlap. */
  lemma MovsByte(s: State, sz: nat, len: nat, n: nat, i: nat)
    requires MovsStart(s, sz, n) && i < n * sz
    ensures s.regs.edi + n * sz <= MEM_SIZE && s.regs.esi + n * sz <= MEM_SIZE && sz > 0
    ensures Movs(s, sz, len, n).Some?
    ensures Movs(s, sz, len, n).value.mem[s.regs.edi + i] ==
            s.mem[s.regs.esi + Origin(s.regs.edi - s.regs.esi, sz, i)]
  {
    hide TestFlag, Movs, MovsRegs, Origin;
    MovsAfter(s, sz, len, n, n);
    var esi, edi, p := s.regs.esi, s.regs.edi, n * sz;
    assert CopiedAt(s.mem, Movs(s, sz, len, n).value.mem, esi, edi, sz, p, edi + i);
  }

  /**
   * What the destination holds afterwards: the old source where the destination starts at or below it, or past
   * its end; and the source repeated with period d where it starts d bytes above, for d of at least one element
   * (so for bytes, every d).
   */
  lemma MovsCopies(s: State, sz: nat, len: nat, n: nat, i: nat)
    requires MovsStart(s, sz, n) && i < n * sz
    ensures Movs(s, sz, len, n).Some?
    ensures var m' := Movs(s, sz, len, n).value.mem; var esi, edi := s.regs.esi, s.regs.edi; var d: int := edi - esi;
            && (d <= 0 || d >= n * sz ==> m'[edi + i] == s.mem[esi + i])
            && (d >= sz ==> m'[edi + i] == s.mem[esi + i % d])
  {
    hide Movs, MovsStart;
    var d: int := s.regs.edi - s.regs.esi;
    MovsByte(s, sz, len, n, i);
    if d >= sz {
      OriginPeriod(d, sz, i);
      assert i < d ==> i % d == i;
    }
  }

  /** Two runs that copied the same number of bytes agree when their origins do. */
  lemma SameCopies(m: Mem, m1: Mem, m2: Mem, esi: nat, edi: nat, d: int, sz1: nat, sz2: nat, p: nat)
    requires d == edi - esi
    requires sz1 > 0 && sz2 > 0 && esi + p <= MEM_SIZE
    requires Copied(m, m1, esi, edi, sz1, p) && Copied(m, m2, esi, edi, sz2, p)
    requires forall i: nat :: Origin(d, sz1, i) == Origin(d, sz2, i)
    ensures m1 == m2
  {
    hide Origin;
    forall j | 0 <= j < MEM_SIZE ensures m1[j] == m2[j] {
      assert CopiedAt(m, m1, esi, edi, sz1, p, j);
      assert CopiedAt(m, m2, esi, edi, sz2, p, j);
    }
  }

  lemma SameOrigins(d: int)
    requires d <= 0 || d >= 4
    ensures forall i: nat :: Origin(d, 4, i) == Origin(d, 1, i)
  {
    forall i: nat ensures Origin(d, 4, i) == Origin(d, 1, i) {
      if d >= 4 {
        OriginPeriod(d, 4, i);
        OriginPeriod(d, 1, i);
      }
    }
  }

  /** For a shift d of 1 to 3: every source byte that a dword copy reads ahead repeats the first d bytes. */
  ghost predicate ReadsAheadAlike(m: Mem, esi: nat, d: nat, p: nat)
    requires 0 < d && esi + p <= MEM_SIZE
  {
    forall i | 0 <= i < p && i % 4 >= d :: m[esi + i] == m[esi + i % d]
  }

  /** Then a dword copy and a byte copy take equal bytes from the source. */
  lemma {:induction false} AlikeOrigins(m: Mem, esi: nat, d: nat, p: nat, i: nat)
    requires 0 < d && esi + p <= MEM_SIZE && i < p && ReadsAheadAlike(m, esi, d, p)
    ensures m[esi + Origin(d, 4, i)] == m[esi + i % d]
    decreases i
  {
    ModStep(i, d);
    if i >= d && i % 4 < d {
      hide ReadsAheadAlike;
      AlikeOrigins(m, esi, d, p, i - d);
    }
  }

  lemma ModStep(i: nat, d: nat)
    requires d > 0
    ensures if i < d then i % d == i else i % d == (i - d) % d
  {
    if i >= d {
      var q, r := (i - d) / d, (i - d) % d;
      assert i == d * (q + 1) + r;
      DivModUnique(i, d, q + 1, r);
    }
  }

  /** A byte that the dword copy reads ahead is its own origin. */
  lemma AheadOrigin(d: nat, i: nat)
    requires 0 < d && i % 4 >= d
    ensures Origin(d, 4, i) == i
  {
  }

  /** Memory after the two copies agrees exactly under that condition. */
  lemma CopiesAgree(m: Mem, m1: Mem, m2: Mem, esi: nat, edi: nat, d: nat, p: nat)
    requires 0 < d == edi - esi && esi + p <= MEM_SIZE && edi + p <= MEM_SIZE
    requires Copied(m, m1, esi, edi, 4, p) && Copied(m, m2, esi, edi, 1, p)
    ensures m1 == m2 <==> ReadsAheadAlike(m, esi, d, p)
  {
    hide Copied, Origin;
    if ReadsAheadAlike(m, esi, d, p) {
      hide ReadsAheadAlike;
      forall j | 0 <= j < MEM_SIZE ensures m1[j] == m2[j] {
        ByteOrigins(m, m1, m2, esi, edi, d, p, j);
        if edi <= j < edi + p {
          AlikeOrigins(m, esi, d, p, j - edi);
        }
      }
    }
    if m1 == m2 {
      forall i | 0 <= i < p && i % 4 >= d ensures m[esi + i] == m[esi + i % d] {
        ByteOrigins(m, m1, m2, esi, edi, d, p, edi + i);
        AheadOrigin(d, i);
      }
    }
  }

  /** Byte j after a dword copy and after a byte copy. */
  lemma ByteOrigins(m: Mem, m1: Mem, m2: Mem, esi: nat, edi: nat, d: nat, p: nat, j: int)
    requires 0 < d == edi - esi && esi + p <= MEM_SIZE && 0 <= j < MEM_SIZE
    requires Copied(m, m1, esi, edi, 4, p) && Copied(m, m2, esi, edi, 1, p)
    ensures if edi <= j < edi + p then
              m1[j] == m[esi + Origin(d, 4, j - edi)] && m2[j] == m[esi + (j - edi) % d]
            else m1[j] == m2[j]
  {
    hide Origin;
    assert CopiedAt(m, m1, esi, edi, 4, p, j);
    assert CopiedAt(m, m2, esi, edi, 1, p, j);
    if edi <= j < edi + p {
      OriginPeriod(d, 1, j - edi);
    }
  }

  /**
   * REP MOVSD of n and REP MOVSB of 4n end in the same state for every shift of the destination outside 1 to 3;
   * for those three, exactly when the source bytes that a dword reads ahead repeat its first d bytes.
   */
  lemma WideCopyRefinesByteCopy(s: State, len: nat, n: nat)
    requires MovsStart(s, 4, n)
    ensures var b := s.(regs := s.regs.(ecx := 4 * n)); var d: int := s.regs.edi - s.regs.esi;
            && MovsStart(b, 1, 4 * n)
            && (Movs(s, 4, len, n) == Movs(b, 1, len, 4 * n) <==>
                (0 < d < 4 ==> ReadsAheadAlike(s.mem, s.regs.esi, d, 4 * n)))
  {
    hide TestFlag, Movs, ReadsAheadAlike;
    var b := s.(regs := s.regs.(ecx := 4 * n));
    var esi: int, edi: int := s.regs.esi, s.regs.edi;
    var d := edi - esi;
    MovsAfter(s, 4, len, n, n);
    MovsAfter(b, 1, len, 4 * n, 4 * n);
    var m1, m2 := Movs(s, 4, len, n).value.mem, Movs(b, 1, len, 4 * n).value.mem;
    if 0 < d < 4 {
      CopiesAgree(s.mem, m1, m2, esi, edi, d, 4 * n);
    } else {
      SameOrigins(d);
      SameCopies(s.mem, m1, m2, esi, edi, d, 4, 1, 4 * n);
    }
  }

  /** The condition can fail: for a shift of d it does as soon as source bytes 0 and d differ. */
  lemma WideCopyDiffers(s: State, len: nat, n: nat, d: nat)
    requires MovsStart(s, 4, n) && 0 < d < 4 && s.regs.edi == s.regs.esi + d
    requires s.mem[s.regs.esi] != s.mem[s.regs.esi + d]
    ensures Movs(s, 4, len, n) != Movs(s.(regs := s.regs.(ecx := 4 * n)), 1, len, 4 * n)
  {
    hide Movs, TestFlag;
    WideCopyRefinesByteCopy(s, len, n);
    ModStep(d, d);
    assert d % 4 >= d;
    assert s.mem[s.regs.esi + d] != s.mem[s.regs.esi + d % d];
  }
}
