/** load_stack and read_auxv as the code runs them (src/loader.c). */
module Loading {
  import opened Words
  import opened Machine
  import opened StackImage
  import opened StackInstr

  /** The globals of the loader that end up in the auxiliary vector. */
  class Loader {
    var phAddr: Word
    var phSize: Word
    var phNum: Word
    var platformAddr: Word
    var execfn: Word
    var rr: Word

    /** What the getters return, with AT_ENTRY the current eip. */
    function Globals(eip: Word): AuxInfo
      reads this
    {
      AuxInfo(phAddr, phSize, phNum, eip, platformAddr, rr, execfn)
    }

    /** read_auxv: AT_NULL first, then each kept host entry below it, value above type. */
    method ReadAuxv(cpu: Cpu, aux: seq<AuxEntry>, ghost top: nat, ghost m: Mem)
      requires cpu.Valid() && KnownTypes(aux)
      requires cpu.esp == top && cpu.mem[..] == m
      requires 4 * |AuxWords(Globals(cpu.eip), aux, [0, 0])| <= top
      modifies cpu`esp, cpu.mem
      ensures cpu.esp == top - 4 * |AuxWords(Globals(cpu.eip), aux, [0, 0])|
      ensures cpu.mem[..] == Blit(m, cpu.esp, WordBlock(AuxWords(Globals(cpu.eip), aux, [0, 0])))
    {
      var g := Globals(cpu.eip);
      AuxWordsGrow(g, aux, [0, 0]);
      assert aux[0..] == aux;
      hide WordBlock, Blit, AuxWords, KnownTypes, Getter;
      assert Blit(m, top, WordBlock([])) == m by { EmptyBlit(m, top); }
      ghost var ws: seq<Word> := [0, 0];
      assert ws + [] == ws;
      PushEntry(cpu, 0, 0, [], top, m);
      var i := 0;
      while i < |aux|
        invariant 0 <= i <= |aux| && KnownTypes(aux[i..])
        invariant AuxWords(g, aux, [0, 0]) == AuxWords(g, aux[i..], ws)
        invariant cpu.esp == top - 4 * |ws| && cpu.mem[..] == Blit(m, cpu.esp, WordBlock(ws))
      {
        var entry := aux[i];
        if entry.ty == AT_NULL {
          break;
        }
        AuxStep(g, aux, i, ws);
        if !Skipped(entry.ty) {
          var val := Getter(g, entry.ty, entry.val);
          AuxWordsGrow(g, aux[i + 1..], [entry.ty, val] + ws);
          PushEntry(cpu, entry.ty, val, ws, top, m);
          ws := [entry.ty, val] + ws;
        }
        i := i + 1;
      }
      assert AuxWords(g, aux, [0, 0]) == ws by {
        AuxStop(g, aux, i, ws);
      }
    }

    /** Everything that load_stack will read. */
    function Gathered(eip: Word, argv: seq<CString>, envp: seq<CString>, aux: seq<AuxEntry>,
                      random1: Word, random2: Word, stale: Word): Inputs
      reads this
    {
      Inputs(argv, envp, aux, random1, random2, stale, phAddr, phSize, phNum, eip, execfn)
    }

    /** load_stack. argv_emu[1] is pushed although the loop never assigns it. */
    method LoadStack(cpu: Cpu, argv: seq<CString>, envp: seq<CString>, aux: seq<AuxEntry>,
                     random1: Word, random2: Word, stale: Word)
      requires cpu.Valid() && Fits(Gathered(cpu.eip, argv, envp, aux, random1, random2, stale), cpu.esp)
      modifies this`platformAddr, this`rr, cpu`esp, cpu.mem
      ensures var x := old(Gathered(cpu.eip, argv, envp, aux, random1, random2, stale));
              && cpu.esp == FinalEsp(x, old(cpu.esp))
              && cpu.mem[..] == LoadedMem(x, old(cpu.esp), old(cpu.mem[..]))
    {
      ghost var x := Gathered(cpu.eip, argv, envp, aux, random1, random2, stale);
      ghost var top, m := cpu.esp, cpu.mem[..];
      var envpEmu := new Word[|envp|](_ => stale);
      var argvEmu := new Word[|argv|](_ => stale);
      hide Fits, RandomAddr, LoadedMem, FinalEsp, From, EnvPointers, ArgPointers;
      assert RandomAddr(x, top) >= 0 && KnownTypes(aux) by { FitsFacts(x, top); }
      LoadStrings(cpu, argv, envp, random1, random2, envpEmu, argvEmu, x, top, m);
      AlignAndLoad(cpu, aux, |argv|, envpEmu, argvEmu, x, top, m);
    }

    /** Alignment at 4 bytes, then the pointer area. */
    method AlignAndLoad(cpu: Cpu, aux: seq<AuxEntry>, argc: nat, envpEmu: array<Word>, argvEmu: array<Word>,
                        ghost x: Inputs, ghost top: Word, ghost m: Mem)
      requires cpu.Valid() && Fits(x, top) && x.aux == aux && |x.argv| == argc
      requires cpu.esp == RandomAddr(x, top) && cpu.mem[..] == WithStrings(x, top, m)
      requires Globals(cpu.eip) == Info(x, top)
      requires envpEmu[..] == EnvPointers(x, top, 0) && From(argvEmu[..], 1) == ArgPointers(x, top, 1)
      modifies cpu`esp, cpu.mem
      ensures cpu.esp == FinalEsp(x, top) && cpu.mem[..] == LoadedMem(x, top, m)
    {
      hide RandomAddr, StackWords, KnownTypes, WithStrings, AuxWords, ArgPointers, EnvPointers, Blit, WordBlock, Info;
      cpu.esp := cpu.esp - cpu.esp % 4;
      StackWordsNested(x, top);
      LoadPointers(cpu, aux, argc, envpEmu, argvEmu, StackWords(x, top), cpu.esp, cpu.mem[..]);
    }

    /** The strings, the platform name and the random words. */
    method LoadStrings(cpu: Cpu, argv: seq<CString>, envp: seq<CString>, random1: Word, random2: Word,
                       envpEmu: array<Word>, argvEmu: array<Word>, ghost x: Inputs, ghost top: Word, ghost m: Mem)
      requires cpu.Valid() && RandomAddr(x, top) >= 0
      requires x.argv == argv && x.envp == envp && x.random1 == random1 && x.random2 == random2
      requires envpEmu.Length == |envp| && argvEmu.Length == |argv| && envpEmu != argvEmu
      requires envpEmu as object != cpu.mem && argvEmu as object != cpu.mem
      requires forall i | 0 <= i < |argv| :: argvEmu[i] == x.stale
      requires cpu.esp == top && cpu.mem[..] == m
      modifies this`platformAddr, this`rr, cpu`esp, cpu.mem, envpEmu, argvEmu
      ensures cpu.esp == RandomAddr(x, top) && cpu.mem[..] == WithStrings(x, top, m)
      ensures rr == RandomAddr(x, top) && platformAddr == RandomAddr(x, top) + 8
      ensures envpEmu[..] == EnvPointers(x, top, 0) && From(argvEmu[..], 1) == ArgPointers(x, top, 1)
    {
      ghost var block := StringBlock(x.Args()) + StringBlock(envp);
      assert StringArea(x) == Bytes32(random2) + (Bytes32(random1) + (PLATFORM + block));
      hide StringBlock, StringArea, Bytes32, Blit;
      LoadArguments(cpu, argv, envp, envpEmu, argvEmu, x, top, m);
      PushAuxStrings(cpu, random1, random2, block, top, m);
    }

    /** The platform name and two random words, below a block. */
    method PushAuxStrings(cpu: Cpu, random1: Word, random2: Word, ghost block: seq<Byte>, ghost top: nat, ghost m: Mem)
      requires cpu.Valid() && 12 + |block| <= top <= MEM_SIZE
      requires cpu.esp == top - |block| && cpu.mem[..] == Blit(m, cpu.esp, block)
      modifies this`platformAddr, this`rr, cpu`esp, cpu.mem
      ensures cpu.esp == top - |block| - 12 == rr && platformAddr == rr + 8
      ensures cpu.mem[..] == Blit(m, cpu.esp, Bytes32(random2) + (Bytes32(random1) + (PLATFORM + block)))
    {
      hide Bytes32, Blit;
      PushBytes(cpu, PLATFORM, block, top, m);
      platformAddr := cpu.esp;
      PushBytes(cpu, Bytes32(random1), PLATFORM + block, top, m);
      PushBytes(cpu, Bytes32(random2), Bytes32(random1) + (PLATFORM + block), top, m);
      rr := cpu.esp;
    }

    /** The pointer area: auxiliary vector, environment, arguments and argc, from `top` of memory m down. */
    method LoadPointers(cpu: Cpu, aux: seq<AuxEntry>, argc: nat, envpEmu: array<Word>, argvEmu: array<Word>,
                        ghost ws: seq<Word>, ghost top: nat, ghost m: Mem)
      requires cpu.Valid() && KnownTypes(aux) && 4 * |ws| <= top
      requires ws == [Wrap(argc - 1)] +
                     (From(argvEmu[..], 1) + ([0] + (envpEmu[..] + ([0] + AuxWords(Globals(cpu.eip), aux, [0, 0])))))
      requires cpu.esp == top && cpu.mem[..] == m
      modifies cpu`esp, cpu.mem
      ensures cpu.esp == top - 4 * |ws| && cpu.mem[..] == Blit(m, cpu.esp, WordBlock(ws))
    {
      hide AuxWords, KnownTypes, WordBlock, Blit;
      ghost var auxWords := AuxWords(Globals(cpu.eip), aux, [0, 0]);
      ghost var ws3 := [0] + auxWords;
      ghost var ws2 := envpEmu[..] + ws3;
      ghost var ws1 := From(argvEmu[..], 1) + ([0] + ws2);
      assert From(envpEmu[..], 0) == envpEmu[..];
      hide From;
      ReadAuxv(cpu, aux, top, m);
      PushWord(cpu, 0, auxWords, top, m);
      PushEmulated(cpu, envpEmu, 0, ws3, top, m);
      PushWord(cpu, 0, ws2, top, m);
      PushEmulated(cpu, argvEmu, 1, [0] + ws2, top, m);
      PushWord(cpu, Wrap(argc - 1), ws1, top, m);
    }
  }

  /** Strings in memory below `top`: first the environment, then the emulated program's arguments below it. */
  method LoadArguments(cpu: Cpu, argv: seq<CString>, envp: seq<CString>, envpEmu: array<Word>, argvEmu: array<Word>,
                       ghost x: Inputs, ghost top: Word, ghost m: Mem)
    requires cpu.Valid() && RandomAddr(x, top) >= 0 && x.argv == argv && x.envp == envp
    requires envpEmu.Length == |envp| && argvEmu.Length == |argv| && envpEmu != argvEmu
    requires envpEmu as object != cpu.mem && argvEmu as object != cpu.mem
    requires forall i | 0 <= i < |argv| :: argvEmu[i] == x.stale
    requires cpu.esp == top && cpu.mem[..] == m
    modifies cpu`esp, cpu.mem, envpEmu, argvEmu
    ensures cpu.esp == top - |StringBlock(x.Args()) + StringBlock(envp)|
    ensures cpu.mem[..] == Blit(m, cpu.esp, StringBlock(x.Args()) + StringBlock(envp))
    ensures envpEmu[..] == EnvPointers(x, top, 0)
    ensures From(argvEmu[..], 1) == ArgPointers(x, top, 1)
  {
    ghost var env0, arg0 := envpEmu[..], argvEmu[..];
    assert |argv| > 1 ==> arg0[1] == x.stale;
    hide StringBlock, Noted, Blit, RandomAddr, From;
    AreaLength(x, top);
    assert StringBlock(envp) + [] == StringBlock(envp);
    EmptyBlit(m, top);
    PushStrings(cpu, envp, 0, envpEmu, [], top, m);
    PushStrings(cpu, argv, 2, argvEmu, StringBlock(envp), top, m);
    EnvPointersNoted(x, top, env0, envpEmu[..]);
    hide EnvPointers;
    ArgPointersNoted(x, top, arg0, argvEmu[..]);
  }

  /** The two string blocks fit below `top`. */
  lemma AreaLength(x: Inputs, top: Word)
    requires RandomAddr(x, top) >= 0
    ensures |StringBlock(x.Args())| + |StringBlock(x.envp)| + 12 <= top
    ensures From(x.envp, 0) == x.envp && From(x.argv, 2) == x.Args()
  {
    hide StringBlock;
  }

  lemma EnvPointerAddr(x: Inputs, top: Word, j: nat)
    requires RandomAddr(x, top) >= 0 && j < |x.envp|
    ensures EnvPointer(x, top, j) == top - |StringBlock(x.envp[j..])|
  {
    hide StringBlock, RandomAddr;
    assert x.Strings()[|x.Args()| + j..] == x.envp[j..];
  }

  lemma ArgPointerAddr(x: Inputs, top: Word, j: nat)
    requires RandomAddr(x, top) >= 0 && 2 <= j < |x.argv|
    ensures ArgPointer(x, top, j) == top - |StringBlock(x.envp)| - |StringBlock(x.argv[j..])|
  {
    hide StringBlock, RandomAddr;
    assert x.Strings()[j - 2..] == x.argv[j..] + x.envp;
    StringBlockAppend(x.argv[j..], x.envp);
  }

  /** The addresses noted for the environment are its pointers. */
  lemma EnvPointersNoted(x: Inputs, top: Word, e0: seq<Word>, emu: seq<Word>)
    requires RandomAddr(x, top) >= 0 && Noted(e0, emu, x.envp, 0, top)
    ensures emu == EnvPointers(x, top, 0)
  {
    hide StringBlock, RandomAddr, EnvPointer;
    var r := EnvPointers(x, top, 0);
    hide EnvPointers;
    forall j | 0 <= j < |r| ensures emu[j] == r[j] {
      EnvPointerAddr(x, top, j);
      assert r[j] == EnvPointer(x, top, 0 + j);
    }
  }

  /** The addresses noted for the arguments, and the slot never assigned, are their pointers. */
  lemma ArgPointersNoted(x: Inputs, top: Word, e0: seq<Word>, emu: seq<Word>)
    requires RandomAddr(x, top) >= 0 && Noted(e0, emu, x.argv, 2, top - |StringBlock(x.envp)|)
    requires |e0| > 1 ==> e0[1] == x.stale
    ensures From(emu, 1) == ArgPointers(x, top, 1)
  {
    hide StringBlock, RandomAddr, ArgPointer;
    var f, r := From(emu, 1), ArgPointers(x, top, 1);
    hide ArgPointers;
    forall j | 0 <= j < |r| ensures f[j] == r[j] {
      assert r[j] == ArgPointer(x, top, 1 + j);
      assert f[j] == emu[j + 1];
      if j == 0 {
        FirstIsStale(x, top);
      } else {
        ArgPointerAddr(x, top, j + 1);
      }
    }
  }

  lemma FirstIsStale(x: Inputs, top: Word)
    requires RandomAddr(x, top) >= 0 && |x.argv| > 1
    ensures ArgPointer(x, top, 1) == x.stale
  {
  }

  lemma FitsFacts(x: Inputs, top: Word)
    requires Fits(x, top)
    ensures RandomAddr(x, top) >= 0 && KnownTypes(x.aux)
  {
  }

  lemma StackWordsNested(x: Inputs, top: Word)
    requires RandomAddr(x, top) >= 0 && KnownTypes(x.aux)
    ensures StackWords(x, top) ==
            [Wrap(|x.argv| - 1)] + (ArgPointers(x, top, 1) +
            ([0] + (EnvPointers(x, top, 0) + ([0] + AuxWords(Info(x, top), x.aux, [0, 0])))))
  {
    hide RandomAddr, KnownTypes, AuxWords, ArgPointers, EnvPointers, Info;
  }

  /** `esp -= |bs|; memcpy(&mem[esp], bs, |bs|)` below a block that ends at `top` of memory m. */
  method PushBytes(cpu: Cpu, bs: seq<Byte>, ghost block: seq<Byte>, ghost top: nat, ghost m: Mem)
    requires cpu.Valid() && |bs| + |block| <= top <= MEM_SIZE
    requires cpu.esp == top - |block| && cpu.mem[..] == Blit(m, cpu.esp, block)
    modifies cpu`esp, cpu.mem
    ensures cpu.esp == top - |bs + block|
    ensures cpu.mem[..] == Blit(m, cpu.esp, bs + block)
  {
    cpu.esp := cpu.esp - |bs|;
    cpu.Copy(cpu.esp, bs);
    BlitBelow(m, top - |block|, bs, block);
  }

  /** The elements from index lo on, if there are any. */
  function From<T>(s: seq<T>, lo: nat): seq<T> {
    if lo <= |s| then s[lo..] else []
  }

  /** The addresses noted for strings i and up, when the last one ends at `end`; lower slots as in e0. */
  ghost predicate Noted(e0: seq<Word>, e: seq<Word>, ss: seq<CString>, i: nat, end: int) {
    && |e| == |e0| == |ss|
    && (forall j | i <= j < |ss| :: e[j] == end - |StringBlock(ss[j..])|)
    && (forall j | 0 <= j < |ss| && j < i :: e[j] == e0[j])
  }

  lemma NotedNone(e: seq<Word>, ss: seq<CString>, end: int)
    requires |e| == |ss|
    ensures Noted(e, e, ss, |ss|, end)
  {
  }

  lemma NoteOne(e0: seq<Word>, e: seq<Word>, ss: seq<CString>, i: nat, end: int, a: Word)
    requires i < |ss| && Noted(e0, e, ss, i + 1, end) && a == end - |StringBlock(ss[i..])|
    ensures Noted(e0, e[i := a], ss, i, end)
  {
    hide StringBlock;
  }

  /** The strings from i up lie above esp, over a block that ends at `top` of memory m, and are noted in emu. */
  ghost predicate Pushed(cpu: Cpu, ss: seq<CString>, i: nat, emu: array<Word>, e0: seq<Word>,
                         block: seq<Byte>, top: nat, m: Mem)
    reads cpu, cpu.mem, emu
    requires cpu.Valid() && top <= MEM_SIZE && i <= |ss|
  {
    var bs := StringBlock(ss[i..]) + block;
    && cpu.esp == top - |bs| && cpu.mem[..] == Blit(m, cpu.esp, bs)
    && Noted(e0, emu[..], ss, i, top - |block|)
  }

  /** Copies string i below the strings above it and notes its address. */
  method PushString(cpu: Cpu, ss: seq<CString>, ghost lo: nat, i: nat, emu: array<Word>, ghost e0: seq<Word>,
                    ghost block: seq<Byte>, ghost top: nat, ghost m: Mem)
    requires cpu.Valid() && lo <= i < |ss| && |StringBlock(From(ss, lo))| + |block| <= top <= MEM_SIZE
    requires emu.Length == |ss| && emu as object != cpu.mem && Pushed(cpu, ss, i + 1, emu, e0, block, top, m)
    modifies cpu`esp, cpu.mem, emu
    ensures Pushed(cpu, ss, i, emu, e0, block, top, m)
  {
    hide StringBlock, Blit, From, Noted;
    ghost var rest := StringBlock(ss[i + 1..]) + block;
    BlockBelow(ss, lo, i);
    PushBytes(cpu, ss[i] + [0], rest, top, m);
    assert ss[i] + [0] + rest == StringBlock(ss[i..]) + block;
    NoteOne(e0, emu[..], ss, i, top - |block|, cpu.esp);
    ghost var e := emu[..];
    emu[i] := cpu.esp;
    assert emu[..] == e[i := cpu.esp];
  }

  /** Copies the strings from the last down to index lo below a block, noting where each one starts. */
  method PushStrings(cpu: Cpu, ss: seq<CString>, lo: nat, emu: array<Word>,
                     ghost block: seq<Byte>, ghost top: nat, ghost m: Mem)
    requires cpu.Valid() && emu.Length == |ss| && |StringBlock(From(ss, lo))| + |block| <= top <= MEM_SIZE
    requires cpu.esp == top - |block| && cpu.mem[..] == Blit(m, cpu.esp, block) && emu as object != cpu.mem
    modifies cpu`esp, cpu.mem, emu
    ensures cpu.esp == top - |StringBlock(From(ss, lo))| - |block|
    ensures cpu.mem[..] == Blit(m, cpu.esp, StringBlock(From(ss, lo)) + block)
    ensures Noted(old(emu[..]), emu[..], ss, lo, top - |block|)
  {
    var i := |ss|;
    ghost var e0 := emu[..];
    hide StringBlock, Blit, From, Noted;
    assert StringBlock(ss[i..]) + block == block by { EmptyBlock(ss[i..]); }
    assert Noted(e0, emu[..], ss, i, top - |block|) by { NotedNone(e0, ss, top - |block|); }
    while i > lo
      invariant (lo <= i || i == |ss|) && i <= |ss|
      invariant Pushed(cpu, ss, i, emu, e0, block, top, m)
    {
      hide Pushed;
      i := i - 1;
      PushString(cpu, ss, lo, i, emu, e0, block, top, m);
    }
    assert ss[i..] == From(ss, lo) by { FromTail(ss, i, lo); }
    NotedFrom(e0, emu[..], ss, i, lo, top - |block|);
  }

  lemma EmptyBlock(ss: seq<CString>)
    requires ss == []
    ensures StringBlock(ss) == []
  {
  }

  lemma FromTail<T>(s: seq<T>, i: nat, lo: nat)
    requires i <= |s| && (i == lo || i == |s| < lo)
    ensures s[i..] == From(s, lo)
  {
  }

  lemma NotedFrom(e0: seq<Word>, e: seq<Word>, ss: seq<CString>, i: nat, lo: nat, end: int)
    requires Noted(e0, e, ss, i, end) && (i == lo || i == |ss| < lo)
    ensures Noted(e0, e, ss, lo, end)
  {
    hide StringBlock;
  }

  /** String i and the strings above it are part of the block from lo on. */
  lemma BlockBelow(ss: seq<CString>, lo: nat, i: nat)
    requires lo <= i < |ss|
    ensures StringBlock(ss[i..]) == ss[i] + [0] + StringBlock(ss[i + 1..])
    ensures |StringBlock(ss[i..])| <= |StringBlock(From(ss, lo))|
  {
    assert ss[i..][0] == ss[i] && ss[i..][1..] == ss[i + 1..];
    assert ss[lo..] == ss[lo..i] + ss[i..];
    StringBlockAppend(ss[lo..i], ss[i..]);
  }

  /** Pushes emu[i] from the last index down to lo. */
  method PushEmulated(cpu: Cpu, emu: array<Word>, lo: nat, ghost ws: seq<Word>, ghost top: nat, ghost m: Mem)
    requires cpu.Valid() && 4 * |From(emu[..], lo) + ws| <= top <= MEM_SIZE
    requires cpu.esp == top - 4 * |ws| && cpu.mem[..] == Blit(m, cpu.esp, WordBlock(ws))
    modifies cpu`esp, cpu.mem
    ensures cpu.esp == top - 4 * |From(emu[..], lo) + ws|
    ensures cpu.mem[..] == Blit(m, cpu.esp, WordBlock(From(emu[..], lo) + ws))
  {
    hide WordBlock, Blit;
    ghost var e := emu[..];
    var i := emu.Length;
    assert e[i..] + ws == ws;
    while i > lo
      invariant (lo <= i || i == emu.Length) && i <= emu.Length
      invariant cpu.esp == top - 4 * |e[i..] + ws| && cpu.mem[..] == Blit(m, cpu.esp, WordBlock(e[i..] + ws))
    {
      i := i - 1;
      ghost var rest := e[i + 1..] + ws;
      PushWord(cpu, emu[i], rest, top, m);
      assert [e[i]] + rest == e[i..] + ws;
    }
    assert e[i..] == From(e, lo);
  }

  lemma EmptyBlit(m: Mem, a: nat)
    requires a <= MEM_SIZE
    ensures Blit(m, a, []) == m && WordBlock([]) == []
  {
  }

  /** One entry of the host vector. */
  lemma AuxStep(g: AuxInfo, aux: seq<AuxEntry>, i: nat, ws: seq<Word>)
    requires i < |aux| && KnownTypes(aux[i..]) && aux[i].ty != AT_NULL
    ensures aux[i].ty < 53 && KnownTypes(aux[i + 1..])
    ensures AuxWords(g, aux[i..], ws) ==
            AuxWords(g, aux[i + 1..],
                     if Skipped(aux[i].ty) then ws else [aux[i].ty, Getter(g, aux[i].ty, aux[i].val)] + ws)
  {
    hide Getter;
    assert aux[i..][1..] == aux[i + 1..];
  }

  lemma AuxStop(g: AuxInfo, aux: seq<AuxEntry>, i: nat, ws: seq<Word>)
    requires i <= |aux| && KnownTypes(aux[i..]) && (i == |aux| || aux[i].ty == AT_NULL)
    ensures AuxWords(g, aux[i..], ws) == ws
  {
  }

  lemma {:induction false} AuxWordsGrow(g: AuxInfo, aux: seq<AuxEntry>, below: seq<Word>)
    requires KnownTypes(aux)
    ensures |AuxWords(g, aux, below)| >= |below|
    decreases |aux|
  {
    if aux != [] && aux[0].ty != AT_NULL {
      AuxWordsGrow(g, aux[1..], below);
      if !Skipped(aux[0].ty) {
        AuxWordsGrow(g, aux[1..], [aux[0].ty, Getter(g, aux[0].ty, aux[0].val)] + below);
      }
    }
  }

  /** Pushes a value and then its type. */
  method PushEntry(cpu: Cpu, ty: Word, val: Word, ghost ws: seq<Word>, ghost top: nat, ghost m: Mem)
    requires cpu.Valid() && 4 * |ws| + 8 <= top <= MEM_SIZE
    requires cpu.esp == top - 4 * |ws| && cpu.mem[..] == Blit(m, cpu.esp, WordBlock(ws))
    modifies cpu`esp, cpu.mem
    ensures cpu.esp == top - 4 * |ws| - 8
    ensures cpu.mem[..] == Blit(m, cpu.esp, WordBlock([ty, val] + ws))
  {
    hide WordBlock, Blit;
    PushWord(cpu, val, ws, top, m);
    PushWord(cpu, ty, [val] + ws, top, m);
    assert [ty] + ([val] + ws) == [ty, val] + ws;
  }

  /** Pushes v below the words ws that end at `top` of memory m. */
  method PushWord(cpu: Cpu, v: Word, ghost ws: seq<Word>, ghost top: nat, ghost m: Mem)
    requires cpu.Valid() && 4 * |ws| + 4 <= top <= MEM_SIZE
    requires cpu.esp == top - 4 * |ws| && cpu.mem[..] == Blit(m, cpu.esp, WordBlock(ws))
    modifies cpu`esp, cpu.mem
    ensures cpu.esp == top - 4 * |ws| - 4
    ensures cpu.mem[..] == Blit(m, cpu.esp, WordBlock([v] + ws))
  {
    hide Bytes32;
    cpu.esp := cpu.esp - 4;
    cpu.Write32(cpu.esp, v);
    assert ([v] + ws)[1..] == ws;
    BlitBelow(m, cpu.esp + 4, Bytes32(v), WordBlock(ws));
  }
}
