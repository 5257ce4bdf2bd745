/** The initial process stack: strings, alignment, auxiliary vector, environment and argument pointers. */
module StackImage {
  import opened Words

  /** A C string without its terminator. */
  type CString = s: seq<Byte> | 0 !in s witness []

  // ---------------------------------------------------------------- blocks of bytes and words

  /** The strings one after the other, each with its NUL. */
  function StringBlock(ss: seq<CString>): seq<Byte> {
    if ss == [] then [] else ss[0] + [0] + StringBlock(ss[1..])
  }

  /** The address of string k when the block ends at `top`. */
  function StringAddr(ss: seq<CString>, k: nat, top: int): int
    requires k <= |ss|
  {
    top - |StringBlock(ss[k..])|
  }

  function WordBlock(ws: seq<Word>): (bs: seq<Byte>)
    ensures |bs| == 4 * |ws|
  {
    if ws == [] then [] else Bytes32(ws[0]) + WordBlock(ws[1..])
  }

  // ---------------------------------------------------------------- the auxiliary vector

  const AT_NULL := 0

  /** One Elf64_auxv_t of the host. */
  datatype AuxEntry = AuxEntry(ty: nat, val: nat)

  /** The globals that the getters return. */
  datatype AuxInfo = AuxInfo(
    phAddr: Word,
    phSize: Word,
    phNum: Word,
    entry: Word,
    platform: Word,
    random: Word,
    execfn: Word)

  /** getters[ty](v); the table has 53 entries. */
  function Getter(g: AuxInfo, ty: nat, v: nat): Word
    requires ty < 53
  {
    if ty == 3 then g.phAddr
    else if ty == 4 then g.phSize
    else if ty == 5 then g.phNum
    else if ty == 7 then 0
    else if ty == 9 then g.entry
    else if ty == 15 || ty == 24 then g.platform
    else if ty == 25 then g.random
    else if ty == 31 then g.execfn
    else v % BASE
  }

  /** Every type that reaches the getters indexes their table. */
  predicate KnownTypes(aux: seq<AuxEntry>) {
    aux == [] || aux[0].ty == AT_NULL || (aux[0].ty < 53 && KnownTypes(aux[1..]))
  }

  predicate Skipped(ty: nat) {
    ty == 32 || ty == 33
  }

  /** The stack words after pushing value and type of each entry above `below`. */
  function AuxWords(g: AuxInfo, aux: seq<AuxEntry>, below: seq<Word>): seq<Word>
    requires KnownTypes(aux)
    decreases |aux|
  {
    if aux == [] || aux[0].ty == AT_NULL then below
    else if Skipped(aux[0].ty) then AuxWords(g, aux[1..], below)
    else AuxWords(g, aux[1..], [aux[0].ty, Getter(g, aux[0].ty, aux[0].val)] + below)
  }

  /** The host vector up to AT_NULL, without the skipped types, values mapped, in host order. */
  function GuestEntries(g: AuxInfo, aux: seq<AuxEntry>): seq<(Word, Word)>
    requires KnownTypes(aux)
  {
    if aux == [] || aux[0].ty == AT_NULL then []
    else if Skipped(aux[0].ty) then GuestEntries(g, aux[1..])
    else [(aux[0].ty, Getter(g, aux[0].ty, aux[0].val))] + GuestEntries(g, aux[1..])
  }

  function Reverse<T>(s: seq<T>): (r: seq<T>)
    ensures |r| == |s| && forall i :: 0 <= i < |s| ==> r[i] == s[|s| - 1 - i]
  {
    if s == [] then [] else Reverse(s[1..]) + [s[0]]
  }

  function Flatten(ps: seq<(Word, Word)>): (r: seq<Word>)
    ensures |r| == 2 * |ps|
    ensures forall i :: 0 <= i < |ps| ==> r[2 * i] == ps[i].0 && r[2 * i + 1] == ps[i].1
  {
    if ps == [] then [] else [ps[0].0, ps[0].1] + Flatten(ps[1..])
  }

  lemma {:induction false} FlattenAppend(ps: seq<(Word, Word)>, p: (Word, Word))
    ensures Flatten(ps + [p]) == Flatten(ps) + [p.0, p.1]
  {
    if ps == [] {
      assert ps + [p] == [p];
    } else {
      FlattenAppend(ps[1..], p);
      assert (ps + [p])[1..] == ps[1..] + [p];
    }
  }

  /** The pushes leave the guest entries reversed, on top of what was below. */
  lemma {:induction false} AuxIsReversed(g: AuxInfo, aux: seq<AuxEntry>, below: seq<Word>)
    requires KnownTypes(aux)
    ensures AuxWords(g, aux, below) == Flatten(Reverse(GuestEntries(g, aux))) + below
    decreases |aux|
  {
    if aux == [] || aux[0].ty == AT_NULL {
    } else if Skipped(aux[0].ty) {
      AuxIsReversed(g, aux[1..], below);
    } else {
      var p := (aux[0].ty, Getter(g, aux[0].ty, aux[0].val));
      var rest := GuestEntries(g, aux[1..]);
      AuxIsReversed(g, aux[1..], [p.0, p.1] + below);
      assert GuestEntries(g, aux)[1..] == rest;
      FlattenAppend(Reverse(rest), p);
    }
  }

  /** Host entry h comes before AT_NULL and is neither of the two types that are not passed on. */
  predicate Passed(aux: seq<AuxEntry>, h: nat) {
    h < |aux| && aux[h].ty != 32 && aux[h].ty != 33 && forall i | 0 <= i <= h :: aux[i].ty != AT_NULL
  }

  /** How many entries from index h on are passed. */
  function PassedFrom(aux: seq<AuxEntry>, h: nat): nat
    requires h <= |aux|
    decreases |aux| - h
  {
    if h == |aux| || aux[h].ty == AT_NULL then 0
    else (if aux[h].ty == 32 || aux[h].ty == 33 then 0 else 1) + PassedFrom(aux, h + 1)
  }

  lemma {:induction false} GuestCount(g: AuxInfo, aux: seq<AuxEntry>, h: nat)
    requires h <= |aux| && KnownTypes(aux[h..])
    ensures |GuestEntries(g, aux[h..])| == PassedFrom(aux, h)
    decreases |aux| - h
  {
    if h < |aux| && aux[h].ty != AT_NULL {
      assert aux[h..][0] == aux[h] && aux[h..][1..] == aux[h + 1..];
      GuestCount(g, aux, h + 1);
    }
  }

  /** A passed host entry, seen from an index at or before it, is the guest entry with as many entries after it. */
  lemma {:induction false} GuestEntryOf(g: AuxInfo, aux: seq<AuxEntry>, from: nat, h: nat)
    requires from <= h && Passed(aux, h) && KnownTypes(aux[from..])
    ensures aux[h].ty < 53
    ensures var es, k := GuestEntries(g, aux[from..]), PassedFrom(aux, h + 1);
            k < |es| && es[|es| - 1 - k] == (aux[h].ty, Getter(g, aux[h].ty, aux[h].val))
    decreases h - from
  {
    assert aux[from..][0] == aux[from] && aux[from..][1..] == aux[from + 1..];
    if from < h {
      GuestEntryOf(g, aux, from + 1, h);
    } else {
      GuestCount(g, aux, h + 1);
    }
  }

  /** Every guest entry is that of a passed host entry. */
  lemma {:induction false} HostEntryOf(aux: seq<AuxEntry>, from: nat, k: nat) returns (h: nat)
    requires from <= |aux| && k < PassedFrom(aux, from) && forall i | 0 <= i < from :: aux[i].ty != AT_NULL
    ensures Passed(aux, h) && PassedFrom(aux, h + 1) == k
    decreases |aux| - from
  {
    if k == PassedFrom(aux, from + 1) {
      h := from;
    } else {
      h := HostEntryOf(aux, from + 1, k);
    }
  }

  // ---------------------------------------------------------------- pushing blocks

  /** Pushing cs below a block is pushing the longer block. */
  lemma BlitBelow(m: Mem, a: nat, cs: seq<Byte>, bs: seq<Byte>)
    requires |cs| <= a && a + |bs| <= MEM_SIZE
    ensures Blit(Blit(m, a, bs), a - |cs|, cs) == Blit(m, a - |cs|, cs + bs)
  {
  }

  lemma {:induction false} WordAt(ws: seq<Word>, m: Mem, a: nat, i: nat)
    requires a + 4 * |ws| <= MEM_SIZE && i < |ws|
    ensures Get32(Blit(m, a, WordBlock(ws)), a + 4 * i) == ws[i]
    decreases |ws|
  {
    var m' := Blit(m, a, WordBlock(ws));
    if i == 0 {
      JoinBytes(ws[0]);
      hide Bytes32;
      assert m'[a] == Bytes32(ws[0])[0] && m'[a + 1] == Bytes32(ws[0])[1];
      assert m'[a + 2] == Bytes32(ws[0])[2] && m'[a + 3] == Bytes32(ws[0])[3];
    } else {
      hide Bytes32, Get32;
      WordAt(ws[1..], m, a + 4, i - 1);
      SameWord(Blit(m, a + 4, WordBlock(ws[1..])), m', a + 4 * i);
    }
  }

  lemma {:induction false} StringBlockAppend(ss: seq<CString>, ts: seq<CString>)
    ensures StringBlock(ss + ts) == StringBlock(ss) + StringBlock(ts)
  {
    if ss == [] {
      assert ss + ts == ts;
    } else {
      StringBlockAppend(ss[1..], ts);
      assert (ss + ts)[1..] == ss[1..] + ts && (ss + ts)[0] == ss[0];
      var s, r := ss[0] + [0], StringBlock(ss[1..]);
      hide StringBlock;
      assert s + (r + StringBlock(ts)) == (s + r) + StringBlock(ts);
    }
  }

  /** String k of a block, with its terminator, starts at its address and ends where string k + 1 starts. */
  lemma StringInBlock(ss: seq<CString>, k: nat)
    requires k < |ss|
    ensures var block, tail := StringBlock(ss), StringBlock(ss[k..]);
            var o := |block| - |tail|;
            0 <= o && o + |ss[k]| + 1 <= |block| && block[o..o + |ss[k]| + 1] == ss[k] + [0]
    ensures |StringBlock(ss[k..])| == |ss[k]| + 1 + |StringBlock(ss[k + 1..])|
  {
    var tail := StringBlock(ss[k..]);
    assert ss == ss[..k] + ss[k..];
    StringBlockAppend(ss[..k], ss[k..]);
    assert ss[k..][0] == ss[k] && ss[k..][1..] == ss[k + 1..];
    assert tail[..|ss[k]| + 1] == ss[k] + [0];
    assert StringBlock(ss) == StringBlock(ss[..k]) + tail;
  }

  /** Later strings lie above earlier ones. */
  lemma {:induction false} StringsOrdered(ss: seq<CString>, k: nat, l: nat, top: int)
    requires k < l < |ss|
    ensures StringAddr(ss, k, top) + |ss[k]| + 1 <= StringAddr(ss, l, top)
    decreases l - k
  {
    StringInBlock(ss, k);
    if k + 1 < l {
      StringsOrdered(ss, k + 1, l, top);
    }
  }

  // ---------------------------------------------------------------- the layout of load_stack

  /** Everything load_stack reads: its arguments, the host's auxiliary vector, random() and globals. */
  datatype Inputs = Inputs(
    argv: seq<CString>,
    envp: seq<CString>,
    aux: seq<AuxEntry>,
    random1: Word,
    random2: Word,
    stale: Word,  // argv_emu[1], which is pushed but never assigned
    phAddr: Word,
    phSize: Word,
    phNum: Word,
    entry: Word,
    execfn: Word)
  {
    /** The argument strings that are copied: the emulator's own name and mode are not. */
    function Args(): seq<CString> {
      if |argv| >= 2 then argv[2..] else []
    }

    function Strings(): seq<CString> {
      Args() + envp
    }

    /** How many words argc and the argument pointers take. */
    function ArgWords(): nat {
      if |argv| >= 1 then |argv| else 1
    }
  }

  const PLATFORM: seq<Byte> := [0x78, 0x38, 0x36, 0]  // "x86"

  /** Strings, platform name and random words, lowest address first. */
  function StringArea(x: Inputs): seq<Byte> {
    Bytes32(x.random2) + Bytes32(x.random1) + PLATFORM + StringBlock(x.Args()) + StringBlock(x.envp)
  }

  function RandomAddr(x: Inputs, top: Word): (a: int)
    ensures a <= top - 12
  {
    top - |StringArea(x)|
  }

  /** `esp & ~3` */
  function AlignedTop(x: Inputs, top: Word): int {
    RandomAddr(x, top) - RandomAddr(x, top) % 4
  }

  lemma StringAddrRange(x: Inputs, top: Word, k: nat)
    requires k <= |x.Strings()|
    ensures RandomAddr(x, top) + 12 <= StringAddr(x.Strings(), k, top) <= top
  {
    var ss := x.Strings();
    StringBlockAppend(x.Args(), x.envp);
    assert ss == ss[..k] + ss[k..];
    StringBlockAppend(ss[..k], ss[k..]);
  }

  /** The pointer to argument i, for i >= 1. */
  function ArgPointer(x: Inputs, top: Word, i: nat): Word
    requires RandomAddr(x, top) >= 0 && 1 <= i < |x.argv|
  {
    if i == 1 then x.stale
    else
      StringAddrRange(x, top, i - 2);
      StringAddr(x.Strings(), i - 2, top)
  }

  function EnvPointer(x: Inputs, top: Word, i: nat): Word
    requires RandomAddr(x, top) >= 0 && i < |x.envp|
  {
    StringAddrRange(x, top, |x.Args()| + i);
    StringAddr(x.Strings(), |x.Args()| + i, top)
  }

  function ArgPointers(x: Inputs, top: Word, from: nat): (r: seq<Word>)
    requires RandomAddr(x, top) >= 0 && 1 <= from <= x.ArgWords()
    ensures |r| == x.ArgWords() - from && forall j | 0 <= j < |r| :: r[j] == ArgPointer(x, top, from + j)
    decreases x.ArgWords() - from
  {
    if from == x.ArgWords() then [] else [ArgPointer(x, top, from)] + ArgPointers(x, top, from + 1)
  }

  function EnvPointers(x: Inputs, top: Word, from: nat): (r: seq<Word>)
    requires RandomAddr(x, top) >= 0 && from <= |x.envp|
    ensures |r| == |x.envp| - from && forall j | 0 <= j < |r| :: r[j] == EnvPointer(x, top, from + j)
    decreases |x.envp| - from
  {
    if from == |x.envp| then [] else [EnvPointer(x, top, from)] + EnvPointers(x, top, from + 1)
  }

  function Info(x: Inputs, top: Word): AuxInfo
    requires RandomAddr(x, top) >= 0
  {
    AuxInfo(x.phAddr, x.phSize, x.phNum, x.entry, RandomAddr(x, top) + 8, RandomAddr(x, top), x.execfn)
  }

  /** The pointer area, lowest address first. */
  function StackWords(x: Inputs, top: Word): seq<Word>
    requires RandomAddr(x, top) >= 0 && KnownTypes(x.aux)
  {
    [Wrap(|x.argv| - 1)] + ArgPointers(x, top, 1) + [0] + EnvPointers(x, top, 0) + [0]
      + AuxWords(Info(x, top), x.aux, [0, 0])
  }

  /** Strings and pointers fit between address 0 and the initial esp. */
  predicate Fits(x: Inputs, top: Word) {
    && RandomAddr(x, top) >= 0 && KnownTypes(x.aux)
    && 4 * |StackWords(x, top)| <= AlignedTop(x, top)
  }

  function FinalEsp(x: Inputs, top: Word): nat
    requires Fits(x, top)
  {
    AlignedTop(x, top) - 4 * |StackWords(x, top)|
  }

  /** Memory when the strings have been copied. */
  function WithStrings(x: Inputs, top: Word, m: Mem): Mem
    requires RandomAddr(x, top) >= 0
  {
    Blit(m, RandomAddr(x, top), StringArea(x))
  }

  /** Memory after load_stack. */
  function LoadedMem(x: Inputs, top: Word, m: Mem): Mem
    requires Fits(x, top)
  {
    Blit(WithStrings(x, top, m), FinalEsp(x, top), WordBlock(StackWords(x, top)))
  }

  // ---------------------------------------------------------------- what the layout promises

  /**
   * ws is the pointer area that a process expects: argc - 1, the argument pointers, NULL, the environment
   * pointers, NULL, and the reversed auxiliary vector with its (0, 0) terminator.
   */
  ghost predicate IsEntryVector(x: Inputs, top: Word, ws: seq<Word>)
    requires RandomAddr(x, top) >= 0 && KnownTypes(x.aux)
  {
    IsVector(ws, Wrap(|x.argv| - 1), ArgPointers(x, top, 1), EnvPointers(x, top, 0),
             Flatten(Reverse(GuestEntries(Info(x, top), x.aux))) + [0, 0])
  }

  /** The five sections of the entry vector, by position. */
  ghost predicate IsVector(ws: seq<Word>, argc: Word, args: seq<Word>, env: seq<Word>, aux: seq<Word>) {
    var n, c := |args| + 1, |env|;
    && |ws| == n + 1 + c + 1 + |aux|
    && ws[0] == argc && ws[1..n] == args && ws[n] == 0
    && ws[n + 1..n + 1 + c] == env && ws[n + 1 + c] == 0
    && ws[n + c + 2..] == aux
  }

  lemma JoinedSections(argc: Word, args: seq<Word>, env: seq<Word>, aux: seq<Word>)
    ensures IsVector([argc] + args + [0] + env + [0] + aux, argc, args, env, aux)
  {
  }

  lemma StackWordsAreEntryVector(x: Inputs, top: Word)
    requires RandomAddr(x, top) >= 0 && KnownTypes(x.aux)
    ensures IsEntryVector(x, top, StackWords(x, top))
  {
    hide RandomAddr, KnownTypes, AuxWords, GuestEntries, Info, IsVector;
    AuxIsReversed(Info(x, top), x.aux, [0, 0]);
    JoinedSections(Wrap(|x.argv| - 1), ArgPointers(x, top, 1), EnvPointers(x, top, 0),
                   AuxWords(Info(x, top), x.aux, [0, 0]));
  }

  /** After load_stack esp is 4-aligned, and the dwords from it up to the strings are the entry vector. */
  lemma EntryLayout(x: Inputs, top: Word, m: Mem)
    requires Fits(x, top)
    ensures var e, ws := FinalEsp(x, top), StackWords(x, top);
            && e % 4 == 0 && e + 4 * |ws| == AlignedTop(x, top)
            && AlignedTop(x, top) <= RandomAddr(x, top) < AlignedTop(x, top) + 4
            && IsEntryVector(x, top, ws)
            && (|x.argv| >= 2 ==> ws[1] == x.stale)
            && forall i | 0 <= i < |ws| :: Get32(LoadedMem(x, top, m), e + 4 * i) == ws[i]
  {
    hide StackWords, WithStrings, Get32, IsEntryVector, RandomAddr, KnownTypes, WordBlock;
    StackWordsAreEntryVector(x, top);
    if |x.argv| >= 2 {
      StaleSlot(x, top);
    }
    var e, ws := FinalEsp(x, top), StackWords(x, top);
    forall i | 0 <= i < |ws| ensures Get32(LoadedMem(x, top, m), e + 4 * i) == ws[i] {
      WordAt(ws, WithStrings(x, top, m), e, i);
    }
  }

  /** After load_stack the string block ends at the initial esp. */
  lemma StringsInMemory(x: Inputs, top: Word, m: Mem)
    requires Fits(x, top)
    ensures var lo := RandomAddr(x, top) + 12;
            && 0 <= lo && lo + |StringBlock(x.Strings())| == top
            && LoadedMem(x, top, m)[lo..top] == StringBlock(x.Strings())
  {
    StringBlockAppend(x.Args(), x.envp);
    hide StringBlock, StackWords, KnownTypes, Bytes32;
    assert StringArea(x)[12..] == StringBlock(x.Strings());
    hide StringArea;
    var r := RandomAddr(x, top);
    BlitSlice(m, r, StringArea(x), 12);
    BlitAbove(WithStrings(x, top, m), FinalEsp(x, top), WordBlock(StackWords(x, top)), r + 12, top);
  }

  lemma BlitSlice(m: Mem, a: nat, bs: seq<Byte>, o: nat)
    requires a + |bs| <= MEM_SIZE && o <= |bs|
    ensures Blit(m, a, bs)[a + o..a + |bs|] == bs[o..]
  {
  }

  lemma BlitAbove(m: Mem, a: nat, bs: seq<Byte>, lo: nat, hi: nat)
    requires a + |bs| <= lo <= hi <= MEM_SIZE
    ensures Blit(m, a, bs)[lo..hi] == m[lo..hi]
  {
  }

  lemma SliceOfSlice(m: seq<Byte>, lo: nat, hi: nat, o: nat, n: nat)
    requires lo <= hi <= |m| && o + n <= hi - lo
    ensures m[lo..hi][o..o + n] == m[lo + o..lo + o + n]
  {
    var a, b := m[lo..hi][o..o + n], m[lo + o..lo + o + n];
    assert |a| == |b| && forall i | 0 <= i < n :: a[i] == b[i];
  }

  lemma StringBytes(x: Inputs, top: Word, m: Mem, k: nat)
    requires Fits(x, top) && k < |x.Strings()|
    ensures var a, s := StringAddr(x.Strings(), k, top), x.Strings()[k];
            0 <= a && a + |s| + 1 <= top && LoadedMem(x, top, m)[a..a + |s| + 1] == s + [0]
  {
    hide StringBlock, LoadedMem, Fits, RandomAddr, Inputs.Strings;
    var ss := x.Strings();
    var block := StringBlock(ss);
    StringInBlock(ss, k);
    StringsInMemory(x, top, m);
    SliceOfSlice(LoadedMem(x, top, m), RandomAddr(x, top) + 12, top, |block| - |StringBlock(ss[k..])|, |ss[k]| + 1);
  }

  /** Two strings of the block do not overlap. */
  lemma StringsDisjoint(ss: seq<CString>, k: nat, l: nat, top: int)
    requires k < |ss| && l < |ss| && k != l
    ensures var a, b := StringAddr(ss, k, top), StringAddr(ss, l, top);
            b + |ss[l]| + 1 <= a || a + |ss[k]| + 1 <= b
  {
    hide StringAddr;
    if l < k {
      StringsOrdered(ss, l, k, top);
    } else {
      StringsOrdered(ss, k, l, top);
    }
  }

  lemma AlignedBelow(x: Inputs, top: Word)
    ensures RandomAddr(x, top) - 4 < AlignedTop(x, top) <= RandomAddr(x, top)
  {
    hide RandomAddr;
  }

  /**
   * Every copied string is intact and terminated at its address, lies above the pointer area, and is disjoint
   * from every other string.
   */
  lemma StringsIntact(x: Inputs, top: Word, m: Mem, k: nat)
    requires Fits(x, top) && k < |x.Strings()|
    ensures var ss := x.Strings(); var a, s := StringAddr(ss, k, top), ss[k];
            && AlignedTop(x, top) + 12 <= a && a + |s| + 1 <= top
            && LoadedMem(x, top, m)[a..a + |s| + 1] == s + [0]
            && forall l | 0 <= l < |ss| && l != k ::
                 StringAddr(ss, l, top) + |ss[l]| + 1 <= a || a + |s| + 1 <= StringAddr(ss, l, top)
  {
    hide StringAddr, LoadedMem, Fits, RandomAddr, AlignedTop, Inputs.Strings, StringBlock;
    var ss := x.Strings();
    StringAddrRange(x, top, k);
    StringBytes(x, top, m, k);
    AlignedBelow(x, top);
    forall l | 0 <= l < |ss| && l != k
      ensures var a, b := StringAddr(ss, k, top), StringAddr(ss, l, top); b + |ss[l]| + 1 <= a || a + |ss[k]| + 1 <= b
    {
      StringsDisjoint(ss, k, l, top);
    }
  }

  /** The sections of the entry vector, as the process reads them. */
  lemma PointerWords(x: Inputs, top: Word)
    requires RandomAddr(x, top) >= 0 && KnownTypes(x.aux)
    ensures var ws, n := StackWords(x, top), x.ArgWords();
            && |ws| >= n + |x.envp| + 2
            && (forall i | 1 <= i < |x.argv| :: ws[i] == ArgPointer(x, top, i))
            && (forall i | 0 <= i < |x.envp| :: ws[n + 1 + i] == EnvPointer(x, top, i))
  {
    hide RandomAddr, KnownTypes, StackWords, Info, GuestEntries, ArgPointer, EnvPointer, Flatten, Reverse;
    StackWordsAreEntryVector(x, top);
    var ws, n := StackWords(x, top), x.ArgWords();
    var args, env := ArgPointers(x, top, 1), EnvPointers(x, top, 0);
    hide ArgPointers, EnvPointers;
    assert ws[1..n] == args && ws[n + 1..n + 1 + |env|] == env;
    forall i | 1 <= i < |x.argv| ensures ws[i] == ArgPointer(x, top, i) {
      assert ws[1..n][i - 1] == args[i - 1];
    }
    forall i | 0 <= i < |x.envp| ensures ws[n + 1 + i] == EnvPointer(x, top, i) {
      assert ws[n + 1..n + 1 + |env|][i] == env[i];
    }
  }

  /** The second word is the pointer that is never assigned. */
  lemma StaleSlot(x: Inputs, top: Word)
    requires RandomAddr(x, top) >= 0 && KnownTypes(x.aux) && |x.argv| >= 2
    ensures |StackWords(x, top)| >= 2 && StackWords(x, top)[1] == x.stale
  {
    hide RandomAddr, KnownTypes, StackWords, EnvPointer;
    PointerWords(x, top);
    assert ArgPointer(x, top, 1) == x.stale;
  }

  /** The dword at p addresses an intact, terminated copy of s. */
  ghost predicate Addresses(m: Mem, p: nat, s: CString)
    requires p + 4 <= MEM_SIZE
  {
    var a := Get32(m, p);
    a + |s| + 1 <= MEM_SIZE && m[a..a + |s| + 1] == s + [0]
  }

  /** A slot of the entry vector that holds the address of string k addresses that string. */
  lemma SlotAddresses(x: Inputs, top: Word, m: Mem, i: nat, k: nat)
    requires Fits(x, top) && i < |StackWords(x, top)| && k < |x.Strings()|
    requires StackWords(x, top)[i] == StringAddr(x.Strings(), k, top)
    ensures var p := FinalEsp(x, top) + 4 * i;
            && p + 4 <= AlignedTop(x, top) <= MEM_SIZE
            && Addresses(LoadedMem(x, top, m), p, x.Strings()[k])
  {
    hide LoadedMem, StackWords, RandomAddr, KnownTypes, StringAddr, IsEntryVector, Get32, Inputs.Strings;
    EntryLayout(x, top, m);
    StringsIntact(x, top, m, k);
    hide Fits, FinalEsp, AlignedTop;
  }

  /** A program that follows its i-th environment pointer finds environment string i. */
  lemma EnvironmentAddressed(x: Inputs, top: Word, m: Mem, i: nat)
    requires Fits(x, top) && i < |x.envp|
    ensures var p := FinalEsp(x, top) + 4 * (x.ArgWords() + 1 + i);
            p + 4 <= AlignedTop(x, top) <= MEM_SIZE && Addresses(LoadedMem(x, top, m), p, x.envp[i])
  {
    hide LoadedMem, StackWords, RandomAddr, KnownTypes, StringAddr, Addresses, FinalEsp, AlignedTop;
    PointerWords(x, top);
    var k := |x.Args()| + i;
    assert k < |x.Strings()| && x.Strings()[k] == x.envp[i];
    assert EnvPointer(x, top, i) == StringAddr(x.Strings(), k, top);
    hide EnvPointer, Inputs.Strings, Inputs.ArgWords, Inputs.Args;
    SlotAddresses(x, top, m, x.ArgWords() + 1 + i, k);
  }

  /** Likewise for the arguments that are copied, those from index 2 on. */
  lemma ArgumentAddressed(x: Inputs, top: Word, m: Mem, i: nat)
    requires Fits(x, top) && 2 <= i < |x.argv|
    ensures var p := FinalEsp(x, top) + 4 * i;
            p + 4 <= AlignedTop(x, top) <= MEM_SIZE && Addresses(LoadedMem(x, top, m), p, x.argv[i])
  {
    hide LoadedMem, StackWords, RandomAddr, KnownTypes, StringAddr, Addresses, FinalEsp, AlignedTop;
    PointerWords(x, top);
    assert ArgPointer(x, top, i) == StringAddr(x.Strings(), i - 2, top);
    assert x.Strings()[i - 2] == x.argv[i];
    hide ArgPointer;
    SlotAddresses(x, top, m, i, i - 2);
  }

  /** The address of guest auxiliary entry k, after argc, both pointer arrays and their NULLs. */
  function AuxAddr(x: Inputs, top: Word, k: nat): int
    requires Fits(x, top)
  {
    FinalEsp(x, top) + 4 * (x.ArgWords() + |x.envp| + 2 + 2 * k)
  }

  /** The auxiliary section of the entry vector. */
  lemma AuxWordsAt(x: Inputs, top: Word, k: nat)
    requires RandomAddr(x, top) >= 0 && KnownTypes(x.aux)
    ensures var ws, n, es := StackWords(x, top), x.ArgWords() + |x.envp| + 2, GuestEntries(Info(x, top), x.aux);
            && |ws| == n + 2 * |es| + 2
            && (k < |es| ==> ws[n + 2 * k] == es[|es| - 1 - k].0 && ws[n + 2 * k + 1] == es[|es| - 1 - k].1)
            && (k == |es| ==> ws[n + 2 * k] == 0 && ws[n + 2 * k + 1] == 0)
  {
    hide RandomAddr, KnownTypes, StackWords, Info, GuestEntries, ArgPointer, EnvPointer, Flatten, Reverse;
    StackWordsAreEntryVector(x, top);
    var ws, n, es := StackWords(x, top), x.ArgWords() + |x.envp| + 2, GuestEntries(Info(x, top), x.aux);
    var aux := Flatten(Reverse(es)) + [0, 0];
    hide ArgPointers, EnvPointers, Inputs.ArgWords;
    assert ws[n..] == aux;
    if k <= |es| {
      assert ws[n..][2 * k] == aux[2 * k] && ws[n..][2 * k + 1] == aux[2 * k + 1];
    }
  }

  /** What the process reads as auxiliary entry k. */
  lemma AuxRead(x: Inputs, top: Word, m: Mem, k: nat)
    requires Fits(x, top)
    ensures var es := GuestEntries(Info(x, top), x.aux); var m', p := LoadedMem(x, top, m), AuxAddr(x, top, k);
            && AuxAddr(x, top, |es| + 1) == AlignedTop(x, top) <= MEM_SIZE
            && (k <= |es| ==>
                  && 0 <= p && p + 8 <= MEM_SIZE
                  && Get32(m', p) == (if k < |es| then es[|es| - 1 - k].0 else 0)
                  && Get32(m', p + 4) == (if k < |es| then es[|es| - 1 - k].1 else 0))
  {
    hide RandomAddr, KnownTypes, StackWords, Info, GuestEntries, LoadedMem, Get32, IsEntryVector, Inputs.ArgWords;
    EntryLayout(x, top, m);
    AuxWordsAt(x, top, k);
  }

  /**
   * Every host entry before AT_NULL, except types 32 and 33, is found in memory in reversed order: its type, and with
   * it the value that this type stands for in the emulated process.
   */
  lemma AuxEntryInMemory(x: Inputs, top: Word, m: Mem, h: nat)
    requires Fits(x, top) && Passed(x.aux, h)
    ensures var m', p := LoadedMem(x, top, m), AuxAddr(x, top, PassedFrom(x.aux, h + 1)); var e := x.aux[h];
            && 0 <= p && p + 8 <= AlignedTop(x, top) - 8 && AlignedTop(x, top) <= MEM_SIZE
            && Get32(m', p) == e.ty
            && var v := Get32(m', p + 4);
            && (e.ty == 3 ==> v == x.phAddr) && (e.ty == 4 ==> v == x.phSize) && (e.ty == 5 ==> v == x.phNum)
            && (e.ty == 7 ==> v == 0) && (e.ty == 9 ==> v == x.entry) && (e.ty == 31 ==> v == x.execfn)
            && (e.ty == 15 || e.ty == 24 ==> v + 4 <= MEM_SIZE && m'[v..v + 4] == [0x78, 0x38, 0x36, 0])
            && (e.ty == 25 ==> v + 8 <= MEM_SIZE && m'[v..v + 8] == Bytes32(x.random2) + Bytes32(x.random1))
            && (e.ty !in {3, 4, 5, 7, 9, 15, 24, 25, 31} ==> v == e.val % BASE)
  {
    hide LoadedMem, GuestEntries, Bytes32, Get32, RandomAddr, KnownTypes, StackWords, AuxAddr, PassedFrom, Getter, Info;
    var g, k, e := Info(x, top), PassedFrom(x.aux, h + 1), x.aux[h];
    assert x.aux[0..] == x.aux;
    GuestEntryOf(g, x.aux, 0, h);
    AuxRead(x, top, m, k);
    AuxAddrStep(x, top, k, |GuestEntries(g, x.aux)| + 1);
    GetterOf(x, top, e.ty, e.val);
    AuxTargetsIntact(x, top, m, e.val);
    hide Fits, Passed, AlignedTop;
  }

  lemma AuxAddrStep(x: Inputs, top: Word, k: nat, l: nat)
    requires Fits(x, top)
    ensures AuxAddr(x, top, l) == AuxAddr(x, top, k) + 8 * (l - k)
  {
    hide Fits, FinalEsp;
  }

  /** The getters that return no address of the string area. */
  lemma GetterOf(x: Inputs, top: Word, ty: nat, val: nat)
    requires RandomAddr(x, top) >= 0 && ty < 53
    ensures var v := Getter(Info(x, top), ty, val);
            && (ty == 3 ==> v == x.phAddr) && (ty == 4 ==> v == x.phSize) && (ty == 5 ==> v == x.phNum)
            && (ty == 7 ==> v == 0) && (ty == 9 ==> v == x.entry) && (ty == 31 ==> v == x.execfn)
            && (ty !in {3, 4, 5, 7, 9, 15, 24, 25, 31} ==> v == val % BASE)
  {
    hide RandomAddr;
  }

  lemma FitsKnown(x: Inputs, top: Word)
    requires Fits(x, top)
    ensures KnownTypes(x.aux) && RandomAddr(x, top) >= 0
  {
  }

  /** Nothing else is: entry k has a host entry behind it, so its type is not 0, 32 or 33; then come two zeros. */
  lemma AuxEntryHasHost(x: Inputs, top: Word, m: Mem, k: nat)
    requires Fits(x, top) && k <= PassedFrom(x.aux, 0)
    ensures var m', p := LoadedMem(x, top, m), AuxAddr(x, top, k);
            && 0 <= p && p + 8 <= MEM_SIZE && AuxAddr(x, top, PassedFrom(x.aux, 0) + 1) == AlignedTop(x, top)
            && if k < PassedFrom(x.aux, 0) then
                 Get32(m', p) !in {0, 32, 33} && exists h: nat :: Passed(x.aux, h) && PassedFrom(x.aux, h + 1) == k
               else Get32(m', p) == 0 && Get32(m', p + 4) == 0
  {
    hide LoadedMem, GuestEntries, Get32, RandomAddr, StackWords, AuxAddr, PassedFrom, AlignedTop, Info, Fits;
    assert x.aux[0..] == x.aux && KnownTypes(x.aux) && RandomAddr(x, top) >= 0 by { FitsKnown(x, top); }
    GuestCount(Info(x, top), x.aux, 0);
    AuxRead(x, top, m, k);
    if k < PassedFrom(x.aux, 0) {
      var h := HostEntryOf(x.aux, 0, k);
      AuxEntryInMemory(x, top, m, h);
    }
  }

  /** The string area starts with the random words and the platform string. */
  lemma AreaHead(x: Inputs)
    ensures var area := StringArea(x);
            |area| >= 12 && area[..8] == Bytes32(x.random2) + Bytes32(x.random1) && area[8..12] == PLATFORM
  {
    hide StringBlock, Bytes32, Inputs.Args;
  }

  /** The whole string area stays where it was copied. */
  lemma AreaInMemory(x: Inputs, top: Word, m: Mem)
    requires Fits(x, top)
    ensures var r := RandomAddr(x, top);
            0 <= r && r + |StringArea(x)| == top && LoadedMem(x, top, m)[r..top] == StringArea(x)
  {
    hide StackWords, KnownTypes, StringBlock, WordBlock;
    var r := RandomAddr(x, top);
    assert r + |StringArea(x)| == top;
    hide StringArea;
    BlitSlice(m, r, StringArea(x), 0);
    BlitAbove(WithStrings(x, top, m), FinalEsp(x, top), WordBlock(StackWords(x, top)), r, top);
  }

  /** AT_RANDOM addresses the two random words, and AT_PLATFORM the string "x86". */
  lemma AuxTargetsIntact(x: Inputs, top: Word, m: Mem, v: nat)
    requires Fits(x, top)
    ensures var m', r, q := LoadedMem(x, top, m), Getter(Info(x, top), 25, v), Getter(Info(x, top), 15, v);
            && q + 4 <= top && r + 8 <= top && m'[r..r + 8] == Bytes32(x.random2) + Bytes32(x.random1)
            && m'[q..q + 4] == PLATFORM && q == Getter(Info(x, top), 24, v)
  {
    hide StringArea, LoadedMem, Bytes32, StringBlock;
    AreaHead(x);
    AreaInMemory(x, top, m);
    hide RandomAddr, Fits;
    var m', r := LoadedMem(x, top, m), RandomAddr(x, top);
    SliceOfSlice(m', r, top, 0, 8);
    SliceOfSlice(m', r, top, 8, 4);
  }

  /** Nothing outside [final esp, initial esp) is written, and neither is the alignment gap. */
  lemma LoadFrame(x: Inputs, top: Word, m: Mem, j: nat)
    requires Fits(x, top) && j < MEM_SIZE
    requires j < FinalEsp(x, top) || top <= j || AlignedTop(x, top) <= j < RandomAddr(x, top)
    ensures LoadedMem(x, top, m)[j] == m[j]
  {
    hide StackWords, StringArea;
  }
}
