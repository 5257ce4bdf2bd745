/** The descriptor table: its initial contents, the set_thread_area slot allocator and the descriptor codec. */
module Gdt {
  import opened Bits
  import opened Words
  import opened Machine

  const FIRST_TLS: int := 6  // GDT_ENTRIES - GDT_TLS_RESERVED
  const MINUS_ONE: Word := 0xFFFF_FFFF

  // ---------------------------------------------------------------- init_gdt

  /** The bytes that init_gdt stores in entry i; `used` is stored only in the TLS entries. */
  function InitialDescriptor(i: nat): (bs: seq<Byte>)
    ensures 8 <= |bs| <= DESCRIPTOR_SIZE
  {
    match i
    case 0 => [0, 0, 0, 0, 0, 0x00, 0x00, 0]
    case 1 => [0xFF, 0xFF, 0, 0, 0, 0x9A, 0xCF, 0]
    case 2 => [0xFF, 0xFF, 0, 0, 0, 0x92, 0xCF, 0]
    case 3 => [0xFF, 0xFF, 0, 0, 0, 0x89, 0x00, 0]
    case 4 => [0xFF, 0xFF, 0, 0, 0, 0xFA, 0xCF, 0]
    case 5 => [0xFF, 0xFF, 0, 0, 0, 0xF2, 0xCF, 0]
    case _ => [0xFF, 0xFF, 0, 0, 0, 0x89, 0x00, 0, 0]
  }

  /** Memory after init_gdt has filled the first k entries. */
  function InitTable(m: Mem, gdt: nat, k: nat): Mem
    requires TableFits(gdt) && k <= GDT_ENTRIES
  {
    if k == 0 then m
    else Blit(InitTable(m, gdt, k - 1), gdt + (k - 1) * DESCRIPTOR_SIZE, InitialDescriptor(k - 1))
  }

  // ---------------------------------------------------------------- user_desc and descriptors

  /** struct user_desc32 without its entry number. */
  datatype Segment = Segment(base: Word, limit: Word, seg32: bool, contents: nat, readExecOnly: bool,
                             limitInPages: bool, notPresent: bool, useable: bool)

  /** The bit-fields of the fourth dword start at its lowest bit. */
  function ReadSegment(m: Mem, u: nat): (d: Segment)
    requires u + 16 <= MEM_SIZE
    ensures d.contents < 4
  {
    var bits: nat := m[u + 12];
    Segment(Get32(m, u + 4), Get32(m, u + 8), bits % 2 == 1, bits / 2 % 4, bits / 8 % 2 == 1,
            bits / 16 % 2 == 1, bits / 32 % 2 == 1, bits / 64 % 2 == 1)
  }

  function Weight(b: bool, w: nat): nat {
    if b then w else 0
  }

  /** Bit-fields that do not overlap are joined by sums. */
  function Access(d: Segment): Byte {
    var ty := if d.contents == 0 then (if d.readExecOnly then 0x0 else 0x2)
              else if d.contents == 2 then (if d.readExecOnly then 0x8 else 0xA)
              else 0;
    0x60 + 0x10 + ty + Weight(!d.notPresent, 0x80)
  }

  function Granularity(d: Segment): Byte {
    d.limit / 0x1_0000 % 0x10 + Weight(d.limitInPages, 0x80) + Weight(d.seg32, 0x40) + Weight(d.useable, 0x10)
  }

  /** The nine field bytes of a used descriptor. */
  function Encode(d: Segment): (bs: seq<Byte>)
    ensures |bs| == 9
  {
    var b := Bytes32(d.base);
    [d.limit % 0x100, d.limit / 0x100 % 0x100, b[0], b[1], b[2], Access(d), Granularity(d), b[3], 1]
  }

  /** A descriptor read back, as section 5.1.1 of the 80386 manual lays it out. */
  function Decode(bs: seq<Byte>): Segment
    requires |bs| == 9
  {
    var access: nat, gran: nat := bs[5], bs[6];
    Segment(Join(bs[2], bs[3], bs[4], bs[7]), Join(bs[0], bs[1], gran % 0x10, 0), gran / 0x40 % 2 == 1,
            if access / 8 % 2 == 1 then 2 else 0, access / 2 % 2 == 0,
            gran / 0x80 == 1, access / 0x80 == 0, gran / 0x10 % 2 == 1)
  }

  // ---------------------------------------------------------------- set_thread_area

  predicate Used(m: Mem, gdt: nat, i: nat)
    requires TableFits(gdt) && i < GDT_ENTRIES
  {
    m[gdt + i * DESCRIPTOR_SIZE + 8] != 0
  }

  function FreeSlot(m: Mem, gdt: nat): (r: Option<nat>)
    requires TableFits(gdt)
    ensures r.Some? ==> r.value < GDT_ENTRIES
  {
    if !Used(m, gdt, 6) then Some(6)
    else if !Used(m, gdt, 7) then Some(7)
    else if !Used(m, gdt, 8) then Some(8)
    else None
  }

  /** An explicit entry number is truncated to uint8_t and not checked. */
  function ChosenSlot(m: Mem, gdt: nat, u: nat): Option<nat>
    requires TableFits(gdt) && u + 16 <= MEM_SIZE
  {
    if Get32(m, u) != MINUS_ONE then Some(Get32(m, u) % 0x100) else FreeSlot(m, gdt)
  }

  /** The table, the user_desc and the chosen slot lie in memory. */
  predicate AreaFits(m: Mem, gdt: nat, u: nat) {
    && TableFits(gdt) && u + 16 <= MEM_SIZE
    && (ChosenSlot(m, gdt, u).Some? ==> gdt + ChosenSlot(m, gdt, u).value * DESCRIPTOR_SIZE + 9 <= MEM_SIZE)
  }

  datatype AreaOut = AreaOut(mem: Mem, ret: Word)

  function SetThreadArea(m: Mem, gdt: nat, u: nat): AreaOut
    requires AreaFits(m, gdt, u)
  {
    match ChosenSlot(m, gdt, u)
    case None => AreaOut(m, MINUS_ONE)
    case Some(i) =>
      AreaOut(Put32(StoreFields(m, gdt + i * DESCRIPTOR_SIZE, u), u, i), 0)
  }

  // ---------------------------------------------------------------- the stores into one descriptor

  /** used, limit_low and the parts of the base, with the user_desc at u read again before each store. */
  function BaseFields(m: Mem, d: nat, u: nat): Mem
    requires d + 9 <= MEM_SIZE && u + 16 <= MEM_SIZE
  {
    var m1: Mem := m[d + 8 := 1];
    var m2 := Put16(m1, d, Get32(m1, u + 8) % 0x1_0000);
    var m3 := Put16(m2, d + 2, Get32(m2, u + 4) % 0x1_0000);
    var m4: Mem := m3[d + 4 := Get32(m3, u + 4) / 0x1_0000 % 0x100];
    m4[d + 7 := Get32(m4, u + 4) / 0x100_0000]
  }

  /** access with the present bit, its removal, and granularity, again from the user_desc as it then reads. */
  function AttributeFields(m: Mem, d: nat, u: nat): Mem
    requires d + 9 <= MEM_SIZE && u + 16 <= MEM_SIZE
  {
    var m1: Mem := m[d + 5 := Access(ReadSegment(m, u).(notPresent := false))];
    var m2: Mem := if ReadSegment(m1, u).notPresent then m1[d + 5 := m1[d + 5] % 0x80] else m1;
    m2[d + 6 := Granularity(ReadSegment(m2, u))]
  }

  /** The field-by-field stores into the descriptor at d, whether or not the user_desc overlaps it. */
  function StoreFields(m: Mem, d: nat, u: nat): Mem
    requires d + 9 <= MEM_SIZE && u + 16 <= MEM_SIZE
  {
    AttributeFields(BaseFields(m, d, u), d, u)
  }

  /** The user_desc lies apart from the descriptor that is written. */
  predicate SlotApart(d: nat, u: nat) {
    u + 16 <= d || d + 9 <= u
  }

  /** A write to the descriptor leaves the user_desc. */
  lemma SameSegment(m: Mem, m': Mem, u: nat)
    requires u + 16 <= MEM_SIZE && forall j | u <= j < u + 16 :: m'[j] == m[j]
    ensures ReadSegment(m', u) == ReadSegment(m, u)
  {
    SameWord(m, m', u + 4);
    SameWord(m, m', u + 8);
    hide Get32;
  }

  /** A store of the low half of v stores its two low bytes. */
  lemma LowHalf(m: Mem, a: nat, v: Word)
    requires a + 2 <= MEM_SIZE
    ensures Put16(m, a, v % 0x1_0000) == m[a := Bytes32(v)[0]][a + 1 := Bytes32(v)[1]]
  {
    LowBytes(v, v / 0x1_0000, v % 0x1_0000);
    assert Bytes16(v % 0x1_0000) == [Bytes32(v)[0], Bytes32(v)[1]];
    hide Bytes16, Bytes32;
  }

  lemma StoreKeepsWord(m: Mem, a: nat, v: Byte, p: nat)
    requires a < MEM_SIZE && p + 4 <= MEM_SIZE && (a < p || p + 4 <= a)
    ensures Get32(m[a := v], p) == Get32(m, p)
  {
    SameWord(m, m[a := v], p);
  }

  lemma HalfKeepsWord(m: Mem, a: nat, v: Word, p: nat) returns (m': Mem)
    requires a + 2 <= MEM_SIZE && p + 4 <= MEM_SIZE && (a + 2 <= p || p + 4 <= a)
    ensures m' == Put16(m, a, v % 0x1_0000) == m[a := Bytes32(v)[0]][a + 1 := Bytes32(v)[1]]
    ensures Get32(m', p) == Get32(m, p)
  {
    hide Get32, Put16, Bytes32;
    LowHalf(m, a, v);
    m' := Put16(m, a, v % 0x1_0000);
    SameWord(m, m', p);
  }

  /** Bytes 0 to 4, 7 and 8 of a descriptor that holds limit and base. */
  function WithBase(m: Mem, d: nat, limit: Word, base: Word): Mem
    requires d + 9 <= MEM_SIZE
  {
    var l, b := Bytes32(limit), Bytes32(base);
    m[d + 8 := 1][d := l[0]][d + 1 := l[1]][d + 2 := b[0]][d + 3 := b[1]][d + 4 := b[2]][d + 7 := b[3]]
  }

  lemma BaseFieldsApart(m: Mem, d: nat, u: nat)
    requires d + 9 <= MEM_SIZE && u + 16 <= MEM_SIZE && SlotApart(d, u)
    ensures BaseFields(m, d, u) == WithBase(m, d, Get32(m, u + 8), Get32(m, u + 4))
  {
    var l, b := Get32(m, u + 8), Get32(m, u + 4);
    assert Bytes32(b)[2] == b / 0x1_0000 % 0x100 && Bytes32(b)[3] == b / 0x100_0000;
    hide Get32, Put16, Bytes32;
    var m1: Mem := m[d + 8 := 1];
    StoreKeepsWord(m, d + 8, 1, u + 8);
    StoreKeepsWord(m, d + 8, 1, u + 4);
    var m2 := HalfKeepsWord(m1, d, l, u + 4);
    var m3 := HalfKeepsWord(m2, d + 2, b, u + 4);
    StoreKeepsWord(m3, d + 4, Bytes32(b)[2], u + 4);
  }

  lemma PresentBit(s: Segment)
    ensures Access(s.(notPresent := true)) == Access(s.(notPresent := false)) % 0x80
    ensures s.notPresent ==> s.(notPresent := true) == s
    ensures !s.notPresent ==> s.(notPresent := false) == s
  {
  }

  lemma AttributeFieldsApart(m: Mem, d: nat, u: nat)
    requires d + 9 <= MEM_SIZE && u + 16 <= MEM_SIZE && SlotApart(d, u)
    ensures var s := ReadSegment(m, u);
            AttributeFields(m, d, u) == m[d + 5 := Access(s)][d + 6 := Granularity(s)]
  {
    hide ReadSegment, Access, Granularity;
    var s := ReadSegment(m, u);
    PresentBit(s);
    var m1: Mem := m[d + 5 := Access(s.(notPresent := false))];
    SameSegment(m, m1, u);
    var m2: Mem := if s.notPresent then m1[d + 5 := m1[d + 5] % 0x80] else m1;
    SameSegment(m, m2, u);
    assert m2 == m[d + 5 := Access(s)];
  }

  lemma FieldsAreEncoding(m: Mem, d: nat, s: Segment)
    requires d + 9 <= MEM_SIZE
    ensures WithBase(m, d, s.limit, s.base)[d + 5 := Access(s)][d + 6 := Granularity(s)] == Blit(m, d, Encode(s))
  {
    assert Bytes32(s.limit)[0] == s.limit % 0x100 && Bytes32(s.limit)[1] == s.limit / 0x100 % 0x100;
    hide Bytes32, Access, Granularity;
  }

  /** The user_desc lies apart and stays as it is. */
  lemma BaseKeepsSegment(m: Mem, d: nat, u: nat, limit: Word, base: Word)
    requires d + 9 <= MEM_SIZE && u + 16 <= MEM_SIZE && SlotApart(d, u)
    ensures ReadSegment(WithBase(m, d, limit, base), u) == ReadSegment(m, u)
  {
    hide Bytes32, ReadSegment;
    SameSegment(m, WithBase(m, d, limit, base), u);
  }

  /** Apart from the user_desc, the stores leave the encoded descriptor and change no other byte. */
  lemma StoreFieldsApart(m: Mem, d: nat, u: nat)
    requires d + 9 <= MEM_SIZE && u + 16 <= MEM_SIZE && SlotApart(d, u)
    ensures StoreFields(m, d, u) == Blit(m, d, Encode(ReadSegment(m, u)))
  {
    var s := ReadSegment(m, u);
    assert s.limit == Get32(m, u + 8) && s.base == Get32(m, u + 4);
    hide BaseFields, AttributeFields, Get32, ReadSegment, Access, Granularity, WithBase, Encode, Blit;
    BaseFieldsApart(m, d, u);
    BaseKeepsSegment(m, d, u, s.limit, s.base);
    AttributeFieldsApart(WithBase(m, d, s.limit, s.base), d, u);
    FieldsAreEncoding(m, d, s);
  }

  // ---------------------------------------------------------------- the codec

  lemma BaseRoundTrip(d: Segment)
    ensures Decode(Encode(d)).base == d.base
  {
    JoinBytes(d.base);
  }

  /** The low half of l by bytes, and its next nibble, with l split as 2^16 h + low. */
  lemma LimitParts(l: Word)
    ensures Join(l % 0x100, l / 0x100 % 0x100, l / 0x1_0000 % 0x10, 0) == l % 0x10_0000
  {
    var h, low := l / 0x1_0000, l % 0x1_0000;
    LowBytes(l, h, low);
    DivModUnique(l, 0x10_0000, h / 0x10, 0x1_0000 * (h % 0x10) + low);
  }

  lemma LowBytes(l: Word, h: int, low: int)
    requires l == 0x1_0000 * h + low && 0 <= low < 0x1_0000
    ensures l % 0x100 + 0x100 * (l / 0x100 % 0x100) == low
  {
    var q := low / 0x100;
    DivModUnique(l, 0x100, 0x100 * h + q, low % 0x100);
    DivModUnique(0x100 * h + q, 0x100, h, q);
  }

  lemma LimitNibble(d: Segment)
    ensures Granularity(d) % 0x10 == d.limit / 0x1_0000 % 0x10
  {
  }

  /**
   * The access byte as section 5.1.1 lays it out: present, privilege level 3, an application segment, and its type:
   * code or data by contents, readable or writable unless read_exec_only, and 0 for the other contents.
   */
  lemma AccessByte(d: Segment)
    ensures var a: nat := Access(d);
            && a / 0x80 == (if d.notPresent then 0 else 1) && a / 0x20 % 4 == 3 && a / 0x10 % 2 == 1
            && a / 8 % 2 == (if d.contents == 2 then 1 else 0)
            && a / 2 % 2 == (if (d.contents == 0 || d.contents == 2) && !d.readExecOnly then 1 else 0)
            && a / 4 % 2 == 0 && a % 2 == 0
  {
  }

  /** The granularity byte: its own bits, bit 5 clear, and bits 16 to 19 of the limit. */
  lemma GranularityByte(d: Segment)
    ensures var g: nat := Granularity(d);
            && g % 0x10 == d.limit / 0x1_0000 % 0x10 && g / 0x20 % 2 == 0
            && g / 0x80 == (if d.limitInPages then 1 else 0) && g / 0x40 % 2 == (if d.seg32 then 1 else 0)
            && g / 0x10 % 2 == (if d.useable then 1 else 0)
  {
    var n := d.limit / 0x1_0000 % 0x10;
    var g: nat := Granularity(d);
    assert g / 0x10 == Weight(d.limitInPages, 8) + Weight(d.seg32, 4) + Weight(d.useable, 1);
  }

  lemma LimitRoundTrip(d: Segment)
    ensures Decode(Encode(d)).limit == d.limit % 0x10_0000
  {
    LimitParts(d.limit);
    LimitNibble(d);
    hide Granularity, Access, Join, Bytes32;
  }

  /** A descriptor gives back the segment it was built from exactly when limit and contents are representable. */
  lemma DescriptorRoundTrip(d: Segment)
    requires d.contents < 4
    ensures Decode(Encode(d)) == d <==> d.limit < 0x10_0000 && (d.contents == 0 || d.contents == 2)
  {
    BaseRoundTrip(d);
    LimitRoundTrip(d);
    hide Bytes32, Join;
    var n := d.limit / 0x1_0000 % 0x10;
    var g: nat := Granularity(d);
    assert g / 0x10 == Weight(d.limitInPages, 8) + Weight(d.seg32, 4) + Weight(d.useable, 1);
  }

  // ---------------------------------------------------------------- the allocator over a run of calls

  /** Exactly the first k of the three TLS slots are in use. */
  ghost predicate Taken(m: Mem, gdt: nat, k: nat)
    requires TableFits(gdt)
  {
    k <= 3 && forall i | FIRST_TLS <= i < GDT_ENTRIES :: Used(m, gdt, i) <==> i < FIRST_TLS + k
  }

  /** Descriptor i is the same, byte for byte. */
  ghost predicate SameSlot(m: Mem, m': Mem, gdt: nat, i: nat)
    requires TableFits(gdt) && i < GDT_ENTRIES
  {
    var d := gdt + i * DESCRIPTOR_SIZE;
    forall j :: d <= j < d + DESCRIPTOR_SIZE ==> m'[j] == m[j]
  }

  ghost predicate SameTable(m: Mem, m': Mem, gdt: nat)
    requires TableFits(gdt)
  {
    forall i | 0 <= i < GDT_ENTRIES :: SameSlot(m, m', gdt, i)
  }

  predicate Apart(gdt: nat, u: nat) {
    u + 16 <= gdt || gdt + GDT_ENTRIES * DESCRIPTOR_SIZE <= u
  }

  lemma SameSlotFacts(m: Mem, m': Mem, gdt: nat, i: nat)
    requires TableFits(gdt) && i < GDT_ENTRIES && SameSlot(m, m', gdt, i)
    ensures SlotBase(m', gdt, i) == SlotBase(m, gdt, i) && Used(m', gdt, i) == Used(m, gdt, i)
  {
  }

  lemma SegmentBaseWord(m: Mem, u: nat)
    requires u + 16 <= MEM_SIZE
    ensures ReadSegment(m, u).base == Get32(m, u + 4) && ReadSegment(m, u).limit == Get32(m, u + 8)
  {
  }

  /**
   * The slot of a call, from memory: an explicit entry number modulo 256; for -1 the first of the entries 6 to 8
   * whose ninth byte is 0, and none if all three have it set.
   */
  lemma SlotRule(m: Mem, gdt: nat, u: nat)
    requires TableFits(gdt) && u + 16 <= MEM_SIZE
    ensures var slot, used := ChosenSlot(m, gdt, u), (i: nat) => i < GDT_ENTRIES && m[gdt + 10 * i + 8] != 0;
            if Get32(m, u) != MINUS_ONE then slot == Some(Get32(m, u) % 0x100)
            else if slot.Some? then
              6 <= slot.value < 9 && !used(slot.value) && forall i | 6 <= i < slot.value :: used(i)
            else used(6) && used(7) && used(8)
  {
    hide Get32;
  }

  /** Memory after a call that takes slot i: the encoded descriptor there, and i in the user_desc. */
  lemma AreaMemory(m: Mem, gdt: nat, u: nat, i: nat, j: int)
    requires AreaFits(m, gdt, u) && Apart(gdt, u) && i < GDT_ENTRIES
    requires ChosenSlot(m, gdt, u) == Some(i) && 0 <= j < MEM_SIZE && !(u <= j < u + 4)
    ensures var d := gdt + i * DESCRIPTOR_SIZE;
            SetThreadArea(m, gdt, u).mem[j] == if d <= j < d + 9 then Encode(ReadSegment(m, u))[j - d] else m[j]
  {
    hide Encode, ReadSegment, Bytes32, Get32, StoreFields;
    StoreFieldsApart(m, gdt + i * DESCRIPTOR_SIZE, u);
  }

  /** A successful call writes the chosen descriptor and the entry number, and nothing else. */
  lemma AreaWrites(m: Mem, gdt: nat, u: nat, i: nat)
    requires AreaFits(m, gdt, u) && Apart(gdt, u) && i < GDT_ENTRIES
    requires ChosenSlot(m, gdt, u) == Some(i)
    ensures var out := SetThreadArea(m, gdt, u); var d := gdt + i * DESCRIPTOR_SIZE;
            && out.ret == 0 && Get32(out.mem, u) == i
            && out.mem[d..d + 9] == Encode(ReadSegment(m, u))
            && (forall j | 0 <= j < MEM_SIZE && !(u <= j < u + 4) && !(d <= j < d + 9) :: out.mem[j] == m[j])
  {
    hide Encode, ReadSegment, Bytes32, Get32, StoreFields;
    var out := SetThreadArea(m, gdt, u);
    var d := gdt + i * DESCRIPTOR_SIZE;
    ReadBack(StoreFields(m, d, u), u, i);
    forall j | 0 <= j < MEM_SIZE && !(u <= j < u + 4)
      ensures out.mem[j] == if d <= j < d + 9 then Encode(ReadSegment(m, u))[j - d] else m[j]
    {
      AreaMemory(m, gdt, u, i, j);
    }
    hide SetThreadArea;
  }

  /**
   * The descriptor that a call leaves, from the user_desc in memory: the bytes of the base and the two low bytes of
   * the limit are copied, and the slot is marked used.
   */
  lemma DescriptorBytes(m: Mem, gdt: nat, u: nat, i: nat)
    requires AreaFits(m, gdt, u) && Apart(gdt, u) && i < GDT_ENTRIES
    requires ChosenSlot(m, gdt, u) == Some(i)
    ensures var m', d := SetThreadArea(m, gdt, u).mem, gdt + 10 * i;
            && m'[d] == m[u + 8] && m'[d + 1] == m[u + 9]
            && m'[d + 2] == m[u + 4] && m'[d + 3] == m[u + 5] && m'[d + 4] == m[u + 6] && m'[d + 7] == m[u + 7]
            && m'[d + 8] == 1
  {
    EncodedBytes(m, gdt, u, i);
    SegmentBaseWord(m, u);
    LimitBytes(m, u);
    BytesOfGet(m, u + 4);
    hide SetThreadArea, ReadSegment, Get32, Access, Granularity, Bytes32, AreaFits, ChosenSlot, Apart;
    var b := Bytes32(ReadSegment(m, u).base);
    assert b == m[u + 4..u + 8];
  }

  /**
   * Its attributes, from the bits of byte 12 of the user_desc: privilege level 3, the type that contents and
   * read_exec_only ask for, presence, and beside the limit's next four bits the size, unit and available bits.
   */
  lemma DescriptorBits(m: Mem, gdt: nat, u: nat, i: nat)
    requires AreaFits(m, gdt, u) && Apart(gdt, u) && i < GDT_ENTRIES
    requires ChosenSlot(m, gdt, u) == Some(i)
    ensures var m', d := SetThreadArea(m, gdt, u).mem, gdt + 10 * i; var b := m[u + 12];
            var access: nat, gran: nat := m'[d + 5], m'[d + 6];
            && access / 0x80 == 1 - Bit(b, 5) && access / 0x20 % 4 == 3 && access / 0x10 % 2 == 1
            && access / 8 % 2 == (if Bit(b, 1) == 0 then Bit(b, 2) else 0)
            && access / 2 % 2 == (if Bit(b, 1) == 0 then 1 - Bit(b, 3) else 0) && access / 4 % 2 == 0 && access % 2 == 0
            && gran % 0x10 == m[u + 10] % 0x10 && gran / 0x10 % 2 == Bit(b, 6) && gran / 0x20 % 2 == 0
            && gran / 0x40 % 2 == Bit(b, 0) && gran / 0x80 == Bit(b, 4)
  {
    EncodedBytes(m, gdt, u, i);
    AttributeBits(m, u);
    hide SetThreadArea, ReadSegment, Get32, Access, Granularity, Bytes32, AreaFits, ChosenSlot, Bit, Apart;
  }

  lemma AttributeBits(m: Mem, u: nat)
    requires u + 16 <= MEM_SIZE
    ensures var b := m[u + 12];
            var access: nat, gran: nat := Access(ReadSegment(m, u)), Granularity(ReadSegment(m, u));
            && access / 0x80 == 1 - Bit(b, 5) && access / 0x20 % 4 == 3 && access / 0x10 % 2 == 1
            && access / 8 % 2 == (if Bit(b, 1) == 0 then Bit(b, 2) else 0)
            && access / 2 % 2 == (if Bit(b, 1) == 0 then 1 - Bit(b, 3) else 0) && access / 4 % 2 == 0 && access % 2 == 0
            && gran % 0x10 == m[u + 10] % 0x10 && gran / 0x10 % 2 == Bit(b, 6) && gran / 0x20 % 2 == 0
            && gran / 0x40 % 2 == Bit(b, 0) && gran / 0x80 == Bit(b, 4)
  {
    var s := ReadSegment(m, u);
    AccessByte(s);
    GranularityByte(s);
    SegmentBits(m, u);
    SegmentBaseWord(m, u);
    LimitBytes(m, u);
    hide ReadSegment, Get32, Access, Granularity, Bit;
  }

  lemma EncodedBytes(m: Mem, gdt: nat, u: nat, i: nat)
    requires AreaFits(m, gdt, u) && Apart(gdt, u) && i < GDT_ENTRIES
    requires ChosenSlot(m, gdt, u) == Some(i)
    ensures var m', d, s := SetThreadArea(m, gdt, u).mem, gdt + 10 * i, ReadSegment(m, u); var b := Bytes32(s.base);
            && m'[d] == s.limit % 0x100 && m'[d + 1] == s.limit / 0x100 % 0x100
            && m'[d + 2] == b[0] && m'[d + 3] == b[1] && m'[d + 4] == b[2] && m'[d + 7] == b[3]
            && m'[d + 5] == Access(s) && m'[d + 6] == Granularity(s) && m'[d + 8] == 1
  {
    hide SetThreadArea, ReadSegment, Get32, Access, Granularity, Bytes32, ChosenSlot;
    AreaWrites(m, gdt, u, i);
    var m', d, bs := SetThreadArea(m, gdt, u).mem, gdt + 10 * i, Encode(ReadSegment(m, u));
    forall k | 0 <= k < 9 ensures m'[d + k] == bs[k] {
      assert m'[d..d + 9][k] == bs[k];
    }
  }

  lemma LimitBytes(m: Mem, u: nat)
    requires u + 16 <= MEM_SIZE
    ensures var l := Get32(m, u + 8);
            l % 0x100 == m[u + 8] && l / 0x100 % 0x100 == m[u + 9] && l / 0x1_0000 % 0x10 == m[u + 10] % 0x10
  {
    hide Get32, Bytes32;
    BytesOfGet(m, u + 8);
    var l := Get32(m, u + 8);
    LowThreeBytes(l);
    var b := Bytes32(l);
    assert b == m[u + 8..u + 12];
  }

  lemma LowThreeBytes(l: Word)
    ensures var b := Bytes32(l);
            l % 0x100 == b[0] && l / 0x100 % 0x100 == b[1] && l / 0x1_0000 % 0x10 == b[2] % 0x10
  {
    var h: nat := l / 0x1_0000;
    assert h % 0x100 % 0x10 == h % 0x10;
  }

  /** The bit-fields of the user_desc are bits of its byte 12. */
  lemma SegmentBits(m: Mem, u: nat)
    requires u + 16 <= MEM_SIZE
    ensures var s, b := ReadSegment(m, u), m[u + 12];
            && s.seg32 == (Bit(b, 0) == 1) && s.contents == Bit(b, 1) + 2 * Bit(b, 2)
            && s.readExecOnly == (Bit(b, 3) == 1)
            && s.limitInPages == (Bit(b, 4) == 1) && s.notPresent == (Bit(b, 5) == 1) && s.useable == (Bit(b, 6) == 1)
  {
    hide Get32, Bit;
    LowBits(m[u + 12]);
    TwoBits(m[u + 12]);
  }

  lemma TwoBits(b: nat)
    ensures b / 2 % 4 == b / 2 % 2 + 2 * (b / 4 % 2)
  {
    var q, t, u := b / 2, b / 2 / 2, b / 2 / 2 / 2;
    DivModUnique(b, 4, t, 2 * (q % 2) + b % 2);
    DivModUnique(q, 4, u, 2 * (t % 2) + q % 2);
  }

  /** So that slot holds the new base and is in use, and every other descriptor is the same. */
  lemma AreaSlots(m: Mem, gdt: nat, u: nat, i: nat)
    requires AreaFits(m, gdt, u) && Apart(gdt, u) && i < GDT_ENTRIES
    requires ChosenSlot(m, gdt, u) == Some(i)
    ensures var out := SetThreadArea(m, gdt, u);
            && SlotBase(out.mem, gdt, i) == Get32(m, u + 4) && Used(out.mem, gdt, i)
            && (forall n | 0 <= n < GDT_ENTRIES && n != i :: SameSlot(m, out.mem, gdt, n))
  {
    hide ReadSegment, Get32, SetThreadArea;
    AreaWrites(m, gdt, u, i);
    var out := SetThreadArea(m, gdt, u);
    var d := gdt + i * DESCRIPTOR_SIZE;
    var bs := Encode(ReadSegment(m, u));
    BaseRoundTrip(ReadSegment(m, u));
    SegmentBaseWord(m, u);
    assert bs[8] == 1;
    hide Encode;
    assert forall k | 0 <= k < 9 :: out.mem[d..d + 9][k] == bs[k];
  }

  /** With k slots taken, a call with entry number -1 takes slot 6 + k, or fails and changes nothing if k is 3. */
  lemma AreaAllocates(m: Mem, gdt: nat, u: nat, k: nat)
    requires TableFits(gdt) && u + 16 <= MEM_SIZE && Apart(gdt, u)
    requires Get32(m, u) == MINUS_ONE && Taken(m, gdt, k)
    ensures AreaFits(m, gdt, u)
    ensures var out := SetThreadArea(m, gdt, u);
            if k < 3 then
              && ChosenSlot(m, gdt, u) == Some(FIRST_TLS + k) && out.ret == 0
              && Taken(out.mem, gdt, k + 1) && Get32(out.mem, u) == FIRST_TLS + k
              && SlotBase(out.mem, gdt, FIRST_TLS + k) == Get32(m, u + 4)
              && (forall n | 0 <= n < GDT_ENTRIES && n != FIRST_TLS + k :: SameSlot(m, out.mem, gdt, n))
            else
              out.ret == MINUS_ONE && out.mem == m
  {
    hide ReadSegment, Get32, Encode, SlotBase;
    if k < 3 {
      var i := FIRST_TLS + k;
      AreaWrites(m, gdt, u, i);
      AreaSlots(m, gdt, u, i);
      hide SetThreadArea;
      var out := SetThreadArea(m, gdt, u);
      forall n | FIRST_TLS <= n < GDT_ENTRIES && n != i ensures Used(out.mem, gdt, n) == Used(m, gdt, n) {
        SameSlotFacts(m, out.mem, gdt, n);
      }
    }
  }

  /** A request: memory as the guest has prepared it, and the address of its user_desc. */
  datatype Request = Request(before: Mem, u: nat)

  /** Each request asks for any slot, keeps its user_desc apart from the table, and finds the table as it was left. */
  ghost predicate ProperRequests(m: Mem, gdt: nat, reqs: seq<Request>)
    requires TableFits(gdt)
    decreases |reqs|
  {
    reqs == [] ||
    var q := reqs[0];
    && SameTable(m, q.before, gdt) && q.u + 16 <= MEM_SIZE && Apart(gdt, q.u)
    && Get32(q.before, q.u) == MINUS_ONE && AreaFits(q.before, gdt, q.u)
    && ProperRequests(SetThreadArea(q.before, gdt, q.u).mem, gdt, reqs[1..])
  }

  datatype Served = Served(mem: Mem, rets: seq<Word>)

  ghost function Serve(m: Mem, gdt: nat, reqs: seq<Request>): (r: Served)
    requires TableFits(gdt) && ProperRequests(m, gdt, reqs)
    ensures |r.rets| == |reqs|
    decreases |reqs|
  {
    if reqs == [] then Served(m, [])
    else
      var out := SetThreadArea(reqs[0].before, gdt, reqs[0].u);
      var rest := Serve(out.mem, gdt, reqs[1..]);
      Served(rest.mem, [out.ret] + rest.rets)
  }

  /** The base of slot n after the requests, when k slots were taken before them. */
  ghost function FinalBase(m: Mem, gdt: nat, reqs: seq<Request>, k: nat, n: nat): Word
    requires TableFits(gdt) && n < GDT_ENTRIES && forall q | q in reqs :: q.u + 16 <= MEM_SIZE
  {
    var i := n - FIRST_TLS - k;
    if 0 <= i < |reqs| then Get32(reqs[i].before, reqs[i].u + 4) else SlotBase(m, gdt, n)
  }

  lemma TakenFrame(m: Mem, m': Mem, gdt: nat, k: nat)
    requires TableFits(gdt) && Taken(m, gdt, k) && SameTable(m, m', gdt)
    ensures Taken(m', gdt, k)
  {
    hide Used;
    forall n | FIRST_TLS <= n < GDT_ENTRIES ensures Used(m', gdt, n) == Used(m, gdt, n) {
      SameSlotFacts(m, m', gdt, n);
    }
  }

  lemma ProperInRange(m: Mem, gdt: nat, reqs: seq<Request>)
    requires TableFits(gdt) && ProperRequests(m, gdt, reqs)
    ensures forall q | q in reqs :: q.u + 16 <= MEM_SIZE
    decreases |reqs|
  {
    hide SetThreadArea, AreaFits, SameTable;
    if reqs != [] {
      ProperInRange(SetThreadArea(reqs[0].before, gdt, reqs[0].u).mem, gdt, reqs[1..]);
      assert reqs == [reqs[0]] + reqs[1..];
    }
  }

  /** After one call: the bases of the slots, as the remaining requests find them. */
  lemma BasesAfterCall(m: Mem, gdt: nat, q: Request, k: nat, n: nat)
    requires TableFits(gdt) && SameTable(m, q.before, gdt) && q.u + 16 <= MEM_SIZE && Apart(gdt, q.u)
    requires Get32(q.before, q.u) == MINUS_ONE && Taken(m, gdt, k) && n < GDT_ENTRIES
    ensures AreaFits(q.before, gdt, q.u)
    ensures SlotBase(SetThreadArea(q.before, gdt, q.u).mem, gdt, n) ==
            if n == FIRST_TLS + k then Get32(q.before, q.u + 4) else SlotBase(m, gdt, n)
  {
    hide ReadSegment;
    TakenFrame(m, q.before, gdt, k);
    AreaAllocates(q.before, gdt, q.u, k);
    hide SetThreadArea, AreaFits, Taken, SlotBase;
    assert SameSlot(m, q.before, gdt, n);
    SameSlotFacts(m, q.before, gdt, n);
    if k < 3 && n != FIRST_TLS + k {
      SameSlotFacts(q.before, SetThreadArea(q.before, gdt, q.u).mem, gdt, n);
    }
  }

  /** The calls succeed while slots are free, and fail from then on. */
  ghost predicate InOrder(rets: seq<Word>, k: nat) {
    forall i | 0 <= i < |rets| :: rets[i] == if k + i < 3 then 0 else MINUS_ONE
  }

  lemma InOrderCons(ret: Word, rets: seq<Word>, k: nat)
    requires k <= 3 && ret == if k < 3 then 0 else MINUS_ONE
    requires InOrder(rets, if k < 3 then k + 1 else k)
    ensures InOrder([ret] + rets, k)
  {
    var all := [ret] + rets;
    forall i | 0 <= i < |all| ensures all[i] == if k + i < 3 then 0 else MINUS_ONE {
      if i > 0 {
        assert all[i] == rets[i - 1];
      }
    }
  }

  /**
   * Over any run of set_thread_area calls with entry number -1: they take the free TLS slots in order and then
   * fail, and every slot ends with the base of the request that took it, or with the base it had.
   */
  lemma {:induction false} ThreadAreaRun(m: Mem, gdt: nat, reqs: seq<Request>, k: nat)
    requires TableFits(gdt) && Taken(m, gdt, k) && ProperRequests(m, gdt, reqs)
    ensures forall q | q in reqs :: q.u + 16 <= MEM_SIZE
    ensures var out := Serve(m, gdt, reqs);
            && InOrder(out.rets, k)
            && (forall n | 0 <= n < GDT_ENTRIES :: SlotBase(out.mem, gdt, n) == FinalBase(m, gdt, reqs, k, n))
    decreases |reqs|
  {
    hide SlotBase, SetThreadArea, AreaFits, Taken, ReadSegment, SameTable, Apart;
    ProperInRange(m, gdt, reqs);
    if reqs != [] {
      var q, rest := reqs[0], reqs[1..];
      var k' := if k < 3 then k + 1 else k;
      TakenFrame(m, q.before, gdt, k);
      AreaAllocates(q.before, gdt, q.u, k);
      assert k <= 3 by { TakenBound(m, gdt, k); }
      var out := SetThreadArea(q.before, gdt, q.u);
      ThreadAreaRun(out.mem, gdt, rest, k');
      InOrderCons(out.ret, Serve(out.mem, gdt, rest).rets, k);
      forall n | 0 <= n < GDT_ENTRIES ensures FinalBase(out.mem, gdt, rest, k', n) == FinalBase(m, gdt, reqs, k, n) {
        BasesAfterCall(m, gdt, q, k, n);
      }
    }
  }

  lemma TakenBound(m: Mem, gdt: nat, k: nat)
    requires TableFits(gdt) && Taken(m, gdt, k)
    ensures k <= 3
  {
  }

  /** A selector names its slot, modulo the nine of the table, whatever its privilege and table-indicator bits. */
  lemma SelectorNamesSlot(m: Mem, gdt: nat, n: nat, low: nat)
    requires TableFits(gdt) && n < 0x2000 && low < 8
    ensures GetGdtBase(m, gdt, 8 * n + low) == SlotBase(m, gdt, n % GDT_ENTRIES)
  {
    hide SlotBase;
    assert (8 * n + low) / 8 == n;
  }

  /**
   * After a set_thread_area call that found k slots taken, an operand through FS or GS holding a selector of entry
   * 6 + k addresses the base that the user_desc named plus the displacement.
   */
  lemma ThreadPointer(m: Mem, gdt: Word, u: nat, k: nat, s: State, seg: Seg, low: nat, disp: Word)
    requires TableFits(gdt) && u + 16 <= MEM_SIZE && Apart(gdt, u) && k < 3 && Taken(m, gdt, k)
    requires Get32(m, u) == MINUS_ONE && AreaFits(m, gdt, u) && s.mem == SetThreadArea(m, gdt, u).mem && s.gdtr == gdt
    requires low < 8 && (seg == FS || seg == GS)
    requires (if seg == FS then s.segs.fs else s.segs.gs) == 8 * Get32(s.mem, u) + low
    ensures EffAddr(s, MemRef(None, None, 1, disp, Some(seg))) == Wrap(Get32(m, u + 4) + disp)
  {
    hide SetThreadArea, AreaFits, SlotBase, Get32, Taken, SegmentBase, SameSlot, Apart, ReadSegment, EffAddr;
    AreaAllocates(m, gdt, u, k);
    SegmentNamed(s, seg, FIRST_TLS + k, low);
    SegmentDisplaced(s, seg, disp);
  }

  // ---------------------------------------------------------------- the initial table

  lemma {:induction false} InitTableAt(m: Mem, gdt: nat, k: nat, i: nat, o: nat)
    requires TableFits(gdt) && i < k <= GDT_ENTRIES && o < |InitialDescriptor(i)|
    ensures InitTable(m, gdt, k)[gdt + i * DESCRIPTOR_SIZE + o] == InitialDescriptor(i)[o]
    decreases k
  {
    hide InitialDescriptor;
    if i < k - 1 {
      InitTableAt(m, gdt, k - 1, i, o);
    }
  }

  lemma {:induction false} InitTableFrame(m: Mem, gdt: nat, k: nat, j: nat)
    requires TableFits(gdt) && k <= GDT_ENTRIES && j < MEM_SIZE
    requires j < gdt || gdt + k * DESCRIPTOR_SIZE <= j
    ensures InitTable(m, gdt, k)[j] == m[j]
    decreases k
  {
    hide InitialDescriptor;
    if k > 0 {
      InitTableFrame(m, gdt, k - 1, j);
    }
  }

  /** Limit, access and granularity of descriptor n, where section 5.1.1 places them. */
  ghost predicate HasFields(m: Mem, gdt: nat, n: nat, limit: nat, access: nat, gran: nat)
    requires TableFits(gdt) && n < GDT_ENTRIES
  {
    var d := gdt + 10 * n;
    var b0: nat, b1: nat, b6: nat := m[d], m[d + 1], m[d + 6];
    b0 + 0x100 * b1 + 0x1_0000 * (b6 % 0x10) == limit && m[d + 5] == access && b6 / 0x10 == gran
  }

  /**
   * The table that init_gdt leaves: a null descriptor; code (0x9A) and data (0x92) at privilege level 0; code (0xFA)
   * and data (0xF2) at level 3; all four with 2^20 pages of 4 KB and 32-bit; and a 16-bit limit with access 0x89 in
   * entry 3 and in the TLS entries.
   */
  lemma InitialSegments(m: Mem, gdt: nat)
    requires TableFits(gdt)
    ensures var m' := InitTable(m, gdt, GDT_ENTRIES);
            && HasFields(m', gdt, 0, 0, 0, 0)
            && HasFields(m', gdt, 1, 0xF_FFFF, 0x9A, 0xC) && HasFields(m', gdt, 2, 0xF_FFFF, 0x92, 0xC)
            && HasFields(m', gdt, 4, 0xF_FFFF, 0xFA, 0xC) && HasFields(m', gdt, 5, 0xF_FFFF, 0xF2, 0xC)
            && forall n | n in {3, 6, 7, 8} :: HasFields(m', gdt, n, 0xFFFF, 0x89, 0)
  {
    hide InitTable, HasFields;
    InitialFields(m, gdt, 0, 0, 0, 0, 0, 0);
    InitialFields(m, gdt, 1, 0xFF, 0xFF, 0x9A, 0xF, 0xC);
    InitialFields(m, gdt, 2, 0xFF, 0xFF, 0x92, 0xF, 0xC);
    InitialFields(m, gdt, 4, 0xFF, 0xFF, 0xFA, 0xF, 0xC);
    InitialFields(m, gdt, 5, 0xFF, 0xFF, 0xF2, 0xF, 0xC);
    forall n | n in {3, 6, 7, 8} ensures HasFields(InitTable(m, gdt, GDT_ENTRIES), gdt, n, 0xFFFF, 0x89, 0) {
      InitialFields(m, gdt, n, 0xFF, 0xFF, 0x89, 0, 0);
    }
  }

  lemma InitialFields(m: Mem, gdt: nat, n: nat, l0: nat, l1: nat, access: nat, l2: nat, gran: nat)
    requires TableFits(gdt) && n < GDT_ENTRIES && l2 < 0x10
    requires var bs := InitialDescriptor(n); bs[0] == l0 && bs[1] == l1 && bs[5] == access && bs[6] == 0x10 * gran + l2
    ensures HasFields(InitTable(m, gdt, GDT_ENTRIES), gdt, n, l0 + 0x100 * l1 + 0x1_0000 * l2, access, gran)
  {
    hide InitTable, InitialDescriptor;
    InitTableAt(m, gdt, GDT_ENTRIES, n, 0);
    InitTableAt(m, gdt, GDT_ENTRIES, n, 1);
    InitTableAt(m, gdt, GDT_ENTRIES, n, 5);
    InitTableAt(m, gdt, GDT_ENTRIES, n, 6);
  }

  /** init_gdt makes a flat table with all three TLS slots free and touches nothing else. */
  lemma InitialTableIsFlat(m: Mem, gdt: nat)
    requires TableFits(gdt)
    ensures var m' := InitTable(m, gdt, GDT_ENTRIES);
            && Taken(m', gdt, 0)
            && (forall n | 0 <= n < GDT_ENTRIES :: SlotBase(m', gdt, n) == 0)
            && (forall j | 0 <= j < MEM_SIZE && !(gdt <= j < gdt + GDT_ENTRIES * DESCRIPTOR_SIZE) :: m'[j] == m[j])
  {
    hide InitTable;
    var m' := InitTable(m, gdt, GDT_ENTRIES);
    forall n | 0 <= n < GDT_ENTRIES ensures SlotBase(m', gdt, n) == 0 {
      InitTableAt(m, gdt, GDT_ENTRIES, n, 2);
      InitTableAt(m, gdt, GDT_ENTRIES, n, 3);
      InitTableAt(m, gdt, GDT_ENTRIES, n, 4);
      InitTableAt(m, gdt, GDT_ENTRIES, n, 7);
    }
    forall n | FIRST_TLS <= n < GDT_ENTRIES ensures !Used(m', gdt, n) {
      InitTableAt(m, gdt, GDT_ENTRIES, n, 8);
    }
    forall j | 0 <= j < MEM_SIZE && !(gdt <= j < gdt + GDT_ENTRIES * DESCRIPTOR_SIZE) ensures m'[j] == m[j] {
      InitTableFrame(m, gdt, GDT_ENTRIES, j);
    }
  }
}
