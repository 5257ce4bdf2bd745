/** Machine integers, and the flat guest memory as a value. */
module Words {
  import Bits

  const BASE: int := 0x1_0000_0000  // 2^32

  /** `calloc(sizeof(uint8_t), UINT32_MAX)`: one byte short of 4 GB. */
  const MEM_SIZE: int := 0xFFFF_FFFF

  type Byte = x: int | 0 <= x < 0x100
  type Half = x: int | 0 <= x < 0x1_0000
  type Word = x: int | 0 <= x < BASE
  type Mem = m: seq<Byte> | |m| == MEM_SIZE ghost witness seq(MEM_SIZE, _ => 0)

  /** uint32_t arithmetic wraps around. */
  function Wrap(x: int): (w: Word) {
    x % BASE
  }

  /** The value of x read as int32_t. */
  function Signed(x: Word): int {
    if x < 0x8000_0000 then x else x - BASE
  }

  /** m with the bytes bs stored from address a on (memcpy and every pointer store). */
  function Blit(m: Mem, a: nat, bs: seq<Byte>): (r: Mem)
    requires a + |bs| <= MEM_SIZE
    ensures forall j :: 0 <= j < MEM_SIZE ==> r[j] == if a <= j < a + |bs| then bs[j - a] else m[j]
  {
    m[..a] + bs + m[a + |bs|..]
  }

  /** Little-endian bytes of a word. */
  function Bytes16(v: Half): (bs: seq<Byte>)
    ensures |bs| == 2
  {
    [v % 0x100, v / 0x100]
  }

  function Bytes32(v: Word): (bs: seq<Byte>)
    ensures |bs| == 4
  {
    [v % 0x100, v / 0x100 % 0x100, v / 0x1_0000 % 0x100, v / 0x100_0000]
  }

  /** The number whose little-endian bytes are given. */
  function Join(b0: int, b1: int, b2: int, b3: int): int {
    b0 + 0x100 * b1 + 0x1_0000 * b2 + 0x100_0000 * b3
  }

  function Get16(m: Mem, a: nat): Half
    requires a + 2 <= MEM_SIZE
  {
    Join(m[a], m[a + 1], 0, 0)
  }

  function Get32(m: Mem, a: nat): Word
    requires a + 4 <= MEM_SIZE
  {
    Join(m[a], m[a + 1], m[a + 2], m[a + 3])
  }

  function Put16(m: Mem, a: nat, v: Half): Mem
    requires a + 2 <= MEM_SIZE
  {
    Blit(m, a, Bytes16(v))
  }

  function Put32(m: Mem, a: nat, v: Word): Mem
    requires a + 4 <= MEM_SIZE
  {
    Blit(m, a, Bytes32(v))
  }

  /** Memory differs at most in [lo, hi). */
  ghost predicate SameOutside(m: Mem, m': Mem, lo: int, hi: int) {
    forall j :: 0 <= j < MEM_SIZE && !(lo <= j < hi) ==> m'[j] == m[j]
  }

  /** The number in the n bytes from address a on, lowest byte first. */
  ghost function LittleEndian(m: Mem, a: nat, n: nat): nat
    requires a + n <= MEM_SIZE
    decreases n
  {
    if n == 0 then 0 else m[a] + 0x100 * LittleEndian(m, a + 1, n - 1)
  }

  lemma JoinBytes(v: Word)
    ensures var bs := Bytes32(v); Join(bs[0], bs[1], bs[2], bs[3]) == v
  {
    var h := v / 0x1_0000;
    assert v / 0x100 / 0x100 == h;
    assert h / 0x100 == v / 0x100_0000;
  }

  /** What write32 stores, read32 finds. */
  lemma ReadBack(m: Mem, a: nat, v: Word)
    requires a + 4 <= MEM_SIZE
    ensures Get32(Put32(m, a, v), a) == v
  {
    JoinBytes(v);
  }

  /** Equal bytes give equal dwords. */
  lemma SameWord(m: Mem, m': Mem, a: nat)
    requires a + 4 <= MEM_SIZE
    requires forall j :: a <= j < a + 4 ==> m'[j] == m[j]
    ensures Get32(m', a) == Get32(m, a)
  {
  }

  /** write32 leaves every disjoint dword alone. */
  lemma ReadOther(m: Mem, a: nat, v: Word, b: nat)
    requires a + 4 <= MEM_SIZE && b + 4 <= MEM_SIZE
    requires b + 4 <= a || a + 4 <= b
    ensures Get32(Put32(m, a, v), b) == Get32(m, b)
  {
    SameWord(m, Put32(m, a, v), b);
  }

  lemma BytesOfJoin(b0: Byte, b1: Byte, b2: Byte, b3: Byte)
    ensures 0 <= Join(b0, b1, b2, b3) < BASE && Bytes32(Join(b0, b1, b2, b3)) == [b0, b1, b2, b3]
  {
    var v, t, u := Join(b0, b1, b2, b3), Join(b1, b2, b3, 0), Join(b2, b3, 0, 0);
    Bits.DivModUnique(v, 0x100, t, b0);
    Bits.DivModUnique(t, 0x100, u, b1);
    Bits.DivModUnique(u, 0x100, b3, b2);
    Bits.DivModUnique(v, 0x1_0000, u, Join(b0, b1, 0, 0));
    Bits.DivModUnique(v, 0x100_0000, b3, Join(b0, b1, b2, 0));
  }

  /** The bytes of a dword read from memory are the bytes there. */
  lemma BytesOfGet(m: Mem, a: nat)
    requires a + 4 <= MEM_SIZE
    ensures Bytes32(Get32(m, a)) == m[a..a + 4]
  {
    hide Join;
    BytesOfJoin(m[a], m[a + 1], m[a + 2], m[a + 3]);
    hide Bytes32;
  }

  lemma BytesOfGet16(m: Mem, a: nat)
    requires a + 2 <= MEM_SIZE
    ensures Bytes16(Get16(m, a)) == m[a..a + 2]
  {
    Bits.DivModUnique(Get16(m, a), 0x100, m[a + 1], m[a]);
  }
}
