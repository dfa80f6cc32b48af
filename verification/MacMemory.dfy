/** Fixed-width machine words and the Mac's byte-addressed, big-endian memory. */
module MacMemory {

  const TWO16: int := 0x1_0000
  const TWO31: int := 0x8000_0000
  const TWO32: int := 0x1_0000_0000

  type byte = x: int | 0 <= x < 256
  type uint16 = x: int | 0 <= x < 0x1_0000
  type uint32 = x: int | 0 <= x < 0x1_0000_0000
  type int32 = x: int | -0x8000_0000 <= x < 0x8000_0000

  /** Truncation to 32 bits: what every assignment to a uint32 does. */
  function Wrap(x: int): uint32 {
    x % TWO32
  }

  /** Conversion to a signed 32-bit value: what every assignment to an int32 does. */
  function ToInt32(x: int): int32 {
    var low := x % TWO32;
    if low < TWO31 then low else low - TWO32
  }

  lemma WrapSmall(x: uint32)
    ensures Wrap(x) == x
  {
  }

  lemma WrapAdd(a: int, b: int)
    ensures Wrap(Wrap(a) + b) == Wrap(a + b)
  {
  }

  /** Memory as a byte map; a byte that was never written reads as zero.
      Host pointers are represented by their offset from the host base, so comparing
      two offsets is comparing the two pointers. */
  type Memory = map<int, byte>

  function Peek(m: Memory, a: int): byte {
    if a in m then m[a] else 0
  }

  function Read16(m: Memory, a: int): uint16 {
    Peek(m, a) * 256 + Peek(m, a + 1)
  }

  function Read32(m: Memory, a: int): uint32 {
    Peek(m, a) * 0x100_0000 + Peek(m, a + 1) * 0x1_0000 + Peek(m, a + 2) * 0x100 + Peek(m, a + 3)
  }

  function Write16(m: Memory, a: int, v: uint16): Memory {
    m[a := v / 256][a + 1 := v % 256]
  }

  function Write32(m: Memory, a: int, v: uint32): Memory {
    m[a := v / 0x100_0000][a + 1 := v / 0x1_0000 % 256][a + 2 := v / 0x100 % 256][a + 3 := v % 256]
  }

  /** A long word reads back as written, its high half first, and nothing outside its four bytes
      changes. */
  lemma Write32Effect(m: Memory, a: int, v: uint32)
    ensures Read32(Write32(m, a, v), a) == v
    ensures Read16(Write32(m, a, v), a) == v / 0x1_0000
    ensures forall x :: !(a <= x < a + 4) ==> Peek(Write32(m, a, v), x) == Peek(m, x)
  {
    FourBytes(v);
  }

  /** The bytes of a long word are those of its halves, and make it up. */
  lemma FourBytes(v: uint32)
    ensures v / 0x100_0000 == v / 0x1_0000 / 256
    ensures v / 0x100 % 256 == v % 0x1_0000 / 256 && v % 256 == v % 0x1_0000 % 256
    ensures v / 0x100_0000 * 0x100_0000 + v / 0x1_0000 % 256 * 0x1_0000 + v / 0x100 % 256 * 0x100 + v % 256 == v
  {
    var hi, lo := v / 0x1_0000, v % 0x1_0000;
    assert v == hi * 0x1_0000 + lo;
    assert v / 0x100_0000 == hi / 256;
    assert hi == hi / 256 * 256 + hi % 256;
    assert lo == lo / 256 * 256 + lo % 256;
    assert v / 0x100 == hi * 256 + lo / 256;
    LowByte(hi, lo / 256);
    LowByte(v / 0x100, lo % 256);
  }

  lemma LowByte(x: nat, y: nat)
    requires y < 256
    ensures (x * 256 + y) % 256 == y
  {
  }

  /** The bytes at `len` consecutive addresses. */
  function Peeks(m: Memory, a: int, len: nat): (s: seq<byte>)
    ensures |s| == len
  {
    seq<byte>(len, i => Peek(m, a + i))
  }

  /** Memory after a copy of `data` to address `a`. */
  function Pokes(m: Memory, a: int, data: seq<byte>): (r: Memory)
    ensures forall x :: Peek(r, x) == if a <= x < a + |data| then data[x - a] else Peek(m, x)
    decreases |data|
  {
    if data == [] then m else Pokes(m[a := data[0]], a + 1, data[1..])
  }

  /** The Mac's RAM, shared by the SCSI Manager and its back end. */
  class MacRam {
    var bytes: Memory
    constructor (initial: Memory)
      ensures bytes == initial
    {
      bytes := initial;
    }
  }
}
