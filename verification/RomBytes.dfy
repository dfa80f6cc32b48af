/** Bytes of a declaration ROM: big-endian fields, lists of entries with self-relative 24-bit
    offsets, and a reader in the manner of the Slot Manager (Inside Macintosh: Devices, chapter 2). */
module RomBytes {
  import opened Options
  import opened MacMemory

  const TWO24: int := 0x100_0000
  const END_OF_LIST: byte := 0xff

  type Bytes = seq<byte>

  function Low16(x: int): uint16 { x % TWO16 }
  function Low24(x: int): int { x % TWO24 }

  // ------------------------------------------------------------- fields

  function WordBytes(v: uint16): (r: Bytes)
    ensures |r| == 2
  {
    [v / 256, v % 256]
  }

  function LongBytes(v: uint32): (r: Bytes)
    ensures |r| == 4
  {
    [v / 0x100_0000, v / 0x1_0000 % 256, v / 0x100 % 256, v % 256]
  }

  /** The first byte is the most significant one, of words and of long words. */
  lemma HighByteFirst(w: uint16, v: uint32)
    ensures w - 256 < WordBytes(w)[0] * 256 <= w
    ensures LongBytes(v) == WordBytes(v / 0x1_0000) + WordBytes(v % 0x1_0000)
  {
    FourBytes(v);
  }

  function Get16(s: Bytes, at: int): uint16
    requires 0 <= at && at + 2 <= |s|
  {
    s[at] as int * 256 + s[at + 1]
  }

  function Get24(s: Bytes, at: int): (r: nat)
    requires 0 <= at && at + 3 <= |s|
    ensures r < TWO24
  {
    s[at] as int * 0x1_0000 + s[at + 1] as int * 0x100 + s[at + 2]
  }

  function Get32(s: Bytes, at: int): uint32
    requires 0 <= at && at + 4 <= |s|
  {
    s[at] as int * 0x100_0000 + s[at + 1] as int * 0x1_0000 + s[at + 2] as int * 0x100 + s[at + 3]
  }

  /** s[at..at+|b|] is b. */
  predicate At(s: Bytes, at: int, b: Bytes) {
    0 <= at && at + |b| <= |s| && forall i :: 0 <= i < |b| ==> s[at + i] == b[i]
  }

  lemma WordReadsBack(s: Bytes, at: int, v: uint16)
    requires At(s, at, WordBytes(v))
    ensures Get16(s, at) == v
  {
    assert s[at + 0] == WordBytes(v)[0] && s[at + 1] == WordBytes(v)[1];
  }

  lemma LongReadsBack(s: Bytes, at: int, v: uint32)
    requires At(s, at, LongBytes(v))
    ensures Get32(s, at) == v
  {
    var b := LongBytes(v);
    assert s[at + 0] == b[0] && s[at + 1] == b[1] && s[at + 2] == b[2] && s[at + 3] == b[3];
    FourBytes(v);
  }

  // ------------------------------------------------------------- entries

  /** One list entry: an offset to another place in the ROM, or 24 bits of data. */
  datatype Entry = Off(id: byte, target: int) | Data(id: byte, value: nat)

  function EntryLow(e: Entry, at: int): (r: int)
    ensures 0 <= r < TWO24
  {
    match e
    case Off(_, target) => Low24(target - at)
    case Data(_, value) => Low24(value)
  }

  /** The four bytes of an entry placed at `at`. */
  function EntryBytes(e: Entry, at: int): (r: Bytes)
    ensures |r| == 4
  {
    var low := EntryLow(e, at);
    [e.id, low / 0x1_0000, low / 0x100 % 256, low % 256]
  }

  const END_BYTES: Bytes := [END_OF_LIST, 0, 0, 0]

  /** The list of entries starts at `at` and is properly ended. */
  predicate ListAt(s: Bytes, at: int, es: seq<Entry>) {
    && 0 <= at && at + 4 * |es| + 4 <= |s|
    && (forall k :: 0 <= k < |es| ==> EntryAt(s, at + 4 * k, es[k]))
    && s[at + 4 * |es|] == END_OF_LIST
  }

  predicate EntryAt(s: Bytes, at: int, e: Entry) {
    At(s, at, EntryBytes(e, at))
  }

  // ------------------------------------------------------------- reader

  function Signed24(x: int): int {
    if x < TWO24 / 2 then x else x - TWO24
  }

  /** Where the offset entry at `at` leads. */
  function Target(s: Bytes, at: int): int
    requires 0 <= at && at + 4 <= |s|
  {
    at + Signed24(Get24(s, at + 1))
  }

  /** The first entry with the given ID in the list at `at`. */
  function FindEntry(s: Bytes, at: int, id: byte): (r: Option<int>)
    ensures r.Some? ==> at <= r.value && 0 <= r.value && r.value + 4 <= |s|
    decreases |s| - at
  {
    if at < 0 || at + 4 > |s| || s[at] == END_OF_LIST then None
    else if s[at] == id then Some(at)
    else FindEntry(s, at + 4, id)
  }

  /** The place the entry with the given ID leads to. */
  function Follow(s: Bytes, list: Option<int>, id: byte): Option<int> {
    match list
    case None => None
    case Some(at) =>
      match FindEntry(s, at, id)
      case None => None
      case Some(e) => Some(Target(s, e))
  }

  /** Offsets up to 8 MB in either direction are decoded as they were meant. */
  lemma OffsetReadsBack(s: Bytes, at: int, id: byte, target: int)
    requires EntryAt(s, at, Off(id, target)) && -TWO24 / 2 <= target - at < TWO24 / 2
    ensures s[at] == id && Target(s, at) == target
  {
    var b := EntryBytes(Off(id, target), at);
    assert s[at + 0] == b[0] && s[at + 1] == b[1] && s[at + 2] == b[2] && s[at + 3] == b[3];
    var low := Low24(target - at);
    ThreeBytes(low);
    assert Get24(s, at + 1) == low;
  }

  lemma ThreeBytes(x: nat)
    ensures x / 0x1_0000 * 0x1_0000 + x / 0x100 % 256 * 0x100 + x % 256 == x
  {
    var q := x / 0x100;
    assert x == q * 0x100 + x % 256;
    assert x / 0x1_0000 == q / 256;
    assert q == q / 256 * 256 + q % 256;
  }

  lemma {:induction false} FindSkips(s: Bytes, at: int, id: byte, n: nat)
    requires 0 <= at && at + 4 * n + 4 <= |s|
    requires forall k :: 0 <= k < n ==> s[at + 4 * k] != id && s[at + 4 * k] != END_OF_LIST
    ensures FindEntry(s, at, id) == FindEntry(s, at + 4 * n, id)
    decreases n
  {
    if n > 0 {
      assert s[at + 4 * 0] != id && s[at + 4 * 0] != END_OF_LIST;
      forall k | 0 <= k < n - 1 ensures s[at + 4 + 4 * k] != id && s[at + 4 + 4 * k] != END_OF_LIST {
        assert s[at + 4 * (k + 1)] != id;
      }
      FindSkips(s, at + 4, id, n - 1);
    }
  }

  /** The reader finds entry k of a list if no earlier entry has its ID or ends the list. */
  lemma ListFinds(s: Bytes, at: int, es: seq<Entry>, k: nat)
    requires ListAt(s, at, es) && k < |es| && es[k].Off? && es[k].id != END_OF_LIST
    requires forall j :: 0 <= j < k ==> es[j].id != es[k].id && es[j].id != END_OF_LIST
    requires -TWO24 / 2 <= es[k].target - (at + 4 * k) < TWO24 / 2
    ensures Follow(s, Some(at), es[k].id) == Some(es[k].target)
  {
    forall j | 0 <= j <= k ensures s[at + 4 * j] == es[j].id {
      assert EntryAt(s, at + 4 * j, es[j]);
      assert s[at + 4 * j + 0] == EntryBytes(es[j], at + 4 * j)[0];
    }
    forall j | 0 <= j < k ensures s[at + 4 * j] != es[k].id && s[at + 4 * j] != END_OF_LIST {
      assert s[at + 4 * j] == es[j].id;
    }
    FindSkips(s, at, es[k].id, k);
    assert EntryAt(s, at + 4 * k, es[k]);
    OffsetReadsBack(s, at + 4 * k, es[k].id, es[k].target);
  }

  // ------------------------------------------------------------- framing

  /** The two images agree on the n bytes from `at` on. */
  predicate SameAt(s: Bytes, s': Bytes, at: int, n: nat) {
    0 <= at && at + n <= |s| && at + n <= |s'| && forall i :: at <= i < at + n ==> s'[i] == s[i]
  }

  lemma ListFrame(s: Bytes, s': Bytes, at: int, es: seq<Entry>)
    requires ListAt(s, at, es) && SameAt(s, s', at, 4 * |es| + 4)
    ensures ListAt(s', at, es)
  {
    forall k | 0 <= k < |es| ensures EntryAt(s', at + 4 * k, es[k]) {
      assert EntryAt(s, at + 4 * k, es[k]);
      AtFrame(s, s', at + 4 * k, EntryBytes(es[k], at + 4 * k));
    }
  }

  lemma AtFrame(s: Bytes, s': Bytes, at: int, b: Bytes)
    requires At(s, at, b) && SameAt(s, s', at, |b|)
    ensures At(s', at, b)
  {
  }

  lemma EntryFrame(s: Bytes, s': Bytes, at: int, e: Entry)
    requires EntryAt(s, at, e) && SameAt(s, s', at, 4)
    ensures EntryAt(s', at, e)
  {
    AtFrame(s, s', at, EntryBytes(e, at));
  }
}
