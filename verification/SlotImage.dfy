/** A complete declaration ROM: its parts, the way from its header to every record, and what a
    mode switch and the checksum change in it. */
module SlotImage {
  import opened Options
  import opened MacMemory
  import opened RomBytes
  import opened RomChecksum
  import opened SlotLayout

  const TEST_PATTERN: uint32 := 0x5a93_2bc7

  /** What the image says about one monitor: its slot ID and modes, where its part starts, and the
      current contents of the fields that can be patched. */
  datatype Part = Part(slotId: byte, modes: seq<Mode>, base: nat, frame: uint32, recs: seq<Record>)

  /** The structures an image consists of. */
  datatype Layout = Layout(shared: Shared, board: nat, cpu: nat, ether: nat, dir: nat, parts: seq<Part>)

  function PartEntries(parts: seq<Part>): (r: seq<Entry>)
    ensures |r| == |parts|
    ensures forall i :: 0 <= i < |r| ==> r[i] == Off(parts[i].slotId, ListPos(parts[i].base))
  {
    seq(|parts|, i requires 0 <= i < |parts| => Off(parts[i].slotId, ListPos(parts[i].base)))
  }

  function DirEntries(l: Layout): seq<Entry> {
    [Off(0x01, l.board)] + PartEntries(l.parts) + [Off(0xf0, l.cpu), Off(0xf1, l.ether)]
  }

  function End(p: Part): nat {
    p.base + MonitorSize(p.modes)
  }

  predicate PartAt(s: Bytes, p: Part, sh: Shared) {
    MonitorAt(s, p.base, p.modes, sh, p.frame, p.recs)
  }

  /** Slot IDs that a reader can tell apart: distinct, neither the board's nor the end mark. */
  predicate GoodIds(parts: seq<Part>) {
    && (forall i :: 0 <= i < |parts| ==> parts[i].slotId != 0x01 && parts[i].slotId != END_OF_LIST)
    && (forall i, j :: 0 <= i < j < |parts| ==> parts[i].slotId != parts[j].slotId)
  }

  /** The header block at the end: offset of the directory, total length, format and test pattern. */
  predicate HeaderAt(s: Bytes, dir: nat) {
    && |s| >= HEADER_SIZE
    && EntryAt(s, |s| - 20, Off(0, dir))
    && Get32(s, |s| - 16) == |s|
    && Get16(s, |s| - 8) == 0x0101 && Get32(s, |s| - 6) == TEST_PATTERN && Get16(s, |s| - 2) == 0x000f
  }

  /** The image consists of the parts the layout names, in ascending order and without overlap. */
  predicate ImageOk(s: Bytes, l: Layout) {
    && |s| < TWO24 / 2
    && HeaderAt(s, l.dir)
    && ListAt(s, l.dir, DirEntries(l))
    && l.dir + 4 * (|l.parts| + 3) + 4 <= |s| - HEADER_SIZE
    && l.board <= |s| && l.cpu <= |s| && l.ether <= |s|
    && (forall i {:trigger PartAt(s, l.parts[i], l.shared)} :: 0 <= i < |l.parts| ==> PartAt(s, l.parts[i], l.shared))
    && (forall i :: 0 <= i < |l.parts| ==> End(l.parts[i]) <= l.dir)
    && (forall i, j :: 0 <= i < j < |l.parts| ==> End(l.parts[i]) <= l.parts[j].base)
  }

  // ------------------------------------------------------------- the reader

  /** The sResource directory, found through the header at the end of the image. */
  function Directory(s: Bytes): Option<int> {
    if |s| < HEADER_SIZE then None else Some(Target(s, |s| - HEADER_SIZE))
  }

  /** The functional sResource with a given ID (SRsrcInfo). */
  function FindResource(s: Bytes, id: byte): Option<int> {
    Follow(s, Directory(s), id)
  }

  /** The video parameter record of an Apple mode (two SFindStruct calls). */
  function FindRecord(s: Bytes, slotId: byte, mode: byte): Option<int> {
    Follow(s, Follow(s, FindResource(s, slotId), mode), 0x01)
  }

  /** The place that holds a monitor's frame buffer base (SFindStruct of the minor base). */
  function FindFrameBase(s: Bytes, slotId: byte): Option<int> {
    Follow(s, FindResource(s, slotId), 0x0a)
  }

  lemma DirectoryRead(s: Bytes, l: Layout, k: nat)
    requires ImageOk(s, l) && k < |DirEntries(l)| && DirEntries(l)[k].Off? && DirEntries(l)[k].id != END_OF_LIST
    requires forall j :: 0 <= j < k ==> DirEntries(l)[j].id != DirEntries(l)[k].id && DirEntries(l)[j].id != END_OF_LIST
    requires 0 <= DirEntries(l)[k].target <= |s|
    ensures FindResource(s, DirEntries(l)[k].id) == Some(DirEntries(l)[k].target)
  {
    hide PartAt, FindEntry;
    OffsetReadsBack(s, |s| - HEADER_SIZE, 0, l.dir);
    ListFinds(s, l.dir, DirEntries(l), k);
  }

  /** Builder and reader agree: from the header, through the directory and the monitor's slot ID,
      its Apple mode and the parameter entry, a reader lands exactly on the record of that monitor
      and depth, and the record decodes to what the layout says; likewise for the frame base. */
  lemma ReaderFindsRecords(s: Bytes, l: Layout, i: nat, d: nat)
    requires ImageOk(s, l) && GoodIds(l.parts) && i < |l.parts| && d < DEPTHS
    ensures var p := l.parts[i];
      && FindResource(s, p.slotId) == Some(ListPos(p.base))
      && FindFrameBase(s, p.slotId) == Some(p.base)
      && p.base + 4 <= |s| && Get32(s, p.base) == p.frame && |p.recs| == DEPTHS
      && (HasDepth(p.modes, d) ==>
            && FindRecord(s, p.slotId, AppleMode(p.modes, d)) == Some(RecordPos(p.base, d))
            && RecordAt(s, RecordPos(p.base, d), p.recs[d], d))
  {
    hide RecordAt, FindEntry, Rank, HasDepth;
    var p, es := l.parts[i], DirEntries(l);
    assert PartAt(s, p, l.shared);
    assert es[1 + i] == Off(p.slotId, ListPos(p.base));
    forall j | 0 <= j < 1 + i ensures es[j].id != p.slotId && es[j].id != END_OF_LIST {
      if j > 0 {
        assert es[j] == Off(l.parts[j - 1].slotId, ListPos(l.parts[j - 1].base));
      }
    }
    DirectoryRead(s, l, 1 + i);
    MonitorReads(s, p.base, p.modes, l.shared, p.frame, p.recs, d);
  }

  // ------------------------------------------------------------- patches

  /** s with b stored at `at`. */
  function Put(s: Bytes, at: nat, b: Bytes): (r: Bytes)
    requires at + |b| <= |s|
    ensures |r| == |s| && At(r, at, b)
    ensures forall i :: 0 <= i < |s| && !(at <= i < at + |b|) ==> r[i] == s[i]
  {
    s[..at] + b + s[at + |b|..]
  }

  /** The patches of a mode switch: frame base at `base`, and row bytes, height and width in the
      record at `rec`. */
  function Patched(s: Bytes, base: nat, frame: uint32, rec: nat, v: Record): (r: Bytes)
    requires base + 4 <= |s| && rec + RECORD_SIZE <= |s|
    ensures |r| == |s|
  {
    Put(Put(Put(Put(s, base, LongBytes(frame)), rec + 8, WordBytes(v.rowBytes)),
            rec + 14, WordBytes(v.height)), rec + 16, WordBytes(v.width))
  }

  /** The two images differ at most in the patched fields and in the checksum field. */
  predicate OnlyPatched(s: Bytes, s': Bytes, base: nat, rec: nat) {
    |s'| == |s| && forall x :: 0 <= x < |s| && !Patchable(|s|, base, rec, x) ==> s'[x] == s[x]
  }

  predicate Patchable(size: nat, base: nat, rec: nat, x: int) {
    base <= x < base + 4 || rec + 8 <= x < rec + 10 || rec + 14 <= x < rec + 18
    || size - CRC_FROM_END <= x < size - CRC_FROM_END + 4
  }

  lemma PatchedFrame(s: Bytes, base: nat, frame: uint32, rec: nat, v: Record)
    requires base + 4 <= |s| && rec + RECORD_SIZE <= |s|
    ensures OnlyPatched(s, Patched(s, base, frame, rec, v), base, rec)
  {
    hide LongBytes, WordBytes, At;
  }

  lemma PatchedFields(s: Bytes, base: nat, frame: uint32, rec: nat, v: Record, old_: Record, d: nat)
    requires base + 4 <= rec && RecordAt(s, rec, old_, d)
    ensures var r := Patched(s, base, frame, rec, v);
      && RecordAt(r, rec, v, d) && Get32(r, base) == frame
      && forall i :: 0 <= i < |s| && !(base <= i < base + 4) && !(rec + 8 <= i < rec + 18) ==> r[i] == s[i]
  {
    hide RecordAt, Put, Get16, Get32;
    RecordFits(s, rec, old_, d);
    var s1 := Put(s, base, LongBytes(frame));
    var s2 := Put(s1, rec + 8, WordBytes(v.rowBytes));
    var s3 := Put(s2, rec + 14, WordBytes(v.height));
    var r := Put(s3, rec + 16, WordBytes(v.width));
    RecordFrame(s, s1, rec, old_, d);
    PutRowBytes(s1, rec, old_, d, v.rowBytes);
    PutHeight(s2, rec, old_.(rowBytes := v.rowBytes), d, v.height);
    PutWidth(s3, rec, old_.(rowBytes := v.rowBytes, height := v.height), d, v.width);
    AtFrame(s1, r, base, LongBytes(frame));
    LongReadsBack(r, base, frame);
  }

  lemma RecordFits(s: Bytes, rec: nat, v: Record, d: nat)
    requires RecordAt(s, rec, v, d)
    ensures rec + RECORD_SIZE <= |s|
  {
  }

  lemma PutRowBytes(s: Bytes, rec: nat, v: Record, d: nat, w: uint16)
    requires RecordAt(s, rec, v, d)
    ensures RecordAt(Put(s, rec + 8, WordBytes(w)), rec, v.(rowBytes := w), d)
  {
    WordReadsBack(Put(s, rec + 8, WordBytes(w)), rec + 8, w);
  }

  lemma PutHeight(s: Bytes, rec: nat, v: Record, d: nat, w: uint16)
    requires RecordAt(s, rec, v, d)
    ensures RecordAt(Put(s, rec + 14, WordBytes(w)), rec, v.(height := w), d)
  {
    WordReadsBack(Put(s, rec + 14, WordBytes(w)), rec + 14, w);
  }

  lemma PutWidth(s: Bytes, rec: nat, v: Record, d: nat, w: uint16)
    requires RecordAt(s, rec, v, d)
    ensures RecordAt(Put(s, rec + 16, WordBytes(w)), rec, v.(width := w), d)
  {
    WordReadsBack(Put(s, rec + 16, WordBytes(w)), rec + 16, w);
  }

  /** The part after a mode switch to depth d. */
  function SwitchedPart(p: Part, d: nat, frame: uint32, v: Record): Part
    requires d < |p.recs|
  {
    p.(frame := frame, recs := p.recs[d := v])
  }

  lemma PatchedPart(s: Bytes, p: Part, sh: Shared, d: nat, frame: uint32, v: Record)
    requires PartAt(s, p, sh) && d < DEPTHS
    ensures var r := Patched(s, p.base, frame, RecordPos(p.base, d), v);
      && |r| == |s| && PartAt(r, SwitchedPart(p, d, frame, v), sh)
      && forall i :: 0 <= i < |s| && !(p.base <= i < End(p)) ==> r[i] == s[i]
  {
    hide RecordAt, Patched, ListAt;
    var rec := RecordPos(p.base, d);
    var r := Patched(s, p.base, frame, rec, v);
    assert RecordAt(s, rec, p.recs[d], d);
    PatchedFields(s, p.base, frame, rec, v, p.recs[d], d);
    forall e | 0 <= e < DEPTHS && e != d ensures RecordAt(r, RecordPos(p.base, e), p.recs[e], e) {
      assert RecordAt(s, RecordPos(p.base, e), p.recs[e], e);
      RecordFrame(s, r, RecordPos(p.base, e), p.recs[e], e);
    }
    ListsFrame(s, r, p.base, p.modes, sh, p.frame, p.recs);
  }

  /** The layout after a mode switch of monitor i. */
  function Switched(l: Layout, i: nat, d: nat, frame: uint32, v: Record): Layout
    requires i < |l.parts| && d < |l.parts[i].recs|
  {
    l.(parts := l.parts[i := SwitchedPart(l.parts[i], d, frame, v)])
  }

  /** A mode switch of monitor i changes what the image says about that monitor's frame base and
      that depth's record, and no byte outside those fields. */
  lemma PatchKeepsImage(s: Bytes, l: Layout, i: nat, d: nat, frame: uint32, v: Record)
    requires ImageOk(s, l) && i < |l.parts| && d < DEPTHS
    ensures PartAt(s, l.parts[i], l.shared)
    ensures var p := l.parts[i];
      var r := Patched(s, p.base, frame, RecordPos(p.base, d), v);
      ImageOk(r, Switched(l, i, d, frame, v)) && OnlyPatched(s, r, p.base, RecordPos(p.base, d))
  {
    hide MonitorAt, Patched, ListAt, MonitorSize, EntryAt, OnlyPatched;
    var p := l.parts[i];
    assert PartAt(s, p, l.shared);
    PartFacts(s, p, l.shared);
    PatchedPart(s, p, l.shared, d, frame, v);
    PatchedFrame(s, p.base, frame, RecordPos(p.base, d), v);
    var r, l' := Patched(s, p.base, frame, RecordPos(p.base, d), v), Switched(l, i, d, frame, v);
    forall j | 0 <= j < |l.parts| && j != i ensures PartAt(r, l.parts[j], l.shared) {
      var q := l.parts[j];
      assert PartAt(s, q, l.shared);
      PartFacts(s, q, l.shared);
      MonitorFrame(s, r, q.base, q.modes, l.shared, q.frame, q.recs);
    }
    SameDirectory(l, l');
    DirectoryFrame(s, r, l);
  }

  lemma PartFacts(s: Bytes, p: Part, sh: Shared)
    requires PartAt(s, p, sh)
    ensures |p.recs| == DEPTHS && End(p) <= |s| && p.base + 308 <= End(p)
    ensures forall d :: 0 <= d < DEPTHS ==> RecordPos(p.base, d) + RECORD_SIZE <= End(p)
  {
  }

  lemma SameDirectory(l: Layout, l': Layout)
    requires |l'.parts| == |l.parts| && l'.board == l.board && l'.cpu == l.cpu && l'.ether == l.ether
    requires forall i :: 0 <= i < |l.parts| ==>
      l'.parts[i].slotId == l.parts[i].slotId && l'.parts[i].base == l.parts[i].base
    ensures DirEntries(l') == DirEntries(l)
  {
    assert PartEntries(l'.parts) == PartEntries(l.parts);
  }

  /** Directory and header stay when nothing from the directory on changes. */
  lemma DirectoryFrame(s: Bytes, r: Bytes, l: Layout)
    requires HeaderAt(s, l.dir) && ListAt(s, l.dir, DirEntries(l))
    requires l.dir + 4 * (|l.parts| + 3) + 4 <= |s| - HEADER_SIZE
    requires |r| == |s| && SameAt(s, r, l.dir, |s| - l.dir)
    ensures HeaderAt(r, l.dir) && ListAt(r, l.dir, DirEntries(l))
  {
    ListFrame(s, r, l.dir, DirEntries(l));
    EntryFrame(s, r, |s| - 20, Off(0, l.dir));
  }

  // ------------------------------------------------------------- checksum

  /** Storing a checksum leaves the image as it is. */
  lemma ChecksumKeepsImage(s: Bytes, l: Layout)
    requires ImageOk(s, l)
    ensures ImageOk(Checksummed(s), l) && Verifies(Checksummed(s))
  {
    hide MonitorAt, ListAt, MonitorSize, EntryAt, Verifies, Crc;
    ChecksumVerifies(s);
    var r := Checksummed(s);
    forall j | 0 <= j < |l.parts| ensures PartAt(r, l.parts[j], l.shared) {
      var q := l.parts[j];
      assert PartAt(s, q, l.shared);
      PartFacts(s, q, l.shared);
      MonitorFrame(s, r, q.base, q.modes, l.shared, q.frame, q.recs);
    }
    ListFrame(s, r, l.dir, DirEntries(l));
    EntryFrame(s, r, |s| - 20, Off(0, l.dir));
    HeaderFields(s, r, l.dir);
  }

  lemma HeaderFields(s: Bytes, r: Bytes, dir: nat)
    requires HeaderAt(s, dir) && |r| == |s| && EntryAt(r, |s| - 20, Off(0, dir))
    requires forall i :: 0 <= i < |s| && !(|s| - 12 <= i < |s| - 8) ==> r[i] == s[i]
    ensures HeaderAt(r, dir)
  {
  }
}
