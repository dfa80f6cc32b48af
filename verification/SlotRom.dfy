/** Construction of the slot declaration ROM in its temporary buffer. */
module SlotRom {
  import opened MacMemory
  import opened RomBytes
  import opened SlotLayout
  import opened SlotImage
  import opened Video

  const SROM_SIZE: nat := 4096

  /** The texts and code blocks that go into the image unchanged. The code blocks (drivers and
      gamma table) consist of whole words. */
  datatype Literals = Literals(
    boardName: Bytes, vendorId: Bytes, revLevel: Bytes, partNum: Bytes, date: Bytes,
    videoName: Bytes, videoDriver: Bytes, gamma: Bytes, cpuName: Bytes, etherName: Bytes, etherDriver: Bytes)
  {
    predicate Valid() {
      |videoDriver| % 2 == 0 && |gamma| % 2 == 0 && |etherDriver| % 2 == 0
    }
  }

  /** Space a C string of n characters takes: its zero byte, and padding to a whole word. */
  function Padded(n: nat): (r: nat)
    ensures r % 2 == 0 && n < r <= n + 2
  {
    (n + 2) / 2 * 2
  }

  function SizeOfMonitors(ms: seq<seq<Mode>>): nat {
    if ms == [] then 0 else SizeOfMonitors(ms[..|ms| - 1]) + MonitorSize(ms[|ms| - 1])
  }

  function BoardSize(l: Literals): nat {
    8 + Padded(|l.boardName|) + Padded(|l.vendorId|) + Padded(|l.revLevel|) + Padded(|l.partNum|) + Padded(|l.date|) +
      40
  }

  function VideoSize(l: Literals): nat {
    8 + Padded(|l.videoName|) + |l.videoDriver| + 8 + |l.gamma| + 8
  }

  function CpuSize(l: Literals): nat {
    8 + Padded(|l.cpuName|) + 16 + 20
  }

  function EtherSize(l: Literals): nat {
    8 + Padded(|l.etherName|) + |l.etherDriver| + 8 + 24
  }

  /** Size of the whole image. */
  function ImageSize(l: Literals, ms: seq<seq<Mode>>): nat {
    BoardSize(l) + VideoSize(l) + SizeOfMonitors(ms) + CpuSize(l) + EtherSize(l) + 4 * (|ms| + 3) + 4 + HEADER_SIZE
  }

  // ------------------------------------------------------------- a record, field by field

  function AddHead(s: Bytes, v: Record): Bytes {
    s + LongBytes(RECORD_SIZE) + LongBytes(0) + WordBytes(v.rowBytes) + WordBytes(0) + WordBytes(0) +
      WordBytes(v.height) + WordBytes(v.width)
  }

  function AddMiddle(s: Bytes): Bytes {
    s + WordBytes(0) + WordBytes(0) + LongBytes(0) + LongBytes(0x48_0000) + LongBytes(0x48_0000)
  }

  function AddFormat(s: Bytes, d: nat): Bytes {
    s + WordBytes(PixelType(d)) + WordBytes(PixelSize(d)) + WordBytes(CmpCount(d)) + WordBytes(CmpSize(d)) +
      LongBytes(0) + LongBytes(0)
  }

  lemma AddHeadDecodes(s: Bytes, v: Record)
    ensures var r, n := AddHead(s, v), |s|;
      && |r| == n + 18 && s <= r
      && Get32(r, n) == RECORD_SIZE && Get32(r, n + 4) == 0 && Get16(r, n + 8) == v.rowBytes
      && Get16(r, n + 10) == 0 && Get16(r, n + 12) == 0 && Get16(r, n + 14) == v.height && Get16(r, n + 16) == v.width
  {
    var r, n := AddHead(s, v), |s|;
    assert At(r, n, LongBytes(RECORD_SIZE)) && At(r, n + 4, LongBytes(0)) && At(r, n + 8, WordBytes(v.rowBytes));
    assert At(r, n + 10, WordBytes(0)) && At(r, n + 12, WordBytes(0));
    assert At(r, n + 14, WordBytes(v.height)) && At(r, n + 16, WordBytes(v.width));
    LongReadsBack(r, n, RECORD_SIZE);
    WordReadsBack(r, n + 8, v.rowBytes);
    WordReadsBack(r, n + 14, v.height);
    WordReadsBack(r, n + 16, v.width);
  }

  lemma AddMiddleDecodes(s: Bytes)
    ensures var r, n := AddMiddle(s), |s|;
      && |r| == n + 16 && s <= r
      && Get16(r, n) == 0 && Get16(r, n + 2) == 0 && Get32(r, n + 4) == 0
      && Get32(r, n + 8) == 0x48_0000 && Get32(r, n + 12) == 0x48_0000
  {
    var r, n := AddMiddle(s), |s|;
    assert At(r, n + 8, LongBytes(0x48_0000)) && At(r, n + 12, LongBytes(0x48_0000));
    LongReadsBack(r, n + 8, 0x48_0000);
    LongReadsBack(r, n + 12, 0x48_0000);
  }

  lemma AddFormatDecodes(s: Bytes, d: nat)
    ensures var r, n := AddFormat(s, d), |s|;
      && |r| == n + 16 && s <= r
      && Get16(r, n) == PixelType(d) && Get16(r, n + 2) == PixelSize(d)
      && Get16(r, n + 4) == CmpCount(d) && Get16(r, n + 6) == CmpSize(d)
      && Get32(r, n + 8) == 0 && Get32(r, n + 12) == 0
  {
  }

  lemma RecordDecodes(s: Bytes, v: Record, d: nat)
    ensures var r := AddFormat(AddMiddle(AddHead(s, v)), d);
      |r| == |s| + RECORD_SIZE && s <= r && RecordAt(r, |s|, v, d)
  {
    hide AddHead, AddMiddle, AddFormat, PixelType, PixelSize, CmpCount, CmpSize;
    var h := AddHead(s, v);
    var m := AddMiddle(h);
    AddHeadDecodes(s, v);
    AddMiddleDecodes(h);
    AddFormatDecodes(m, d);
  }

  // ------------------------------------------------------------- a list, entry by entry

  /** The last part of s, from `at` on, is the given entries. */
  predicate OpenList(s: Bytes, at: nat, es: seq<Entry>) {
    at + 4 * |es| == |s| && forall k :: 0 <= k < |es| ==> EntryAt(s, at + 4 * k, es[k])
  }

  lemma ExtendList(s: Bytes, at: nat, es: seq<Entry>, e: Entry)
    requires OpenList(s, at, es)
    ensures OpenList(s + EntryBytes(e, |s|), at, es + [e])
  {
    hide EntryBytes;
    var s' := s + EntryBytes(e, |s|);
    forall k | 0 <= k < |es + [e]| ensures EntryAt(s', at + 4 * k, (es + [e])[k]) {
      if k < |es| {
        assert EntryAt(s, at + 4 * k, es[k]);
      }
    }
  }

  lemma CloseList(s: Bytes, at: nat, es: seq<Entry>)
    requires OpenList(s, at, es)
    ensures ListAt(s + END_BYTES, at, es)
  {
    hide EntryBytes;
    var s' := s + END_BYTES;
    forall k | 0 <= k < |es| ensures EntryAt(s', at + 4 * k, es[k]) {
      assert EntryAt(s, at + 4 * k, es[k]);
    }
  }

  /** What was true of a list stays true when more is emitted. */
  lemma ListStays(s: Bytes, s': Bytes, at: nat, es: seq<Entry>)
    requires ListAt(s, at, es) && s <= s'
    ensures ListAt(s', at, es)
  {
    hide EntryAt;
    ListFrame(s, s', at, es);
  }

  lemma RecordStays(s: Bytes, s': Bytes, at: nat, v: Record, d: nat)
    requires RecordAt(s, at, v, d) && s <= s'
    ensures RecordAt(s', at, v, d)
  {
    RecordFrame(s, s', at, v, d);
  }

  lemma MonitorStays(s: Bytes, s': Bytes, base: nat, modes: seq<Mode>, sh: Shared, frame: uint32, recs: seq<Record>)
    requires MonitorAt(s, base, modes, sh, frame, recs) && s <= s'
    ensures MonitorAt(s', base, modes, sh, frame, recs)
  {
    hide RecordAt, ListAt;
    MonitorFrame(s, s', base, modes, sh, frame, recs);
  }

  lemma Get32Stays(s: Bytes, s': Bytes, at: nat)
    requires at + 4 <= |s| && s <= s'
    ensures Get32(s', at) == Get32(s, at)
  {
  }

  // ------------------------------------------------------------- the other resources

  function Words4(a: uint16, b: uint16, c: uint16, d: uint16): Bytes {
    WordBytes(a) + WordBytes(b) + WordBytes(c) + WordBytes(d)
  }

  datatype BoardPlaces = BoardPlaces(kind: nat, name: nat, vendorId: nat, revLevel: nat, partNum: nat, date: nat,
                                     info: nat, list: nat)

  /** The board sResource and what it refers to. */
  predicate BoardAt(s: Bytes, b: BoardPlaces, l: Literals) {
    && At(s, b.kind, Words4(1, 0, 0, 0)) && At(s, b.name, l.boardName + [0])
    && At(s, b.vendorId, l.vendorId + [0]) && At(s, b.revLevel, l.revLevel + [0])
    && At(s, b.partNum, l.partNum + [0]) && At(s, b.date, l.date + [0])
    && ListAt(s, b.info, [Off(0x01, b.vendorId), Off(0x03, b.revLevel), Off(0x04, b.partNum), Off(0x05, b.date)])
    && ListAt(s, b.list, [Off(0x01, b.kind), Off(0x02, b.name), Data(0x20, 0x4232), Off(0x24, b.info)])
  }

  /** The structures shared by all monitors, with the driver and the gamma table. */
  predicate SharedAt(s: Bytes, sh: Shared, driver: nat, gamma: nat, l: Literals) {
    && At(s, sh.videoType, Words4(3, 1, 1, 0x4232)) && At(s, sh.videoName, l.videoName + [0])
    && At(s, driver, l.videoDriver) && ListAt(s, sh.drvrDir, [Off(0x02, driver)])
    && At(s, gamma, l.gamma) && ListAt(s, sh.gammaDir, [Off(0x80, gamma)])
  }

  datatype CpuPlaces = CpuPlaces(kind: nat, name: nat, major: nat, minor: nat, list: nat)

  predicate CpuAt(s: Bytes, c: CpuPlaces, l: Literals) {
    && At(s, c.kind, Words4(10, 3, 0, 24)) && At(s, c.name, l.cpuName + [0])
    && At(s, c.major, LongBytes(0) + LongBytes(0x7fff_ffff)) &&
      At(s, c.minor, LongBytes(0xf080_0000) + LongBytes(0xf0ff_ffff))
    && ListAt(s, c.list, [Off(0x01, c.kind), Off(0x02, c.name), Off(0x81, c.major), Off(0x82, c.minor)])
  }

  datatype EtherPlaces = EtherPlaces(kind: nat, name: nat, driver: nat, drvrDir: nat, list: nat)

  predicate EtherAt(s: Bytes, e: EtherPlaces, l: Literals) {
    && At(s, e.kind, Words4(4, 1, 1, 0x4232)) && At(s, e.name, l.etherName + [0])
    && At(s, e.driver, l.etherDriver) && ListAt(s, e.drvrDir, [Off(0x02, e.driver)])
    && ListAt(s, e.list, [Off(0x01, e.kind), Off(0x02, e.name), Off(0x04, e.drvrDir), Data(0x07, 2),
      Data(0x08, 0x4232)])
  }

  /** The resource lies behind the first n bytes. */
  predicate CpuFrom(c: CpuPlaces, n: nat) {
    n <= c.kind && n <= c.name && n <= c.major && n <= c.minor && n <= c.list
  }

  predicate EtherFrom(e: EtherPlaces, n: nat) {
    n <= e.kind && n <= e.name && n <= e.driver && n <= e.drvrDir && n <= e.list
  }

  /** Bytes already emitted stay. */
  lemma AtStays(s: Bytes, s': Bytes, at: int, b: Bytes)
    requires At(s, at, b) && s <= s'
    ensures At(s', at, b)
  {
  }

  // ------------------------------------------------------------- the builder

  class Builder {
    const srom: array<byte>
    var p: nat

    constructor ()
      ensures Valid() && p == 0 && fresh(srom)
    {
      srom := new byte[SROM_SIZE];
      p := 0;
    }

    ghost predicate Valid()
      reads this
    {
      srom.Length == SROM_SIZE && p <= SROM_SIZE
    }

    /** What has been emitted so far. */
    ghost function Contents(): (r: Bytes)
      requires Valid()
      reads this, srom
      ensures |r| == p
    {
      srom[..p]
    }

    method Emit(b: byte)
      requires Valid() && p < SROM_SIZE
      modifies this, srom
      ensures Valid() && Contents() == old(Contents()) + [b]
    {
      srom[p] := b;
      p := p + 1;
    }

    method Offs(kind: byte, ptr: nat)
      requires Valid() && p + 4 <= SROM_SIZE
      modifies this, srom
      ensures Valid() && Contents() == old(Contents()) + EntryBytes(Off(kind, ptr), old(p))
    {
      var offs := Low24(ptr as int - p);
      Emit(kind);
      Emit(offs / 0x1_0000);
      Emit(offs / 0x100 % 256);
      Emit(offs % 256);
    }

    method Rsrc(kind: byte, data: nat)
      requires Valid() && p + 4 <= SROM_SIZE
      modifies this, srom
      ensures Valid() && Contents() == old(Contents()) + EntryBytes(Data(kind, data), old(p))
    {
      var low := Low24(data);
      Emit(kind);
      Emit(low / 0x1_0000);
      Emit(low / 0x100 % 256);
      Emit(low % 256);
    }

    method EndOfList()
      requires Valid() && p + 4 <= SROM_SIZE
      modifies this, srom
      ensures Valid() && Contents() == old(Contents()) + END_BYTES
    {
      Emit(0xff);
      Emit(0);
      Emit(0);
      Emit(0);
    }

    method Long(data: uint32)
      requires Valid() && p + 4 <= SROM_SIZE
      modifies this, srom
      ensures Valid() && Contents() == old(Contents()) + LongBytes(data)
    {
      Emit(data / 0x100_0000);
      Emit(data / 0x1_0000 % 256);
      Emit(data / 0x100 % 256);
      Emit(data % 256);
    }

    method Word(data: uint16)
      requires Valid() && p + 2 <= SROM_SIZE
      modifies this, srom
      ensures Valid() && Contents() == old(Contents()) + WordBytes(data)
    {
      Emit(data / 256);
      Emit(data % 256);
    }

    /** A C string with its zero byte, padded to a whole word. */
    method String(str: Bytes)
      requires Valid() && p % 2 == 0 && p + Padded(|str|) <= SROM_SIZE
      modifies this, srom
      ensures Valid() && p == old(p) + Padded(|str|) && p % 2 == 0 && old(Contents()) <= Contents()
      ensures At(Contents(), old(p), str + [0])
    {
      ghost var c0 := Contents();
      for i := 0 to |str|
        invariant Valid() && p == old(p) + i && Contents() == old(Contents()) + str[..i]
      {
        Emit(str[i]);
        assert str[..i + 1] == str[..i] + [str[i]];
      }
      assert str[..|str|] == str;
      Emit(0);
      if p % 2 == 1 {
        Emit(0);
      }
      assert c0 + str + [0] <= Contents();
      StringEmitted(c0, str, Contents());
    }

    /** A block of code or data taken over as it is. */
    method Block(data: Bytes)
      requires Valid() && p + |data| <= SROM_SIZE
      modifies this, srom
      ensures Valid() && Contents() == old(Contents()) + data
    {
      for i := 0 to |data|
        invariant Valid() && p == old(p) + i && Contents() == old(Contents()) + data[..i]
      {
        Emit(data[i]);
        assert data[..i + 1] == data[..i] + [data[i]];
      }
      assert data[..|data|] == data;
    }

    /** Video mode parameters of one depth for the monitor's current resolution. */
    method VModeParms(m: MonitorDesc, depth: nat) returns (ret: nat)
      requires Valid() && m.Valid() && m.currentMode < |m.modes| && depth < DEPTHS && p + RECORD_SIZE <= SROM_SIZE
      modifies this, srom
      ensures Valid() && ret == old(p) && p == ret + RECORD_SIZE && old(Contents()) <= Contents()
      ensures RecordAt(Contents(), ret, InitialRecord(m.modes, m.currentMode, depth), depth)
    {
      hide RecordAt, LongBytes, WordBytes, BytesPerRow;
      ghost var before := Contents();
      var mode := m.modes[m.currentMode];
      ret := p;
      Long(50);
      Long(0);
      var rowBytes := m.GetBytesPerRow(depth, mode.resolutionId);
      Word(Low16(rowBytes));
      Word(0);
      Word(0);
      Word(Low16(mode.y));
      Word(Low16(mode.x));
      ghost var v := InitialRecord(m.modes, m.currentMode, depth);
      assert Contents() == AddHead(before, v);
      Word(0);
      Word(0);
      Long(0);
      Long(0x48_0000);
      Long(0x48_0000);
      assert Contents() == AddMiddle(AddHead(before, v));
      PixelFormat(depth);
      RecordDecodes(before, v, depth);
    }

    method PixelFormat(depth: nat)
      requires Valid() && depth < DEPTHS && p + 16 <= SROM_SIZE
      modifies this, srom
      ensures Valid() && p == old(p) + 16 && Contents() == AddFormat(old(Contents()), depth)
    {
      hide LongBytes, WordBytes;
      if depth == 0 {
        Word(0); Word(1); Word(1); Word(1);
      } else if depth == 1 {
        Word(0); Word(2); Word(1); Word(2);
      } else if depth == 2 {
        Word(0); Word(4); Word(1); Word(4);
      } else if depth == 3 {
        Word(0); Word(8); Word(1); Word(8);
      } else if depth == 4 {
        Word(16); Word(16); Word(3); Word(5);
      } else {
        Word(16); Word(32); Word(3); Word(8);
      }
      Long(0);
      Long(0);
    }

    /** Next entry of the list begun at `at`. */
    method ListOffs(kind: byte, ptr: nat, ghost at: nat, ghost es: seq<Entry>)
      requires Valid() && p + 4 <= SROM_SIZE && OpenList(Contents(), at, es)
      modifies this, srom
      ensures Valid() && p == old(p) + 4 && old(Contents()) <= Contents()
      ensures OpenList(Contents(), at, es + [Off(kind, ptr)])
    {
      hide OpenList, EntryBytes;
      ExtendList(Contents(), at, es, Off(kind, ptr));
      Offs(kind, ptr);
    }

    method ListRsrc(kind: byte, data: nat, ghost at: nat, ghost es: seq<Entry>)
      requires Valid() && p + 4 <= SROM_SIZE && OpenList(Contents(), at, es)
      modifies this, srom
      ensures Valid() && p == old(p) + 4 && old(Contents()) <= Contents()
      ensures OpenList(Contents(), at, es + [Data(kind, data)])
    {
      hide OpenList, EntryBytes;
      ExtendList(Contents(), at, es, Data(kind, data));
      Rsrc(kind, data);
    }

    method ListEnd(ghost at: nat, ghost es: seq<Entry>)
      requires Valid() && p + 4 <= SROM_SIZE && OpenList(Contents(), at, es)
      modifies this, srom
      ensures Valid() && p == old(p) + 4 && old(Contents()) <= Contents()
      ensures ListAt(Contents(), at, es)
    {
      hide OpenList, ListAt;
      CloseList(Contents(), at, es);
      EndOfList();
    }

    /** Description of one mode: where its parameters are, page count and device type. */
    method VModeDesc(params: nat, direct: bool) returns (ret: nat)
      requires Valid() && p + 16 <= SROM_SIZE
      modifies this, srom
      ensures Valid() && ret == old(p) && p == ret + 16 && old(Contents()) <= Contents()
      ensures ListAt(Contents(), ret, [Off(0x01, params), Data(0x03, 1), Data(0x04, if direct then 2 else 0)])
    {
      hide OpenList, ListAt;
      ret := p;
      OpenNothing(Contents());
      ghost var es: seq<Entry> := [];
      ListOffs(0x01, params, ret, es);
      es := es + [Off(0x01, params)];
      ListRsrc(0x03, 1, ret, es);
      es := es + [Data(0x03, 1)];
      ListRsrc(0x04, if direct then 2 else 0, ret, es);
      es := es + [Data(0x04, if direct then 2 else 0)];
      ListEnd(ret, es);
      assert es == [Off(0x01, params), Data(0x03, 1), Data(0x04, if direct then 2 else 0)];
    }

    /** The records of all depths, one after the other. */
    method AllParms(m: MonitorDesc, ghost base: nat)
      returns (parms1: nat, parms2: nat, parms4: nat, parms8: nat, parms16: nat, parms32: nat)
      requires Valid() && m.Valid() && m.currentMode < |m.modes| && p + DEPTHS * RECORD_SIZE <= SROM_SIZE
      requires p == RecordPos(base, 0)
      modifies this, srom
      ensures Valid() && p == RecordPos(base, DEPTHS) && old(Contents()) <= Contents()
      ensures RecordsAt(Contents(), base, InitialRecords(m.modes, m.currentMode), DEPTHS)
      ensures parms1 == RecordPos(base, 0) && parms2 == RecordPos(base, 1) && parms4 == RecordPos(base, 2)
      ensures parms8 == RecordPos(base, 3) && parms16 == RecordPos(base, 4) && parms32 == RecordPos(base, 5)
    {
      hide RecordAt, InitialRecord;
      ghost var recs := InitialRecords(m.modes, m.currentMode);
      ghost var c0 := Contents();
      parms1 := VModeParms(m, 0);
      ghost var c1 := Contents();
      assert RecordsAt(c1, base, recs, 1);
      parms2 := VModeParms(m, 1);
      ghost var c2 := Contents();
      NextRecord(c1, c2, base, recs, 1);
      parms4 := VModeParms(m, 2);
      ghost var c3 := Contents();
      NextRecord(c2, c3, base, recs, 2);
      parms8 := VModeParms(m, 3);
      ghost var c4 := Contents();
      NextRecord(c3, c4, base, recs, 3);
      parms16 := VModeParms(m, 4);
      ghost var c5 := Contents();
      NextRecord(c4, c5, base, recs, 4);
      parms32 := VModeParms(m, 5);
      NextRecord(c5, Contents(), base, recs, 5);
    }

    /** The mode descriptions of all depths. */
    method AllDescs(ghost base: nat, parms1: nat, parms2: nat, parms4: nat, parms8: nat, parms16: nat, parms32: nat)
      returns (mode1: nat, mode2: nat, mode4: nat, mode8: nat, mode16: nat, mode32: nat)
      requires Valid() && p + DEPTHS * 16 <= SROM_SIZE && p == DescPos(base, 0)
      requires parms1 == RecordPos(base, 0) && parms2 == RecordPos(base, 1) && parms4 == RecordPos(base, 2)
      requires parms8 == RecordPos(base, 3) && parms16 == RecordPos(base, 4) && parms32 == RecordPos(base, 5)
      modifies this, srom
      ensures Valid() && p == DescPos(base, DEPTHS) && old(Contents()) <= Contents()
      ensures DescsAt(Contents(), base, DEPTHS)
      ensures mode1 == DescPos(base, 0) && mode2 == DescPos(base, 1) && mode4 == DescPos(base, 2)
      ensures mode8 == DescPos(base, 3) && mode16 == DescPos(base, 4) && mode32 == DescPos(base, 5)
    {
      hide ListAt;
      mode1 := VModeDesc(parms1, false);
      ghost var c1 := Contents();
      assert DescsAt(c1, base, 1);
      mode2 := VModeDesc(parms2, false);
      ghost var c2 := Contents();
      NextDesc(c1, c2, base, 1);
      mode4 := VModeDesc(parms4, false);
      ghost var c3 := Contents();
      NextDesc(c2, c3, base, 2);
      mode8 := VModeDesc(parms8, false);
      ghost var c4 := Contents();
      NextDesc(c3, c4, base, 3);
      mode16 := VModeDesc(parms16, true);
      ghost var c5 := Contents();
      NextDesc(c4, c5, base, 4);
      mode32 := VModeDesc(parms32, true);
      NextDesc(c5, Contents(), base, 5);
    }

    /** The mode entry of a depth, if the monitor has that depth. */
    method ModeEntry(m: MonitorDesc, depth: nat, vidMode: nat, ghost at: nat, ghost base: nat, ghost fixed: seq<Entry>)
      requires Valid() && m.Valid() && depth < DEPTHS && p + 4 <= SROM_SIZE && vidMode == DescPos(base, depth)
      requires OpenList(Contents(), at, fixed + ModeEntries(m.modes, base, depth))
      modifies this, srom
      ensures Valid() && old(Contents()) <= Contents()
      ensures p == old(p) + 4 * (Rank(m.modes, depth + 1) - Rank(m.modes, depth))
      ensures OpenList(Contents(), at, fixed + ModeEntries(m.modes, base, depth + 1))
    {
      hide OpenList;
      ghost var es := ModeEntries(m.modes, base, depth);
      if HasDepth(m.modes, depth) {
        ListOffs(m.appleModeForDepth[depth], vidMode, at, fixed + es);
        assert fixed + (es + [Off(AppleMode(m.modes, depth), vidMode)]) ==
          (fixed + es) + [Off(AppleMode(m.modes, depth), vidMode)];
      } else {
        assert es + [] == es;
      }
    }

    method FixedPart(sh: Shared, base: nat, ghost at: nat)
      requires Valid() && p == at && p + 32 <= SROM_SIZE
      modifies this, srom
      ensures Valid() && p == at + 32 && old(Contents()) <= Contents()
      ensures OpenList(Contents(), at, FixedEntries(base, sh))
    {
      hide OpenList, Builder.Contents, Builder.Valid;
      ghost var es: seq<Entry> := [];
      OpenNothing(Contents());
      ListOffs(0x01, sh.videoType, at, es);
      es := es + [Off(0x01, sh.videoType)];
      ListOffs(0x02, sh.videoName, at, es);
      es := es + [Off(0x02, sh.videoName)];
      ListOffs(0x04, sh.drvrDir, at, es);
      es := es + [Off(0x04, sh.drvrDir)];
      ListRsrc(0x08, 0x4232, at, es);
      es := es + [Data(0x08, 0x4232)];
      ListOffs(0x0a, base, at, es);
      es := es + [Off(0x0a, base)];
      ListOffs(0x0b, base + 4, at, es);
      es := es + [Off(0x0b, base + 4)];
      ListOffs(0x40, sh.gammaDir, at, es);
      es := es + [Off(0x40, sh.gammaDir)];
      ListRsrc(0x7d, 6, at, es);
      es := es + [Data(0x7d, 6)];
      assert es == FixedEntries(base, sh);
    }

    method MonitorList(m: MonitorDesc, sh: Shared, base: nat,
                       mode1: nat, mode2: nat, mode4: nat, mode8: nat, mode16: nat, mode32: nat)
      requires mode1 == DescPos(base, 0) && mode2 == DescPos(base, 1) && mode4 == DescPos(base, 2)
      requires mode8 == DescPos(base, 3) && mode16 == DescPos(base, 4) && mode32 == DescPos(base, 5)
      requires Valid() && m.Valid() && p == ListPos(base) && base + MonitorSize(m.modes) <= SROM_SIZE
      modifies this, srom
      ensures Valid() && p == base + MonitorSize(m.modes) && old(Contents()) <= Contents()
      ensures ListAt(Contents(), ListPos(base), MonitorEntries(m.modes, base, sh))
    {
      hide OpenList, ListAt, HasDepth, ModeEntries, Builder.Contents, Builder.Valid, MonitorDesc.Valid;
      ghost var at := p;
      ghost var fixed := FixedEntries(base, sh);
      RankSteps(m.modes);
      FixedPart(sh, base, at);
      NoModes(m.modes, base, fixed);
      ModeEntry(m, 0, mode1, at, base, fixed);
      ModeEntry(m, 1, mode2, at, base, fixed);
      ModeEntry(m, 2, mode4, at, base, fixed);
      ModeEntry(m, 3, mode8, at, base, fixed);
      ModeEntry(m, 4, mode16, at, base, fixed);
      ModeEntry(m, 5, mode32, at, base, fixed);
      ListEnd(at, fixed + ModeEntries(m.modes, base, DEPTHS));
    }

    method FourWords(a: uint16, b: uint16, c: uint16, d: uint16)
      requires Valid() && p + 8 <= SROM_SIZE
      modifies this, srom
      ensures Valid() && p == old(p) + 8 && p % 2 == old(p) % 2 && old(Contents()) <= Contents()
      ensures At(Contents(), old(p), Words4(a, b, c, d))
    {
      hide WordBytes;
      ghost var c0 := Contents();
      Word(a);
      Word(b);
      Word(c);
      Word(d);
      assert Contents() == c0 + WordBytes(a) + WordBytes(b) + WordBytes(c) + WordBytes(d);
      assert Contents() == c0 + Words4(a, b, c, d);
    }

    method TwoLongs(a: uint32, b: uint32)
      requires Valid() && p + 8 <= SROM_SIZE
      modifies this, srom
      ensures Valid() && p == old(p) + 8 && old(Contents()) <= Contents()
      ensures At(Contents(), old(p), LongBytes(a) + LongBytes(b))
    {
      hide LongBytes;
      ghost var c0 := Contents();
      Long(a);
      Long(b);
      assert Contents() == c0 + (LongBytes(a) + LongBytes(b));
    }

    method ListEntry(e: Entry, ghost at: nat, ghost es: seq<Entry>)
      requires Valid() && p + 4 <= SROM_SIZE && OpenList(Contents(), at, es) && (e.Off? ==> e.target >= 0)
      modifies this, srom
      ensures Valid() && p == old(p) + 4 && old(Contents()) <= Contents()
      ensures OpenList(Contents(), at, es + [e])
    {
      match e
      case Off(id, target) => ListOffs(id, target, at, es);
      case Data(id, value) => ListRsrc(id, value, at, es);
    }

    /** A complete list. */
    method EntryList(es: seq<Entry>) returns (at: nat)
      requires Valid() && p + 4 * |es| + 4 <= SROM_SIZE
      requires forall e :: e in es && e.Off? ==> e.target >= 0
      modifies this, srom
      ensures Valid() && at == old(p) && p == at + 4 * |es| + 4 && old(Contents()) <= Contents()
      ensures ListAt(Contents(), at, es)
    {
      hide OpenList, ListAt, Builder.Contents, Builder.Valid;
      at := p;
      OpenNothing(Contents());
      for i := 0 to |es|
        invariant Valid() && p == at + 4 * i && old(Contents()) <= Contents()
        invariant OpenList(Contents(), at, es[..i])
      {
        assert es[i] in es && es[..i + 1] == es[..i] + [es[i]];
        ListEntry(es[i], at, es[..i]);
      }
      assert es[..|es|] == es;
      ListEnd(at, es);
    }

    /** Everything about one monitor; the result is the place of its list. */
    method VMonitor(m: MonitorDesc, sh: Shared) returns (ret: nat)
      requires Valid() && m.Valid() && m.currentMode < |m.modes| && p + MonitorSize(m.modes) <= SROM_SIZE
      modifies this, srom
      ensures Valid() && ret == ListPos(old(p)) && p == old(p) + MonitorSize(m.modes) && old(Contents()) <= Contents()
      ensures MonitorAt(Contents(), old(p), m.modes, sh, m.macFrameBase, InitialRecords(m.modes, m.currentMode))
    {
      hide RecordsAt, DescsAt, ListAt, MonitorAt, InitialRecords, Get32, Rank;
      ghost var recs := InitialRecords(m.modes, m.currentMode);
      var minorBase := p;
      FrameBuffer(m.macFrameBase);
      ghost var c2 := Contents();
      var parms1, parms2, parms4, parms8, parms16, parms32 := AllParms(m, minorBase);
      ghost var c3 := Contents();
      var mode1, mode2, mode4, mode8, mode16, mode32 :=
        AllDescs(minorBase, parms1, parms2, parms4, parms8, parms16, parms32);
      ghost var c4 := Contents();
      ret := p;
      MonitorList(m, sh, minorBase, mode1, mode2, mode4, mode8, mode16, mode32);
      AssembleMonitor(c2, c3, c4, Contents(), minorBase, m.modes, sh, m.macFrameBase, recs);
    }

    /** Frame buffer base, and its size (unspecified). */
    method FrameBuffer(frame: uint32)
      requires Valid() && p + 8 <= SROM_SIZE
      modifies this, srom
      ensures Valid() && p == old(p) + 8 && old(Contents()) <= Contents()
      ensures Get32(Contents(), old(p)) == frame && Get32(Contents(), old(p) + 4) == 0
    {
      hide LongBytes, Get32;
      ghost var c0 := Contents();
      Long(frame);
      Long(0);
      ghost var c2 := Contents();
      assert c2 == c0 + LongBytes(frame) + LongBytes(0);
      LongReadsBack(c2, |c0|, frame);
      LongReadsBack(c2, |c0| + 4, 0);
    }

    /** The texts of the board sResource. */
    method BoardTexts(l: Literals) returns (vendorId: nat, revLevel: nat, partNum: nat, date: nat)
      requires Valid() && p % 2 == 0
      requires p + Padded(|l.vendorId|) + Padded(|l.revLevel|) + Padded(|l.partNum|) + Padded(|l.date|) <= SROM_SIZE
      modifies this, srom
      ensures Valid() && old(Contents()) <= Contents()
      ensures p == old(p) + Padded(|l.vendorId|) + Padded(|l.revLevel|) + Padded(|l.partNum|) + Padded(|l.date|)
      ensures p % 2 == 0
      ensures vendorId <= p && revLevel <= p && partNum <= p && date <= p
      ensures At(Contents(), vendorId, l.vendorId + [0]) && At(Contents(), revLevel, l.revLevel + [0])
      ensures At(Contents(), partNum, l.partNum + [0]) && At(Contents(), date, l.date + [0])
    {
      hide At, Padded;
      vendorId := p;
      String(l.vendorId);
      ghost var c1 := Contents();
      revLevel := p;
      String(l.revLevel);
      ghost var c2 := Contents();
      partNum := p;
      String(l.partNum);
      ghost var c3 := Contents();
      date := p;
      String(l.date);
      AtStays(c1, Contents(), vendorId, l.vendorId + [0]);
      AtStays(c2, Contents(), revLevel, l.revLevel + [0]);
      AtStays(c3, Contents(), partNum, l.partNum + [0]);
    }

    /** Board sResource. */
    method Board(l: Literals) returns (list: nat, ghost b: BoardPlaces)
      requires Valid() && p % 2 == 0 && p + BoardSize(l) <= SROM_SIZE
      modifies this, srom
      ensures Valid() && p == old(p) + BoardSize(l) && old(Contents()) <= Contents()
      ensures list == b.list <= p && BoardAt(Contents(), b, l)
    {
      hide ListAt, At, Words4, Padded;
      var boardType := p;
      FourWords(1, 0, 0, 0);
      ghost var c1 := Contents();
      var boardName := p;
      String(l.boardName);
      ghost var c2 := Contents();
      var vendorId, revLevel, partNum, date := BoardTexts(l);
      ghost var c6 := Contents();
      var vendorInfo := EntryList([Off(0x01, vendorId), Off(0x03, revLevel), Off(0x04, partNum), Off(0x05, date)]);
      ghost var c7 := Contents();
      list := EntryList([Off(0x01, boardType), Off(0x02, boardName), Data(0x20, 0x4232), Off(0x24, vendorInfo)]);
      b := BoardPlaces(boardType, boardName, vendorId, revLevel, partNum, date, vendorInfo, list);
      ghost var c := Contents();
      AtStays(c1, c, boardType, Words4(1, 0, 0, 0));
      AtStays(c2, c, boardName, l.boardName + [0]);
      AtStays(c6, c, vendorId, l.vendorId + [0]);
      AtStays(c6, c, revLevel, l.revLevel + [0]);
      AtStays(c6, c, partNum, l.partNum + [0]);
      AtStays(c6, c, date, l.date + [0]);
      ListStays(c7, c, vendorInfo, [Off(0x01, vendorId), Off(0x03, revLevel), Off(0x04, partNum), Off(0x05, date)]);
    }

    /** Video type and name, driver and gamma table with their directories. */
    method VideoParts(l: Literals) returns (sh: Shared, ghost driver: nat, ghost gamma: nat)
      requires Valid() && l.Valid() && p % 2 == 0 && p + VideoSize(l) <= SROM_SIZE
      modifies this, srom
      ensures Valid() && p == old(p) + VideoSize(l) && old(Contents()) <= Contents()
      ensures SharedAt(Contents(), sh, driver, gamma, l)
    {
      hide ListAt, At, Words4, Padded;
      var videoType := p;
      FourWords(3, 1, 1, 0x4232);
      ghost var c1 := Contents();
      var videoName := p;
      String(l.videoName);
      ghost var c2 := Contents();
      var videoDrvr := p;
      BlockAt(l.videoDriver);
      ghost var c3 := Contents();
      var vidDrvrDir := EntryList([Off(0x02, videoDrvr)]);
      ghost var c4 := Contents();
      var defaultGamma := p;
      BlockAt(l.gamma);
      ghost var c5 := Contents();
      var gammaDir := EntryList([Off(0x80, defaultGamma)]);
      ghost var c := Contents();
      sh := Shared(videoType, videoName, vidDrvrDir, gammaDir);
      driver, gamma := videoDrvr, defaultGamma;
      AtStays(c1, c, videoType, Words4(3, 1, 1, 0x4232));
      AtStays(c2, c, videoName, l.videoName + [0]);
      AtStays(c3, c, videoDrvr, l.videoDriver);
      ListStays(c4, c, vidDrvrDir, [Off(0x02, videoDrvr)]);
      AtStays(c5, c, defaultGamma, l.gamma);
    }

    method BlockAt(data: Bytes)
      requires Valid() && p + |data| <= SROM_SIZE
      modifies this, srom
      ensures Valid() && p == old(p) + |data| && old(Contents()) <= Contents() && At(Contents(), old(p), data)
    {
      Block(data);
    }

    /** CPU sResource. */
    method Cpu(l: Literals) returns (list: nat, ghost places: CpuPlaces)
      requires Valid() && p % 2 == 0 && p + CpuSize(l) <= SROM_SIZE
      modifies this, srom
      ensures Valid() && p == old(p) + CpuSize(l) && old(Contents()) <= Contents()
      ensures list == places.list <= p && CpuAt(Contents(), places, l) && CpuFrom(places, old(p))
    {
      hide ListAt, At, Words4, LongBytes, Padded;
      var cpuType := p;
      FourWords(10, 3, 0, 24);
      ghost var c1 := Contents();
      var cpuName := p;
      String(l.cpuName);
      ghost var c2 := Contents();
      var cpuMajor := p;
      TwoLongs(0, 0x7fff_ffff);
      ghost var c3 := Contents();
      var cpuMinor := p;
      TwoLongs(0xf080_0000, 0xf0ff_ffff);
      ghost var c4 := Contents();
      list := EntryList([Off(0x01, cpuType), Off(0x02, cpuName), Off(0x81, cpuMajor), Off(0x82, cpuMinor)]);
      ghost var c := Contents();
      places := CpuPlaces(cpuType, cpuName, cpuMajor, cpuMinor, list);
      AtStays(c1, c, cpuType, Words4(10, 3, 0, 24));
      AtStays(c2, c, cpuName, l.cpuName + [0]);
      AtStays(c3, c, cpuMajor, LongBytes(0) + LongBytes(0x7fff_ffff));
      AtStays(c4, c, cpuMinor, LongBytes(0xf080_0000) + LongBytes(0xf0ff_ffff));
    }

    /** Ethernet sResource. */
    method Ether(l: Literals) returns (list: nat, ghost places: EtherPlaces)
      requires Valid() && l.Valid() && p % 2 == 0 && p + EtherSize(l) <= SROM_SIZE
      modifies this, srom
      ensures Valid() && p == old(p) + EtherSize(l) && old(Contents()) <= Contents()
      ensures list == places.list <= p && EtherAt(Contents(), places, l) && EtherFrom(places, old(p))
    {
      hide ListAt, At, Words4, OpenList, Padded;
      var etherType := p;
      FourWords(4, 1, 1, 0x4232);
      ghost var c1 := Contents();
      var etherName := p;
      String(l.etherName);
      ghost var c2 := Contents();
      var etherDrvr := p;
      BlockAt(l.etherDriver);
      ghost var c3 := Contents();
      var etherDrvrDir := EntryList([Off(0x02, etherDrvr)]);
      ghost var c4 := Contents();
      list := EntryList([Off(0x01, etherType), Off(0x02, etherName), Off(0x04, etherDrvrDir), Data(0x07, 2),
        Data(0x08, 0x4232)]);
      ghost var c := Contents();
      places := EtherPlaces(etherType, etherName, etherDrvr, etherDrvrDir, list);
      AtStays(c1, c, etherType, Words4(4, 1, 1, 0x4232));
      AtStays(c2, c, etherName, l.etherName + [0]);
      AtStays(c3, c, etherDrvr, l.etherDriver);
      ListStays(c4, c, etherDrvrDir, [Off(0x02, etherDrvr)]);
    }

    /** The parts of all monitors, in order. */
    method Monitors(ms: seq<MonitorDesc>, sh: Shared) returns (lists: seq<nat>, ghost parts: seq<Part>)
      requires Valid() && MonitorsReady(ms) && p + SizeOfMonitors(ModesOf(ms)) <= SROM_SIZE
      modifies this, srom
      ensures Valid() && p == old(p) + SizeOfMonitors(ModesOf(ms)) && old(Contents()) <= Contents()
      ensures |parts| == |ms| == |lists| && PartsAt(Contents(), parts, sh, p)
      ensures forall i :: 0 <= i < |ms| ==>
        parts[i] == PartFor(ms[i], parts[i].base) && lists[i] == ListPos(parts[i].base) && parts[i].base >= old(p)
    {
      hide MonitorAt, InitialRecords, MonitorSize, PartsAt, SizeOfMonitors;
      lists, parts := [], [];
      NoParts(Contents(), sh, p);
      assert ModesOf(ms[..0]) == [];
      for i := 0 to |ms|
        invariant Valid() && p == old(p) + SizeOfMonitors(ModesOf(ms[..i])) && old(Contents()) <= Contents()
        invariant |parts| == i == |lists| && PartsAt(Contents(), parts, sh, p)
        invariant MonitorsReady(ms)
        invariant forall k :: 0 <= k < i ==>
          parts[k] == PartFor(ms[k], parts[k].base) && lists[k] == ListPos(parts[k].base) && parts[k].base >= old(p)
      {
        ghost var c := Contents();
        ghost var base := p;
        SizesAddUp(ms, i);
        var list := VMonitor(ms[i], sh);
        lists := lists + [list];
        ghost var part := PartFor(ms[i], base);
        NextPart(c, Contents(), parts, part, sh, base, p);
        parts := parts + [part];
      }
      assert ms[..|ms|] == ms;
    }

    /** The sResource directory. */
    method Directory(board: nat, ms: seq<MonitorDesc>, lists: seq<nat>, cpu: nat, ether: nat, ghost parts: seq<Part>)
      returns (dir: nat)
      requires Valid() && |ms| == |lists| == |parts| && p + 4 * (|ms| + 3) + 4 <= SROM_SIZE
      requires forall i :: 0 <= i < |ms| ==> parts[i].slotId == ms[i].slotId && lists[i] == ListPos(parts[i].base)
      modifies this, srom
      ensures Valid() && dir == old(p) && p == dir + 4 * (|ms| + 3) + 4 && old(Contents()) <= Contents()
      ensures ListAt(Contents(), dir, [Off(0x01, board)] + PartEntries(parts) + [Off(0xf0, cpu), Off(0xf1, ether)])
    {
      hide OpenList, ListAt;
      dir := p;
      OpenNothing(Contents());
      ghost var es: seq<Entry> := [];
      ListOffs(0x01, board, dir, es);
      ghost var first := [Off(0x01, board)];
      assert es + [Off(0x01, board)] == first;
      assert first + PartEntries(parts)[..0] == first;
      for i := 0 to |ms|
        invariant Valid() && p == dir + 4 * (i + 1) && old(Contents()) <= Contents()
        invariant OpenList(Contents(), dir, first + PartEntries(parts)[..i])
      {
        ListOffs(ms[i].slotId, lists[i], dir, first + PartEntries(parts)[..i]);
        assert PartEntries(parts)[..i + 1] == PartEntries(parts)[..i] + [PartEntries(parts)[i]];
        assert first + PartEntries(parts)[..i + 1] == (first + PartEntries(parts)[..i]) + [PartEntries(parts)[i]];
      }
      assert PartEntries(parts)[..|ms|] == PartEntries(parts);
      es := first + PartEntries(parts);
      ListOffs(0xf0, cpu, dir, es);
      ListOffs(0xf1, ether, dir, es + [Off(0xf0, cpu)]);
      assert es + [Off(0xf0, cpu)] + [Off(0xf1, ether)] == es + [Off(0xf0, cpu), Off(0xf1, ether)];
      ListEnd(dir, es + [Off(0xf0, cpu), Off(0xf1, ether)]);
    }

    /** Format/header block. */
    method Header(dir: nat)
      requires Valid() && p + HEADER_SIZE <= SROM_SIZE
      modifies this, srom
      ensures Valid() && p == old(p) + HEADER_SIZE && old(Contents()) <= Contents() && HeaderAt(Contents(), dir)
    {
      hide EntryBytes, LongBytes, WordBytes;
      ghost var c0 := Contents();
      Offs(0, dir);
      Long(p as int + 16);
      Long(0);
      Word(0x0101);
      Long(TEST_PATTERN);
      Word(0x000f);
      HeaderDecodes(c0, dir);
    }
  }

  function AddHeader(s: Bytes, dir: nat): Bytes
    requires |s| + HEADER_SIZE <= SROM_SIZE
  {
    s + EntryBytes(Off(0, dir), |s|) + LongBytes(|s| + 4 + 16) + LongBytes(0) + WordBytes(0x0101) +
      LongBytes(TEST_PATTERN) + WordBytes(0x000f)
  }

  lemma HeaderDecodes(s: Bytes, dir: nat)
    requires |s| + HEADER_SIZE <= SROM_SIZE
    ensures |AddHeader(s, dir)| == |s| + HEADER_SIZE && s <= AddHeader(s, dir) && HeaderAt(AddHeader(s, dir), dir)
  {
    hide EntryBytes, LongBytes, WordBytes, Get16, Get32;
    var r, n := AddHeader(s, dir), |s|;
    assert At(r, n, EntryBytes(Off(0, dir), n)) && At(r, n + 4, LongBytes(n + 20));
    assert At(r, n + 12, WordBytes(0x0101)) && At(r, n + 14, LongBytes(TEST_PATTERN)) &&
      At(r, n + 18, WordBytes(0x000f));
    LongReadsBack(r, n + 4, n + 20);
    WordReadsBack(r, n + 12, 0x0101);
    LongReadsBack(r, n + 14, TEST_PATTERN);
    WordReadsBack(r, n + 18, 0x000f);
  }

  /** What the image should say about a monitor placed at `base`. */
  ghost function PartFor(m: MonitorDesc, base: nat): Part
    requires m.currentMode < |m.modes|
    reads m
  {
    Part(m.slotId, m.modes, base, m.macFrameBase, InitialRecords(m.modes, m.currentMode))
  }

  ghost predicate MonitorsReady(ms: seq<MonitorDesc>)
    reads ms
  {
    forall i :: 0 <= i < |ms| ==> ms[i].Valid() && ms[i].currentMode < |ms[i].modes|
  }

  function ModesOf(ms: seq<MonitorDesc>): (r: seq<seq<Mode>>)
    ensures |r| == |ms| && forall i :: 0 <= i < |r| ==> r[i] == ms[i].modes
  {
    seq(|ms|, i requires 0 <= i < |ms| => ms[i].modes)
  }

  /** The parts lie one after the other, all before `end`. */
  predicate PartsAt(s: Bytes, parts: seq<Part>, sh: Shared, end: nat) {
    && (forall i :: 0 <= i < |parts| ==> PartAt(s, parts[i], sh) && End(parts[i]) <= end)
    && (forall i, j :: 0 <= i < j < |parts| ==> End(parts[i]) <= parts[j].base)
  }

  lemma NoParts(s: Bytes, sh: Shared, end: nat)
    ensures PartsAt(s, [], sh, end) && SizeOfMonitors([]) == 0
  {
  }

  lemma NextPart(s: Bytes, s': Bytes, parts: seq<Part>, p: Part, sh: Shared, end: nat, end': nat)
    requires PartsAt(s, parts, sh, end) && s <= s' && PartAt(s', p, sh) && p.base == end && End(p) <= end'
    ensures PartsAt(s', parts + [p], sh, end')
  {
    hide MonitorAt, MonitorSize;
    PartsStay(s, s', parts, sh, end);
  }

  lemma PartsStay(s: Bytes, s': Bytes, parts: seq<Part>, sh: Shared, end: nat)
    requires PartsAt(s, parts, sh, end) && s <= s'
    ensures PartsAt(s', parts, sh, end)
  {
    hide MonitorAt, MonitorSize;
    forall i | 0 <= i < |parts| ensures PartAt(s', parts[i], sh) {
      var q := parts[i];
      assert PartAt(s, q, sh);
      MonitorStays(s, s', q.base, q.modes, sh, q.frame, q.recs);
    }
  }

  lemma SizesAddUp(ms: seq<MonitorDesc>, i: nat)
    requires i < |ms|
    ensures SizeOfMonitors(ModesOf(ms[..i + 1])) == SizeOfMonitors(ModesOf(ms[..i])) + MonitorSize(ms[i].modes)
    ensures SizeOfMonitors(ModesOf(ms[..i + 1])) <= SizeOfMonitors(ModesOf(ms))
    decreases |ms| - i
  {
    hide MonitorSize;
    assert ModesOf(ms[..i + 1])[..i] == ModesOf(ms[..i]);
    if i + 1 < |ms| {
      SizesAddUp(ms, i + 1);
    } else {
      assert ms[..i + 1] == ms;
    }
  }

  lemma AssembleMonitor(c2: Bytes, c3: Bytes, c4: Bytes, c: Bytes,
                        base: nat, modes: seq<Mode>, sh: Shared, frame: uint32, recs: seq<Record>)
    requires c2 <= c3 <= c4 <= c && |recs| == DEPTHS && base + MonitorSize(modes) <= |c|
    requires base + 8 <= |c2| && Get32(c2, base) == frame && Get32(c2, base + 4) == 0
    requires RecordsAt(c3, base, recs, DEPTHS) && DescsAt(c4, base, DEPTHS)
    requires ListAt(c, ListPos(base), MonitorEntries(modes, base, sh))
    ensures MonitorAt(c, base, modes, sh, frame, recs)
  {
    hide RecordAt, ListAt, Get32;
    Get32Stays(c2, c, base);
    Get32Stays(c2, c, base + 4);
    forall d | 0 <= d < DEPTHS ensures RecordAt(c, RecordPos(base, d), recs[d], d) {
      RecordStays(c3, c, RecordPos(base, d), recs[d], d);
    }
    forall d | 0 <= d < DEPTHS ensures ListAt(c, DescPos(base, d), DescEntries(base, d)) {
      ListStays(c4, c, DescPos(base, d), DescEntries(base, d));
    }
  }

  /** The first n records of a monitor. */
  predicate RecordsAt(s: Bytes, base: nat, recs: seq<Record>, n: nat)
    requires |recs| == DEPTHS && n <= DEPTHS
  {
    forall d :: 0 <= d < n ==> RecordAt(s, RecordPos(base, d), recs[d], d)
  }

  lemma NextRecord(s: Bytes, s': Bytes, base: nat, recs: seq<Record>, n: nat)
    requires |recs| == DEPTHS && n < DEPTHS && RecordsAt(s, base, recs, n) && s <= s'
    requires RecordAt(s', RecordPos(base, n), recs[n], n)
    ensures RecordsAt(s', base, recs, n + 1)
  {
    hide RecordAt;
    forall d | 0 <= d < n ensures RecordAt(s', RecordPos(base, d), recs[d], d) {
      RecordStays(s, s', RecordPos(base, d), recs[d], d);
    }
  }

  predicate DescsAt(s: Bytes, base: nat, n: nat) {
    forall d :: 0 <= d < n ==> ListAt(s, DescPos(base, d), DescEntries(base, d))
  }

  lemma NextDesc(s: Bytes, s': Bytes, base: nat, n: nat)
    requires DescsAt(s, base, n) && s <= s' && ListAt(s', DescPos(base, n), DescEntries(base, n))
    ensures DescsAt(s', base, n + 1)
  {
    hide ListAt;
    forall d | 0 <= d < n ensures ListAt(s', DescPos(base, d), DescEntries(base, d)) {
      ListStays(s, s', DescPos(base, d), DescEntries(base, d));
    }
  }

  lemma RankSteps(modes: seq<Mode>)
    ensures Rank(modes, 0) == 0
    ensures forall d :: 0 <= d < DEPTHS ==> Rank(modes, d) <= Rank(modes, d + 1) <= Rank(modes, d) + 1
    ensures forall d :: 0 <= d <= DEPTHS ==> Rank(modes, d) <= Rank(modes, DEPTHS)
  {
    hide HasDepth;
    assert Rank(modes, 1) <= Rank(modes, 2) <= Rank(modes, 3);
    assert Rank(modes, 3) <= Rank(modes, 4) <= Rank(modes, 5);
    assert Rank(modes, 5) <= Rank(modes, 6);
  }

  lemma NoModes(modes: seq<Mode>, base: nat, fixed: seq<Entry>)
    ensures fixed + ModeEntries(modes, base, 0) == fixed
  {
  }

  lemma StringEmitted(s: Bytes, str: Bytes, s': Bytes)
    requires s + str + [0] <= s'
    ensures s <= s' && At(s', |s|, str + [0])
  {
    var t := s + str + [0];
    assert t == s + (str + [0]);
    assert forall i :: 0 <= i < |str| + 1 ==> s'[|s| + i] == t[|s| + i] == (str + [0])[i];
  }

  lemma OpenNothing(s: Bytes)
    ensures OpenList(s, |s|, [])
  {
  }
}
