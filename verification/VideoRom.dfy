/** The declaration ROM at the end of the Mac ROM: installation, checksum and mode switches. */
module VideoRom {
  import opened Options
  import opened MacMemory
  import opened RomBytes
  import opened RomChecksum
  import opened SlotLayout
  import opened SlotImage
  import opened Video
  import opened SlotRom

  /** What the image contains besides the monitors: the places of the other resources, and the
      region between them that the monitors take. */
  datatype Places = Places(board: BoardPlaces, driver: nat, gamma: nat, cpu: CpuPlaces, ether: EtherPlaces, from: nat,
                           to: nat)

  /** Board and video resources lie before the monitors, CPU and Ethernet resources between the
      monitors and the directory. */
  predicate ResourcesAt(s: Bytes, layout: Layout, pl: Places, l: Literals) {
    && pl.from <= pl.to <= layout.dir <= |s|
    && BoardAt(s[..pl.from], pl.board, l) && layout.board == pl.board.list
    && SharedAt(s[..pl.from], layout.shared, pl.driver, pl.gamma, l)
    && CpuAt(s[..layout.dir], pl.cpu, l) && CpuFrom(pl.cpu, pl.to) && layout.cpu == pl.cpu.list
    && EtherAt(s[..layout.dir], pl.ether, l) && EtherFrom(pl.ether, pl.to) && layout.ether == pl.ether.list
    && forall i :: 0 <= i < |layout.parts| ==> pl.from <= layout.parts[i].base && End(layout.parts[i]) <= pl.to
  }

  /** Build the whole image in the temporary buffer. */
  method BuildImage(l: Literals, ms: seq<MonitorDesc>) returns (b: Builder, ghost layout: Layout, ghost pl: Places)
    requires l.Valid() && MonitorsReady(ms) && ImageSize(l, ModesOf(ms)) <= SROM_SIZE
    ensures b.Valid() && fresh(b) && fresh(b.srom) && b.p == ImageSize(l, ModesOf(ms))
    ensures ImageOk(b.Contents(), layout) && ResourcesAt(b.Contents(), layout, pl, l)
    ensures |layout.parts| == |ms|
    ensures forall i :: 0 <= i < |ms| ==> layout.parts[i] == old(PartFor(ms[i], layout.parts[i].base))
  {
    hide BoardAt, SharedAt, CpuAt, EtherAt, CpuFrom, EtherFrom, PartsAt, HeaderAt, ListAt, BoardSize, VideoSize,
      CpuSize, EtherSize,
      SizeOfMonitors, ImageOk, ResourcesAt, Builder.Contents, Builder.Valid, MonitorDesc.Valid;
    EvenSizes(l, ModesOf(ms));
    b := new Builder();
    var board, boardPlaces := b.Board(l);
    ghost var c1 := b.Contents();
    var sh, driver, gamma := b.VideoParts(l);
    ghost var c2 := b.Contents();
    var lists, parts := b.Monitors(ms, sh);
    assert forall i :: 0 <= i < |ms| ==>
      parts[i] == old(PartFor(ms[i], parts[i].base)) && lists[i] == ListPos(parts[i].base);
    ghost var c3 := b.Contents();
    var cpu, cpuPlaces := b.Cpu(l);
    ghost var c4 := b.Contents();
    var ether, etherPlaces := b.Ether(l);
    ghost var c5 := b.Contents();
    PartsStay(c3, c5, parts, sh, |c3|);
    layout := FinishImage(b, board, ms, lists, cpu, ether, sh, parts, |c3|);
    pl := Places(boardPlaces, driver, gamma, cpuPlaces, etherPlaces, |c2|, |c3|);
    PartsEnd(c3, parts, sh, |c3|);
    ResourcesStay(c1, c2, c3, c4, c5, b.Contents(), layout, pl, l);
  }

  lemma PartsEnd(s: Bytes, parts: seq<Part>, sh: Shared, end: nat)
    requires PartsAt(s, parts, sh, end)
    ensures forall i :: 0 <= i < |parts| ==> End(parts[i]) <= end
  {
    hide PartAt;
  }

  /** Emit the directory and the header block behind all the resources. */
  method FinishImage(b: Builder, board: nat, ms: seq<MonitorDesc>, lists: seq<nat>, cpu: nat, ether: nat,
                     ghost sh: Shared, ghost parts: seq<Part>, ghost end: nat)
    returns (ghost layout: Layout)
    requires b.Valid() && |ms| == |lists| == |parts| && b.p + 4 * (|ms| + 3) + 4 + HEADER_SIZE <= SROM_SIZE
    requires forall i :: 0 <= i < |ms| ==> parts[i].slotId == ms[i].slotId && lists[i] == ListPos(parts[i].base)
    requires end <= b.p && PartsAt(b.Contents(), parts, sh, end) && board <= b.p && cpu <= b.p && ether <= b.p
    modifies b, b.srom
    ensures b.Valid() && b.p == old(b.p) + 4 * (|ms| + 3) + 4 + HEADER_SIZE && old(b.Contents()) <= b.Contents()
    ensures layout == Layout(sh, board, cpu, ether, old(b.p), parts) && ImageOk(b.Contents(), layout)
  {
    hide PartsAt, HeaderAt, ListAt, ImageOk, Builder.Contents, Builder.Valid;
    ghost var c0 := b.Contents();
    var dir := b.Directory(board, ms, lists, cpu, ether, parts);
    ghost var c1 := b.Contents();
    b.Header(dir);
    layout := Layout(sh, board, cpu, ether, dir, parts);
    ImageAssembled(c0, c1, b.Contents(), layout, end);
  }

  lemma ResourcesStay(c1: Bytes, c2: Bytes, c3: Bytes, c4: Bytes, c5: Bytes, c: Bytes, layout: Layout, pl: Places,
                      l: Literals)
    requires c1 <= c2 <= c3 <= c4 <= c5 <= c && pl.from == |c2| && pl.to == |c3| && layout.dir == |c5|
    requires BoardAt(c1, pl.board, l) && layout.board == pl.board.list
    requires SharedAt(c2, layout.shared, pl.driver, pl.gamma, l)
    requires CpuAt(c4, pl.cpu, l) && CpuFrom(pl.cpu, |c3|) && layout.cpu == pl.cpu.list
    requires EtherAt(c5, pl.ether, l) && EtherFrom(pl.ether, |c4|) && layout.ether == pl.ether.list
    requires forall i :: 0 <= i < |layout.parts| ==> |c2| <= layout.parts[i].base && End(layout.parts[i]) <= |c3|
    ensures ResourcesAt(c, layout, pl, l)
  {
    hide BoardAt, SharedAt, CpuAt, EtherAt, End;
    assert c[..|c2|] == c2 && c[..|c5|] == c5;
    BoardStays(c1, c2, pl.board, l);
    CpuStays(c4, c5, pl.cpu, l);
  }

  /** The resources stay when nothing outside the monitors' region changes before the directory. */
  lemma ResourcesFrame(s: Bytes, s': Bytes, layout: Layout, layout': Layout, pl: Places, l: Literals)
    requires ResourcesAt(s, layout, pl, l) && |s'| == |s|
    requires forall x :: 0 <= x < layout.dir && !(pl.from <= x < pl.to) ==> s'[x] == s[x]
    requires layout'.shared == layout.shared && layout'.board == layout.board && layout'.cpu == layout.cpu
    requires layout'.ether == layout.ether && layout'.dir == layout.dir && |layout'.parts| == |layout.parts|
    requires forall i :: 0 <= i < |layout.parts| ==>
      layout'.parts[i].base == layout.parts[i].base && layout'.parts[i].modes == layout.parts[i].modes
    ensures ResourcesAt(s', layout', pl, l)
  {
    hide BoardAt, SharedAt, CpuAt, EtherAt, MonitorSize;
    var n := layout.dir;
    assert s'[..pl.from] == s[..pl.from];
    CpuFrame(s[..n], s'[..n], pl.cpu, l, pl.to);
    EtherFrame(s[..n], s'[..n], pl.ether, l, pl.to);
  }

  lemma CpuFrame(s: Bytes, s': Bytes, c: CpuPlaces, l: Literals, from: nat)
    requires CpuAt(s, c, l) && CpuFrom(c, from) && |s'| == |s| && from <= |s| && SameAt(s, s', from, |s| - from)
    ensures CpuAt(s', c, l)
  {
    hide At, ListAt, Words4, LongBytes;
    AtFits(s, c.kind, Words4(10, 3, 0, 24));
    AtFits(s, c.name, l.cpuName + [0]);
    AtFits(s, c.major, LongBytes(0) + LongBytes(0x7fff_ffff));
    AtFits(s, c.minor, LongBytes(0xf080_0000) + LongBytes(0xf0ff_ffff));
    AtFrame(s, s', c.kind, Words4(10, 3, 0, 24));
    AtFrame(s, s', c.name, l.cpuName + [0]);
    AtFrame(s, s', c.major, LongBytes(0) + LongBytes(0x7fff_ffff));
    AtFrame(s, s', c.minor, LongBytes(0xf080_0000) + LongBytes(0xf0ff_ffff));
    ListBehind(s, s', c.list, [Off(0x01, c.kind), Off(0x02, c.name), Off(0x81, c.major), Off(0x82, c.minor)], from);
  }

  lemma EtherFrame(s: Bytes, s': Bytes, e: EtherPlaces, l: Literals, from: nat)
    requires EtherAt(s, e, l) && EtherFrom(e, from) && |s'| == |s| && from <= |s| && SameAt(s, s', from, |s| - from)
    ensures EtherAt(s', e, l)
  {
    hide At, ListAt, Words4;
    AtFits(s, e.kind, Words4(4, 1, 1, 0x4232));
    AtFits(s, e.name, l.etherName + [0]);
    AtFits(s, e.driver, l.etherDriver);
    AtFrame(s, s', e.kind, Words4(4, 1, 1, 0x4232));
    AtFrame(s, s', e.name, l.etherName + [0]);
    AtFrame(s, s', e.driver, l.etherDriver);
    ListBehind(s, s', e.drvrDir, [Off(0x02, e.driver)], from);
    ListBehind(s, s', e.list,
      [Off(0x01, e.kind), Off(0x02, e.name), Off(0x04, e.drvrDir), Data(0x07, 2), Data(0x08, 0x4232)], from);
  }

  lemma AtFits(s: Bytes, at: int, b: Bytes)
    requires At(s, at, b)
    ensures 0 <= at && at + |b| <= |s|
  {
  }

  lemma ListBehind(s: Bytes, s': Bytes, at: nat, es: seq<Entry>, from: nat)
    requires ListAt(s, at, es) && from <= at && |s'| == |s| && from <= |s| && SameAt(s, s', from, |s| - from)
    ensures ListAt(s', at, es)
  {
    ListFrame(s, s', at, es);
  }

  lemma EvenSizes(l: Literals, ms: seq<seq<Mode>>)
    requires l.Valid()
    ensures BoardSize(l) % 2 == 0 && VideoSize(l) % 2 == 0 && CpuSize(l) % 2 == 0 && SizeOfMonitors(ms) % 2 == 0
  {
    hide Padded, MonitorSize;
    SizesEven(ms);
    var texts, details := Padded(|l.boardName|) + Padded(|l.vendorId|), Padded(|l.revLevel|) + Padded(|l.partNum|);
    EvenSum(Padded(|l.boardName|), Padded(|l.vendorId|));
    EvenSum(Padded(|l.revLevel|), Padded(|l.partNum|));
    EvenSum(details, Padded(|l.date|));
    EvenSum(texts, details + Padded(|l.date|));
    EvenSum(texts + (details + Padded(|l.date|)), 48);
    EvenSum(|l.videoDriver|, |l.gamma|);
    EvenSum(Padded(|l.videoName|), |l.videoDriver| + |l.gamma|);
  }

  lemma EvenSum(a: nat, b: nat)
    requires a % 2 == 0 && b % 2 == 0
    ensures (a + b) % 2 == 0
  {
  }

  lemma {:induction false} SizesEven(ms: seq<seq<Mode>>)
    ensures SizeOfMonitors(ms) % 2 == 0
  {
    if ms != [] {
      SizesEven(ms[..|ms| - 1]);
    }
  }

  lemma ImageAssembled(c3: Bytes, c6: Bytes, c: Bytes, l: Layout, end: nat)
    requires c3 <= c6 <= c && |c| <= SROM_SIZE && |c| == |c6| + HEADER_SIZE
    requires PartsAt(c3, l.parts, l.shared, end) && end <= l.dir
    requires ListAt(c6, l.dir, DirEntries(l)) && l.dir + 4 * (|l.parts| + 3) + 4 == |c6|
    requires HeaderAt(c, l.dir) && l.board <= |c| && l.cpu <= |c| && l.ether <= |c|
    ensures ImageOk(c, l)
  {
    hide ListAt, HeaderAt, PartAt, MonitorSize;
    PartsStay(c3, c, l.parts, l.shared, end);
    ListStays(c6, c, l.dir, DirEntries(l));
  }

  lemma BoardStays(s: Bytes, s': Bytes, b: BoardPlaces, l: Literals)
    requires BoardAt(s, b, l) && s <= s'
    ensures BoardAt(s', b, l)
  {
    hide At, ListAt, Words4;
    AtStays(s, s', b.kind, Words4(1, 0, 0, 0));
    AtStays(s, s', b.name, l.boardName + [0]);
    AtStays(s, s', b.vendorId, l.vendorId + [0]);
    AtStays(s, s', b.revLevel, l.revLevel + [0]);
    AtStays(s, s', b.partNum, l.partNum + [0]);
    AtStays(s, s', b.date, l.date + [0]);
    ListStays(s, s', b.info, [Off(0x01, b.vendorId), Off(0x03, b.revLevel), Off(0x04, b.partNum), Off(0x05, b.date)]);
    ListStays(s, s', b.list, [Off(0x01, b.kind), Off(0x02, b.name), Data(0x20, 0x4232), Off(0x24, b.info)]);
  }

  lemma CpuStays(s: Bytes, s': Bytes, c: CpuPlaces, l: Literals)
    requires CpuAt(s, c, l) && s <= s'
    ensures CpuAt(s', c, l)
  {
    hide At, ListAt, Words4, LongBytes;
    AtStays(s, s', c.kind, Words4(10, 3, 0, 24));
    AtStays(s, s', c.name, l.cpuName + [0]);
    AtStays(s, s', c.major, LongBytes(0) + LongBytes(0x7fff_ffff));
    AtStays(s, s', c.minor, LongBytes(0xf080_0000) + LongBytes(0xf0ff_ffff));
    ListStays(s, s', c.list, [Off(0x01, c.kind), Off(0x02, c.name), Off(0x81, c.major), Off(0x82, c.minor)]);
  }

  /** The first n bytes are the same. */
  ghost predicate SameUpTo(s: Bytes, s': Bytes, n: int) {
    |s| == |s'| && forall k :: 0 <= k < n && k < |s| ==> s'[k] == s[k]
  }

  lemma SameUpToTrans(a: Bytes, b: Bytes, c: Bytes, n: int)
    requires SameUpTo(a, b, n) && SameUpTo(b, c, n)
    ensures SameUpTo(a, c, n)
  {
  }

  lemma NoCrc(s: Bytes)
    ensures Crc(s[..0]) == 0
  {
  }

  /** The part says what a monitor's freshly built description says. */
  ghost predicate AsBuilt(p: Part, m: MonitorDesc)
    reads m
  {
    m.currentMode < |m.modes| && p == PartFor(m, p.base)
  }

  class MacRom {
    const rom: array<byte>
    const monitors: seq<MonitorDesc>
    var slotRomSize: nat
    ghost var layout: Layout
    ghost var places: Places
    ghost var literals: Literals

    /** The declaration ROM occupies the end of the Mac ROM. */
    ghost function Image(): (r: Bytes)
      requires slotRomSize <= rom.Length
      reads `slotRomSize, rom
      ensures |r| == slotRomSize
    {
      rom[rom.Length - slotRomSize..]
    }

    /** The image is a well-formed declaration ROM with a correct checksum. */
    ghost predicate Intact()
      reads this, rom
    {
      slotRomSize <= rom.Length && ImageOk(Image(), layout) && GoodIds(layout.parts) && Verifies(Image())
    }

    /** It holds the board, video, CPU and Ethernet resources. */
    ghost predicate Complete()
      reads this, rom
    {
      slotRomSize <= rom.Length && ResourcesAt(Image(), layout, places, literals)
    }

    /** It describes the monitors: their slot IDs, modes and frame buffer bases. */
    ghost predicate Describes()
      reads this, monitors
    {
      && |layout.parts| == |monitors|
      && (forall i, j :: 0 <= i < j < |monitors| ==> monitors[i] != monitors[j])
      && (forall i :: 0 <= i < |monitors| ==> DescribesOne(layout.parts[i], monitors[i]))
    }

    static ghost predicate DescribesOne(p: Part, m: MonitorDesc)
      reads m
    {
      Names(p, m) && m.currentMode < |m.modes| && p.frame == m.macFrameBase
    }

    static ghost predicate Names(p: Part, m: MonitorDesc)
      reads m
    {
      m.Valid() && p.slotId == m.slotId && p.modes == m.modes
    }

    ghost predicate Valid()
      reads this, rom, monitors
    {
      Intact() && Describes()
    }

    constructor (rom: array<byte>, monitors: seq<MonitorDesc>)
      ensures this.rom == rom && this.monitors == monitors && slotRomSize == 0
    {
      this.rom, this.monitors, this.slotRomSize := rom, monitors, 0;
    }

    /** Build the image and install it in a ROM that has room for it. */
    method InstallSlotROM(l: Literals)
      requires l.Valid() && MonitorsReady(monitors) && ImageSize(l, ModesOf(monitors)) <= SROM_SIZE
      requires ImageSize(l, ModesOf(monitors)) <= rom.Length
      requires forall i, j :: 0 <= i < j < |monitors| ==>
        monitors[i] != monitors[j] && monitors[i].slotId != monitors[j].slotId
      requires forall i :: 0 <= i < |monitors| ==> monitors[i].slotId != 0x01 && monitors[i].slotId != END_OF_LIST
      modifies this, rom
      ensures slotRomSize == ImageSize(l, ModesOf(monitors)) && Valid() && Complete() && literals == l
      ensures |layout.parts| == |monitors| && forall i :: 0 <= i < |monitors| ==> AsBuilt(layout.parts[i], monitors[i])
      ensures SameUpTo(old(rom[..]), rom[..], rom.Length - slotRomSize)
    {
      hide ImageOk, Verifies, ResourcesAt, GoodIds, PartFor, ImageSize, Checksummed, Intact, Complete, DescribesOne,
        MonitorDesc.Valid;
      var b, lay, pl := BuildImage(l, monitors);
      PartsDescribe(lay.parts, monitors);
      Install(b, lay, pl, l);
    }

    /** Copy a built image to the end of the ROM and calculate its checksum. */
    method Install(b: Builder, ghost lay: Layout, ghost pl: Places, ghost l: Literals)
      requires b.Valid() && ImageOk(b.Contents(), lay) && GoodIds(lay.parts) && b.p <= rom.Length && b.srom != rom
      modifies this, rom
      ensures slotRomSize == b.p && layout == lay && places == pl && literals == l && Intact()
      ensures old(ResourcesAt(b.Contents(), lay, pl, l)) ==> Complete()
      ensures SameUpTo(old(rom[..]), rom[..], rom.Length - slotRomSize)
    {
      hide ImageOk, Verifies, GoodIds, Checksummed, ResourcesAt, SameUpTo, OnlyPatched;
      ghost var r0, r1 := rom[..], [];
      slotRomSize, layout, places, literals := b.p, lay, pl, l;
      CopyImage(b);
      r1 := rom[..];
      Rechecksum();
      SameUpToTrans(r0, r1, rom[..], rom.Length - slotRomSize);
      if ResourcesAt(b.Contents(), lay, pl, l) {
        RomIsLarge(b.Contents(), lay);
        ChecksummedResources(b.Contents(), Image(), lay, pl, l);
      }
    }

    method CopyImage(b: Builder)
      requires b.Valid() && slotRomSize == b.p <= rom.Length && b.srom != rom
      modifies rom
      ensures Image() == b.Contents()
      ensures SameUpTo(old(rom[..]), rom[..], rom.Length - slotRomSize)
    {
      var at := rom.Length - slotRomSize;
      forall i | 0 <= i < slotRomSize {
        rom[at + i] := b.srom[i];
      }
    }

    /** Store a long word at an offset into the image. */
    method PatchLong(at: nat, v: uint32)
      requires slotRomSize <= rom.Length && at + 4 <= slotRomSize
      modifies rom
      ensures Image() == Put(old(Image()), at, LongBytes(v))
      ensures SameUpTo(old(rom[..]), rom[..], rom.Length - slotRomSize)
    {
      var p := rom.Length - slotRomSize + at;
      rom[p] := v / 0x100_0000;
      rom[p + 1] := v / 0x1_0000 % 256;
      rom[p + 2] := v / 0x100 % 256;
      rom[p + 3] := v % 256;
    }

    /** Store a word at an offset into the image. */
    method PatchWord(at: nat, v: uint16)
      requires slotRomSize <= rom.Length && at + 2 <= slotRomSize
      modifies rom
      ensures Image() == Put(old(Image()), at, WordBytes(v))
      ensures SameUpTo(old(rom[..]), rom[..], rom.Length - slotRomSize)
    {
      var p := rom.Length - slotRomSize + at;
      rom[p] := v / 256;
      rom[p + 1] := v % 256;
    }

    /** Recalculate the checksum in place. */
    method ChecksumSlotROM()
      requires HEADER_SIZE <= slotRomSize <= rom.Length
      modifies rom
      ensures Image() == Checksummed(old(Image()))
      ensures SameUpTo(old(rom[..]), rom[..], rom.Length - slotRomSize)
    {
      hide Put, LongBytes, WithField, Crc, Mix, SameUpTo;
      ghost var r0 := rom[..];
      ghost var s := Image();
      PatchLong(slotRomSize - CRC_FROM_END, 0);
      FieldPut(s, 0);
      ghost var r1 := rom[..];
      var p, crc := rom.Length - slotRomSize, 0;
      NoCrc(Image());
      for i := 0 to slotRomSize
        invariant crc == Crc(Image()[..i])
        modifies {}
      {
        CrcStep(Image(), i);
        assert rom[p + i] == Image()[i];
        crc := Mix(crc, rom[p + i]);
      }
      assert Image()[..slotRomSize] == Image();
      PatchLong(slotRomSize - CRC_FROM_END, crc);
      FieldPut(WithField(s, 0), crc);
      FieldOverwritten(s, 0, crc);
      SameUpToTrans(r0, r1, rom[..], rom.Length - slotRomSize);
    }

    /** Recalculate the checksum of a well-formed image. */
    method Rechecksum()
      requires slotRomSize <= rom.Length && ImageOk(Image(), layout)
      modifies rom
      ensures ImageOk(Image(), layout) && Verifies(Image()) && OnlyChecksum(old(Image()), Image())
      ensures SameUpTo(old(rom[..]), rom[..], rom.Length - slotRomSize)
    {
      hide ImageOk, Verifies, Checksummed, OnlyChecksum;
      ImageIsLarge(Image(), layout);
      ChecksumKeepsImage(Image(), layout);
      ChecksumFrame(Image());
      ChecksumSlotROM();
    }

    function Slice(): (r: Bytes)
      requires slotRomSize <= rom.Length
      reads `slotRomSize, rom
      ensures r == Image()
    {
      rom[rom.Length - slotRomSize..]
    }

    /** Find monitor i's frame base and the record of its mode `it` with the Slot Manager's calls,
        patch both in place and recalculate the checksum. */
    method PatchRecord(i: nat, it: nat)
      requires Intact() && i < |monitors| && i < |layout.parts| && Names(layout.parts[i], monitors[i])
      requires it < |monitors[i].modes|
      modifies this`layout, rom
      ensures Intact() && (old(Complete()) ==> Complete())
      ensures monitors[i].modes[it].depth < |old(layout).parts[i].recs|
      ensures layout == Switched(old(layout), i, monitors[i].modes[it].depth, monitors[i].macFrameBase,
        RecordOf(monitors[i].modes[it]))
      ensures OnlyPatched(old(Image()), Image(), layout.parts[i].base,
        RecordPos(layout.parts[i].base, monitors[i].modes[it].depth))
      ensures SameUpTo(old(rom[..]), rom[..], rom.Length - slotRomSize)
    {
      hide ImageOk, ResourcesAt, Verifies, GoodIds, Checksummed, Put, FindResource, FindRecord, FindFrameBase,
        RecordAt, HasDepth, Switched,
        AppleMode, Image, Slice, SameUpTo, OnlyPatched, OnlyChecksum;
      var m := monitors[i];
      var mode, frame := m.modes[it], m.macFrameBase;
      ghost var s, l, d, v := Image(), layout, mode.depth, RecordOf(mode);
      ghost var r0, n := rom[..], rom.Length - slotRomSize;
      ModeIsListed(m.modes, it);
      SwitchReads(s, l, i, d, frame);
      PatchKeepsImage(s, l, i, d, frame, v);
      var minorBase := FindFrameBase(Slice(), m.slotId);
      PatchLong(minorBase.value, frame);
      ghost var r1 := rom[..];
      var p := FindRecord(Slice(), m.slotId, m.appleModeForDepth[mode.depth]);
      PatchFields(p.value, RecordOf(mode));
      ghost var s2, r2 := Image(), rom[..];
      layout := Switched(l, i, d, frame, v);
      Rechecksum();
      SameUpToTrans(r0, r1, r2, n);
      SameUpToTrans(r0, r2, rom[..], n);
      SwitchedFacts(l, i, d, frame, v);
      OnlyPatchedTrans(s, s2, Image(), l.parts[i].base, RecordPos(l.parts[i].base, d));
      if old(Complete()) {
        RomIsLarge(s, l);
        PatchedResources(s, Image(), l, i, d, frame, v, places, literals);
      }
    }

    /** Patch a record's row bytes, height and width. */
    method PatchFields(p: nat, v: Record)
      requires slotRomSize <= rom.Length && p + RECORD_SIZE <= slotRomSize
      modifies rom
      ensures Image() == Put(Put(Put(old(Image()), p + 8, WordBytes(v.rowBytes)), p + 14, WordBytes(v.height)), p + 16,
        WordBytes(v.width))
      ensures SameUpTo(old(rom[..]), rom[..], rom.Length - slotRomSize)
    {
      hide Put, Image, SameUpTo, WordBytes;
      ghost var r0, n := rom[..], rom.Length - slotRomSize;
      PatchWord(p + 8, v.rowBytes);
      ghost var r1 := rom[..];
      PatchWord(p + 14, v.height);
      ghost var r2 := rom[..];
      PatchWord(p + 16, v.width);
      SameUpToTrans(r0, r1, r2, n);
      SameUpToTrans(r0, r2, rom[..], n);
    }

    /** Switch monitor i to its mode `it`, whose frame buffer lies at `frame`: afterwards the image
        is again a well-formed declaration ROM with a correct checksum that describes the monitors
        and holds the other resources it held, a reader finds the new frame base and, for the mode's depth,
        a record with the mode's row bytes, height and width, and no byte outside these fields and
        the checksum has changed. */
    method SwitchMode(i: nat, it: nat, frame: uint32)
      requires Valid() && i < |monitors| && it < |monitors[i].modes|
      modifies this`layout, rom, monitors[i]
      ensures Valid() && monitors[i].currentMode == it && monitors[i].macFrameBase == frame
      ensures old(Complete()) ==> Complete()
      ensures monitors[i].modes[it].depth < |old(layout).parts[i].recs|
      ensures layout == Switched(old(layout), i, monitors[i].modes[it].depth, frame, RecordOf(monitors[i].modes[it]))
      ensures Shows(Image(), monitors[i].slotId, monitors[i].modes, it, frame)
      ensures OnlyPatched(old(Image()), Image(), layout.parts[i].base,
        RecordPos(layout.parts[i].base, monitors[i].modes[it].depth))
      ensures SameUpTo(old(rom[..]), rom[..], rom.Length - slotRomSize)
    {
      hide ImageOk, Complete, ResourcesAt, Verifies, GoodIds, Rank, HasDepth, AppleMode, FindFrameBase, FindRecord,
        FindResource, RecordAt, RecordPos, Get32, Image, OnlyPatched, SameUpTo;
      var m := monitors[i];
      m.currentMode, m.macFrameBase := it, frame;
      PatchRecord(i, it);
      ModeIsListed(m.modes, it);
      ReaderFindsRecords(Image(), layout, i, m.modes[it].depth);
    }
  }

  /** Install a ROM for the monitors created in order; their slot IDs are good because no more than
      nine fit into the image. */
  method InstallMonitors(rom: array<byte>, list: MonitorList, l: Literals) returns (r: MacRom)
    requires list.Valid() && l.Valid() && MonitorsReady(list.monitors)
    requires ImageSize(l, ModesOf(list.monitors)) <= SROM_SIZE && ImageSize(l, ModesOf(list.monitors)) <= rom.Length
    modifies rom
    ensures fresh(r) && r.rom == rom && r.monitors == list.monitors && r.literals == l && r.Valid() && r.Complete()
  {
    hide ImageSize, MonitorsReady, MacRom.Intact, MacRom.Complete, MacRom.Describes;
    var ms := list.monitors;
    ghost var ids := seq<byte>(|ms|, i requires 0 <= i < |ms| => ms[i].slotId);
    FewMonitors(l, ModesOf(ms));
    SlotIdsTellApartIff(ids);
    assert forall i :: 0 <= i < |ms| ==> ids[i] == ms[i].slotId;
    r := new MacRom(rom, ms);
    r.InstallSlotROM(l);
  }

  lemma FewMonitors(l: Literals, ms: seq<seq<Mode>>)
    requires ImageSize(l, ms) <= SROM_SIZE
    ensures |ms| <= 9
  {
    hide BoardSize, VideoSize, CpuSize, EtherSize, SizeOfMonitors;
    MonitorsAreLarge(ms);
  }

  lemma {:induction false} MonitorsAreLarge(ms: seq<seq<Mode>>)
    ensures SizeOfMonitors(ms) >= 440 * |ms|
  {
    if ms != [] {
      MonitorsAreLarge(ms[..|ms| - 1]);
    }
  }

  /** The two images differ at most in the checksum field. */
  predicate OnlyChecksum(s: Bytes, s': Bytes) {
    |s'| == |s| && forall x :: 0 <= x < |s| && !(|s| - CRC_FROM_END <= x < |s| - CRC_FROM_END + 4) ==> s'[x] == s[x]
  }

  lemma ChecksumFrame(s: Bytes)
    requires |s| >= CRC_FROM_END
    ensures OnlyChecksum(s, Checksummed(s))
  {
    hide Crc;
  }

  lemma OnlyPatchedTrans(s: Bytes, s2: Bytes, s3: Bytes, base: nat, rec: nat)
    requires OnlyPatched(s, s2, base, rec) && OnlyChecksum(s2, s3)
    ensures OnlyPatched(s, s3, base, rec)
  {
  }

  lemma SwitchedFacts(l: Layout, i: nat, d: nat, frame: uint32, v: Record)
    requires GoodIds(l.parts) && i < |l.parts| && d < |l.parts[i].recs|
    ensures GoodIds(Switched(l, i, d, frame, v).parts) && |Switched(l, i, d, frame, v).parts| == |l.parts|
    ensures Switched(l, i, d, frame, v).parts[i].base == l.parts[i].base
  {
  }

  /** A mode switch keeps all other resources. */
  lemma PatchedResources(s: Bytes, s': Bytes, l: Layout, i: nat, d: nat, frame: uint32, v: Record, pl: Places,
                         lit: Literals)
    requires i < |l.parts| && d < DEPTHS && d < |l.parts[i].recs| && ResourcesAt(s, l, pl, lit)
    requires l.dir <= |s| - HEADER_SIZE
    requires OnlyPatched(s, s', l.parts[i].base, RecordPos(l.parts[i].base, d))
    ensures ResourcesAt(s', Switched(l, i, d, frame, v), pl, lit)
  {
    hide BoardAt, SharedAt, CpuAt, EtherAt, CpuFrom, EtherFrom, Rank;
    ResourcesFrame(s, s', l, Switched(l, i, d, frame, v), pl, lit);
  }

  lemma ChecksummedResources(s: Bytes, s': Bytes, l: Layout, pl: Places, lit: Literals)
    requires ResourcesAt(s, l, pl, lit) && l.dir <= |s| - HEADER_SIZE && OnlyChecksum(s, s')
    ensures ResourcesAt(s', l, pl, lit)
  {
    hide BoardAt, SharedAt, CpuAt, EtherAt, CpuFrom, EtherFrom, End;
    ResourcesFrame(s, s', l, l, pl, lit);
  }

  lemma RomIsLarge(s: Bytes, l: Layout)
    requires ImageOk(s, l)
    ensures l.dir <= |s| - HEADER_SIZE
  {
    hide PartAt, ListAt;
  }

  /** What a mode switch stores in the record: row bytes and dimensions modulo 65536. */
  function RecordOf(m: Mode): Record {
    Record(Low16(m.bytesPerRow), Low16(m.y), Low16(m.x))
  }

  /** A reader that looks up the slot ID and the mode's Apple mode finds this frame base and this
      mode's row bytes, height and width. */
  predicate Shows(s: Bytes, slotId: byte, modes: seq<Mode>, it: nat, frame: uint32)
    requires it < |modes| && modes[it].depth < DEPTHS
  {
    var base, rec := FindFrameBase(s, slotId), FindRecord(s, slotId, AppleMode(modes, modes[it].depth));
    && base.Some? && 0 <= base.value && base.value + 4 <= |s| && Get32(s, base.value) == frame
    && rec.Some? && 0 <= rec.value && RecordAt(s, rec.value, RecordOf(modes[it]), modes[it].depth)
  }

  /** What a reader finds then, place by place in the record. */
  lemma ShownFields(s: Bytes, slotId: byte, modes: seq<Mode>, it: nat, frame: uint32) returns (p: nat)
    requires it < |modes| && modes[it].depth < DEPTHS && Shows(s, slotId, modes, it, frame)
    ensures FindRecord(s, slotId, AppleMode(modes, modes[it].depth)) == Some(p) && p + 50 <= |s|
    ensures Get16(s, p + 8) == modes[it].bytesPerRow % 0x1_0000
    ensures Get16(s, p + 14) == modes[it].y % 0x1_0000 && Get16(s, p + 16) == modes[it].x % 0x1_0000
    ensures Get16(s, p + 36) == PixelSize(modes[it].depth)
  {
    hide Get16, Get32, FindRecord, FindFrameBase;
    ModeIsListed(modes, it);
    p := FindRecord(s, slotId, AppleMode(modes, modes[it].depth)).value;
  }

  lemma ModeIsListed(modes: seq<Mode>, it: nat)
    requires it < |modes| && modes[it].depth < DEPTHS
    ensures HasDepth(modes, modes[it].depth) && AppleMode(modes, modes[it].depth) < 256
  {
  }

  /** The layout after monitor i has got another frame base. */
  function Rebased(l: Layout, i: nat, frame: uint32): Layout
    requires i < |l.parts|
  {
    l.(parts := l.parts[i := l.parts[i].(frame := frame)])
  }

  lemma PutFrameKeepsImage(s: Bytes, l: Layout, i: nat, d: nat, frame: uint32)
    requires ImageOk(s, l) && i < |l.parts| && d < DEPTHS && l.parts[i].base + 4 <= |s|
    ensures ImageOk(Put(s, l.parts[i].base, LongBytes(frame)), Rebased(l, i, frame))
  {
    hide MonitorSize, ListAt, RecordAt;
    var p := l.parts[i];
    assert PartAt(s, p, l.shared);
    assert RecordAt(s, RecordPos(p.base, d), p.recs[d], d);
    PatchKeepsImage(s, l, i, d, frame, p.recs[d]);
    assert p.recs[d := p.recs[d]] == p.recs;
    SamePatch(s, p.base, frame, RecordPos(p.base, d), p.recs[d], d);
  }

  /** Patching a record with what it already says changes the frame base only. */
  lemma SamePatch(s: Bytes, base: nat, frame: uint32, rec: nat, v: Record, d: nat)
    requires base + 4 <= rec && RecordAt(s, rec, v, d)
    ensures Patched(s, base, frame, rec, v) == Put(s, base, LongBytes(frame))
  {
    hide LongBytes, Put;
    var s1 := Put(s, base, LongBytes(frame));
    PutBack(s1, rec + 8);
    PutBack(s1, rec + 14);
    PutBack(s1, rec + 16);
  }

  lemma PutBack(s: Bytes, at: nat)
    requires at + 2 <= |s|
    ensures Put(s, at, WordBytes(Get16(s, at))) == s
  {
    assert WordBytes(Get16(s, at)) == [s[at], s[at + 1]];
  }

  /** What the reader finds before a mode switch, and after its first patch. */
  lemma SwitchReads(s: Bytes, l: Layout, i: nat, d: nat, frame: uint32)
    requires ImageOk(s, l) && GoodIds(l.parts) && i < |l.parts| && d < DEPTHS && HasDepth(l.parts[i].modes, d)
    ensures var p := l.parts[i];
      && FindFrameBase(s, p.slotId) == Some(p.base)
      && RecordPos(p.base, d) + RECORD_SIZE <= |s| && d < |p.recs|
      && FindRecord(Put(s, p.base, LongBytes(frame)), p.slotId, AppleMode(p.modes, d)) == Some(RecordPos(p.base, d))
  {
    hide ImageOk, GoodIds, Put, LongBytes, FindResource, FindRecord, FindFrameBase, RecordAt, HasDepth, AppleMode;
    var p, l1 := l.parts[i], Rebased(l, i, frame);
    ReaderFindsRecords(s, l, i, d);
    RecordFits(s, RecordPos(p.base, d), p.recs[d], d);
    PutFrameKeepsImage(s, l, i, d, frame);
    RebasedIds(l, i, frame);
    ReaderFindsRecords(Put(s, p.base, LongBytes(frame)), l1, i, d);
  }

  lemma RebasedIds(l: Layout, i: nat, frame: uint32)
    requires GoodIds(l.parts) && i < |l.parts|
    ensures GoodIds(Rebased(l, i, frame).parts)
  {
  }

  lemma FieldPut(s: Bytes, v: uint32)
    requires |s| >= CRC_FROM_END
    ensures Put(s, |s| - CRC_FROM_END, LongBytes(v)) == WithField(s, v)
  {
  }

  lemma PartsDescribe(parts: seq<Part>, ms: seq<MonitorDesc>)
    requires MonitorsReady(ms) && |parts| == |ms|
    requires forall i :: 0 <= i < |ms| ==> parts[i] == PartFor(ms[i], parts[i].base)
    requires forall i, j :: 0 <= i < j < |ms| ==> ms[i].slotId != ms[j].slotId
    requires forall i :: 0 <= i < |ms| ==> ms[i].slotId != 0x01 && ms[i].slotId != END_OF_LIST
    ensures GoodIds(parts)
    ensures forall i :: 0 <= i < |ms| ==> MacRom.DescribesOne(parts[i], ms[i])
  {
  }

  lemma ImageIsLarge(s: Bytes, l: Layout)
    requires ImageOk(s, l)
    ensures |s| >= HEADER_SIZE
  {
  }
}
