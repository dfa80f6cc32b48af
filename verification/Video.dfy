/** Monitor descriptions: mode table, Apple mode numbers and slot IDs. */
module Video {
  import opened Options
  import opened MacMemory
  import opened RomBytes
  import opened SlotLayout

  const FIRST_SLOT_ID: byte := 0x80

  // ------------------------------------------------------------- searches in the mode list

  /** Position of the first mode with the given resolution and Apple mode; the length if none. */
  function FindModeFrom(modes: seq<Mode>, mode: uint16, id: uint32, k: nat): (r: nat)
    requires k <= |modes| && DepthsValid(modes)
    ensures k <= r <= |modes|
    ensures r < |modes| ==> modes[r].resolutionId == id && AppleMode(modes, modes[r].depth) == mode
    ensures forall i :: k <= i < r ==> !(modes[i].resolutionId == id && AppleMode(modes, modes[i].depth) == mode)
    decreases |modes| - k
  {
    if k == |modes| || (modes[k].resolutionId == id && AppleMode(modes, modes[k].depth) == mode) then k
    else FindModeFrom(modes, mode, id, k + 1)
  }

  predicate DepthsValid(modes: seq<Mode>) {
    forall i :: 0 <= i < |modes| ==> modes[i].depth < DEPTHS
  }

  /** The width of the first mode with a resolution ID, 0 if there is none. */
  function WidthOf(modes: seq<Mode>, id: uint32): uint32 {
    if modes == [] then 0 else if modes[0].resolutionId == id then modes[0].x else WidthOf(modes[1..], id)
  }

  function TrivialBytesPerRow(width: uint32, d: nat): uint32 {
    if d == 0 then width / 8 else if d == 1 then width / 4 else if d == 2 then width / 2
    else if d == 4 then Wrap(width * 2) else if d == 5 then Wrap(width * 4) else width
  }

  /** The guess is the whole bytes that the row's pixels take, as long as they are below 2^32. */
  lemma RowOfPixels(width: uint32, d: nat)
    requires d < DEPTHS && width * PixelSize(d) < TWO32
    ensures TrivialBytesPerRow(width, d) == width * PixelSize(d) / 8
  {
  }

  /** Bytes per row of the first mode with this depth and resolution, if any. */
  function ListedBytesPerRow(modes: seq<Mode>, d: nat, id: uint32): Option<uint32> {
    if modes == [] then None
    else if modes[0].depth == d && modes[0].resolutionId == id then Some(modes[0].bytesPerRow)
    else ListedBytesPerRow(modes[1..], d, id)
  }

  function BytesPerRow(modes: seq<Mode>, d: nat, id: uint32): uint32 {
    match ListedBytesPerRow(modes, d, id)
    case Some(b) => b
    case None => TrivialBytesPerRow(WidthOf(modes, id), d)
  }

  /** A depth and resolution on the list gets its own row size, provided no two modes share both. */
  lemma {:induction false} ListedModeKeepsItsRowSize(modes: seq<Mode>, i: nat)
    requires i < |modes|
    requires forall j :: 0 <= j < i ==>
      !(modes[j].depth == modes[i].depth && modes[j].resolutionId == modes[i].resolutionId)
    ensures BytesPerRow(modes, modes[i].depth, modes[i].resolutionId) == modes[i].bytesPerRow
    decreases |modes|
  {
    if i > 0 {
      assert !(modes[0].depth == modes[i].depth && modes[0].resolutionId == modes[i].resolutionId);
      assert modes[1..][i - 1] == modes[i];
      forall j | 0 <= j < i - 1
        ensures !(modes[1..][j].depth == modes[i].depth && modes[1..][j].resolutionId == modes[i].resolutionId)
      {
        assert modes[1..][j] == modes[j + 1];
      }
      ListedModeKeepsItsRowSize(modes[1..], i - 1);
      ListedExists(modes[1..], i - 1);
    }
  }

  /** A depth without a mode of the resolution gets the guess from the width of the first mode that
      has the resolution. */
  lemma {:induction false} UnlistedRowIsGuessed(modes: seq<Mode>, i: nat, d: nat)
    requires i < |modes| && forall j :: 0 <= j < i ==> modes[j].resolutionId != modes[i].resolutionId
    requires forall j :: 0 <= j < |modes| ==> !(modes[j].depth == d && modes[j].resolutionId == modes[i].resolutionId)
    ensures BytesPerRow(modes, d, modes[i].resolutionId) == TrivialBytesPerRow(modes[i].x, d)
  {
    NotListed(modes, d, modes[i].resolutionId);
    FirstWidth(modes, i);
  }

  lemma {:induction false} NotListed(modes: seq<Mode>, d: nat, id: uint32)
    requires forall j :: 0 <= j < |modes| ==> !(modes[j].depth == d && modes[j].resolutionId == id)
    ensures ListedBytesPerRow(modes, d, id) == None
  {
    if modes != [] {
      NotListed(modes[1..], d, id);
    }
  }

  lemma {:induction false} FirstWidth(modes: seq<Mode>, i: nat)
    requires i < |modes| && forall j :: 0 <= j < i ==> modes[j].resolutionId != modes[i].resolutionId
    ensures WidthOf(modes, modes[i].resolutionId) == modes[i].x
    decreases |modes|
  {
    if i > 0 {
      assert modes[0].resolutionId != modes[i].resolutionId && modes[1..][i - 1] == modes[i];
      FirstWidth(modes[1..], i - 1);
    }
  }

  lemma {:induction false} ListedExists(modes: seq<Mode>, i: nat)
    requires i < |modes|
    ensures ListedBytesPerRow(modes, modes[i].depth, modes[i].resolutionId).Some?
    decreases |modes|
  {
    if i > 0 {
      assert modes[1..][i - 1] == modes[i];
      ListedExists(modes[1..], i - 1);
    }
  }

  /** Apple modes and resolutions identify modes: searching for a mode's own numbers finds the
      first mode of its depth and resolution. */
  lemma FindModeInverts(modes: seq<Mode>, i: nat)
    requires i < |modes| && DepthsValid(modes)
    ensures var r := FindModeFrom(modes, AppleMode(modes, modes[i].depth), modes[i].resolutionId, 0);
      r <= i && modes[r].depth == modes[i].depth && modes[r].resolutionId == modes[i].resolutionId
  {
    var r := FindModeFrom(modes, AppleMode(modes, modes[i].depth), modes[i].resolutionId, 0);
    assert HasDepth(modes, modes[i].depth) && HasDepth(modes, modes[r].depth);
    if modes[r].depth < modes[i].depth {
      AppleModesDiffer(modes, modes[r].depth, modes[i].depth);
    } else if modes[i].depth < modes[r].depth {
      AppleModesDiffer(modes, modes[i].depth, modes[r].depth);
    }
  }

  /** The record VModeParms writes for depth d when mode `current` is selected. */
  function InitialRecord(modes: seq<Mode>, current: nat, d: nat): Record
    requires current < |modes|
  {
    Record(Low16(BytesPerRow(modes, d, modes[current].resolutionId)), Low16(modes[current].y), Low16(modes[current].x))
  }

  function InitialRecords(modes: seq<Mode>, current: nat): (r: seq<Record>)
    requires current < |modes|
    ensures |r| == DEPTHS && forall d :: 0 <= d < DEPTHS ==> r[d] == InitialRecord(modes, current, d)
  {
    seq(DEPTHS, d requires 0 <= d < DEPTHS => InitialRecord(modes, current, d))
  }

  /** What stands in the image, place by place, when the monitor's part is built: the selected mode's
      height and width and the depth's row bytes, modulo 65536, and the bits per pixel. */
  lemma BuiltFields(s: Bytes, base: nat, modes: seq<Mode>, sh: Shared, frame: uint32, current: nat, d: nat)
    requires current < |modes| && d < DEPTHS && MonitorAt(s, base, modes, sh, frame, InitialRecords(modes, current))
    ensures var p, m := base + 8 + 50 * d, modes[current];
      && p + 50 <= |s| && Get32(s, base) == frame
      && Get16(s, p + 8) == BytesPerRow(modes, d, m.resolutionId) % 0x1_0000
      && Get16(s, p + 14) == m.y % 0x1_0000 && Get16(s, p + 16) == m.x % 0x1_0000
      && Get16(s, p + 36) == PixelSize(d)
  {
    hide Get16, Get32, ListAt, BytesPerRow;
    assert RecordAt(s, RecordPos(base, d), InitialRecords(modes, current)[d], d);
  }

  class MonitorDesc {
    const modes: seq<Mode>
    const slotId: byte
    var appleModeForDepth: seq<uint16>
    var currentMode: nat
    var macFrameBase: uint32

    ghost predicate Valid()
      reads this
    {
      && DepthsValid(modes) && currentMode <= |modes| && |appleModeForDepth| == DEPTHS
      && forall d :: 0 <= d < DEPTHS ==> appleModeForDepth[d] == AppleMode(modes, d)
    }

    /** Number the depths the monitor has from 0x80 on and look the default mode up. */
    constructor (modes: seq<Mode>, defaultDepth: nat, defaultId: uint32, slotId: byte)
      requires DepthsValid(modes) && defaultDepth < DEPTHS
      ensures Valid() && this.modes == modes && this.slotId == slotId
      ensures currentMode == FindModeFrom(modes, AppleMode(modes, defaultDepth), defaultId, 0)
    {
      this.modes, this.slotId := modes, slotId;
      this.appleModeForDepth, this.currentMode, this.macFrameBase := [], 0, 0;
      new;
      var mode := FIRST_MODE;
      for depth := 0 to DEPTHS
        invariant mode == FIRST_MODE + Rank(modes, depth) && |appleModeForDepth| == depth && this.modes == modes
        invariant forall d :: 0 <= d < depth ==> appleModeForDepth[d] == AppleMode(modes, d)
        invariant currentMode == 0
      {
        if HasDepth(modes, depth) {
          appleModeForDepth := appleModeForDepth + [mode];
          mode := mode + 1;
        } else {
          appleModeForDepth := appleModeForDepth + [0];
        }
      }
      currentMode := FindMode(appleModeForDepth[defaultDepth], defaultId);
    }

    method FindMode(mode: uint16, id: uint32) returns (r: nat)
      requires Valid()
      ensures r == FindModeFrom(modes, mode, id, 0)
    {
      for i := 0 to |modes|
        invariant FindModeFrom(modes, mode, id, 0) == FindModeFrom(modes, mode, id, i)
      {
        if modes[i].resolutionId == id && appleModeForDepth[modes[i].depth] == mode {
          return i;
        }
      }
      return |modes|;
    }

    method GetBytesPerRow(d: nat, id: uint32) returns (r: uint32)
      requires Valid()
      ensures r == BytesPerRow(modes, d, id)
    {
      assert modes[0..] == modes;
      for i := 0 to |modes|
        invariant ListedBytesPerRow(modes, d, id) == ListedBytesPerRow(modes[i..], d, id)
      {
        assert modes[i..][0] == modes[i] && modes[i..][1..] == modes[i + 1..];
        if modes[i].depth == d && modes[i].resolutionId == id {
          return modes[i].bytesPerRow;
        }
      }
      var x := GetWidth(id);
      return TrivialBytesPerRow(x, d);
    }

    method GetWidth(id: uint32) returns (x: uint32)
      ensures x == WidthOf(modes, id)
    {
      assert modes[0..] == modes;
      for i := 0 to |modes|
        invariant WidthOf(modes, id) == WidthOf(modes[i..], id)
      {
        assert modes[i..][0] == modes[i] && modes[i..][1..] == modes[i + 1..];
        if modes[i].resolutionId == id {
          return modes[i].x;
        }
      }
      return 0;
    }
  }

  /** The monitors in order of creation; each takes the next 8-bit slot ID. */
  class MonitorList {
    var monitors: seq<MonitorDesc>
    var nextSlotId: byte

    ghost predicate Valid()
      reads this
    {
      && nextSlotId == (FIRST_SLOT_ID + |monitors|) % 256
      && (forall i, j :: 0 <= i < j < |monitors| ==> monitors[i] != monitors[j])
      && forall i :: 0 <= i < |monitors| ==> monitors[i].slotId == (FIRST_SLOT_ID + i) % 256
    }

    constructor ()
      ensures Valid() && monitors == []
    {
      monitors, nextSlotId := [], FIRST_SLOT_ID;
    }

    method Add(modes: seq<Mode>, defaultDepth: nat, defaultId: uint32) returns (m: MonitorDesc)
      requires Valid() && DepthsValid(modes) && defaultDepth < DEPTHS
      modifies this
      ensures Valid() && monitors == old(monitors) + [m] && m.Valid() && fresh(m) && m.modes == modes
    {
      m := new MonitorDesc(modes, defaultDepth, defaultId, nextSlotId);
      nextSlotId := (nextSlotId as int + 1) % 256;
      monitors := monitors + [m];
    }
  }

  /** Slot IDs a reader can tell apart: neither the board's nor the end mark, and distinct. */
  predicate TellApart(ids: seq<byte>) {
    && (forall i :: 0 <= i < |ids| ==> ids[i] != 0x01 && ids[i] != END_OF_LIST)
    && (forall i, j :: 0 <= i < j < |ids| ==> ids[i] != ids[j])
  }

  /** The IDs handed out in order are such if and only if there are at most 127 of them: the next
      one is the end mark. */
  lemma SlotIdsTellApartIff(ids: seq<byte>)
    requires forall i :: 0 <= i < |ids| ==> ids[i] == (FIRST_SLOT_ID + i) % 256
    ensures TellApart(ids) <==> |ids| <= 127
  {
    if |ids| > 127 {
      assert ids[127] == END_OF_LIST;
    }
  }
}
