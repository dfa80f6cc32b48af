/** The part of the declaration ROM that describes monitors: where everything lies, what a reader
    finds there, and how patches and the checksum leave it intact. */
module SlotLayout {
  import opened Options
  import opened MacMemory
  import opened RomBytes

  const DEPTHS: nat := 6            // 1, 2, 4, 8, 16 and 32 bits per pixel
  const FIRST_MODE: nat := 0x80
  const RECORD_SIZE: nat := 50
  const HEADER_SIZE: nat := 20

  // ------------------------------------------------------------- monitors

  datatype Mode = Mode(x: uint32, y: uint32, resolutionId: uint32, depth: nat, bytesPerRow: uint32)

  predicate HasDepth(modes: seq<Mode>, d: nat) {
    exists i :: 0 <= i < |modes| && modes[i].depth == d
  }

  /** How many lower depths the monitor has. */
  function Rank(modes: seq<Mode>, d: nat): (r: nat)
    ensures r <= d
  {
    if d == 0 then 0 else Rank(modes, d - 1) + if HasDepth(modes, d - 1) then 1 else 0
  }

  /** Apple mode numbers count up from 0x80 over the depths the monitor has. */
  function AppleMode(modes: seq<Mode>, d: nat): uint16
    requires d < DEPTHS
  {
    if HasDepth(modes, d) then FIRST_MODE + Rank(modes, d) else 0
  }

  /** The depths below d that the monitor has. */
  function LowerDepths(modes: seq<Mode>, d: nat): set<nat> {
    set i | 0 <= i < |modes| && modes[i].depth < d :: modes[i].depth
  }

  /** They count up without gaps: the mode number tells how many lower depths there are. */
  lemma {:induction false} RankCountsDepths(modes: seq<Mode>, d: nat)
    ensures Rank(modes, d) == |LowerDepths(modes, d)|
  {
    if d > 0 {
      RankCountsDepths(modes, d - 1);
      if HasDepth(modes, d - 1) {
        assert LowerDepths(modes, d) == LowerDepths(modes, d - 1) + {d - 1};
      } else {
        assert LowerDepths(modes, d) == LowerDepths(modes, d - 1);
      }
    }
  }

  lemma AppleModeIs(modes: seq<Mode>, i: nat)
    requires i < |modes| && modes[i].depth < DEPTHS
    ensures AppleMode(modes, modes[i].depth) == 0x80 + |LowerDepths(modes, modes[i].depth)|
  {
    RankCountsDepths(modes, modes[i].depth);
  }

  lemma {:induction false} RankIsMonotone(modes: seq<Mode>, d: nat, e: nat)
    requires d < e && HasDepth(modes, d)
    ensures Rank(modes, d) < Rank(modes, e)
    decreases e
  {
    if d + 1 < e {
      RankIsMonotone(modes, d, e - 1);
    }
  }

  /** Different depths of a monitor have different Apple modes. */
  lemma AppleModesDiffer(modes: seq<Mode>, d: nat, e: nat)
    requires d < e < DEPTHS && HasDepth(modes, d) && HasDepth(modes, e)
    ensures AppleMode(modes, d) < AppleMode(modes, e)
  {
    RankIsMonotone(modes, d, e);
  }

  // ------------------------------------------------------------- one monitor

  /** What a video parameter record says that differs from mode to mode. */
  datatype Record = Record(rowBytes: uint16, height: uint16, width: uint16)

  function PixelType(d: nat): uint16 { if d >= 4 then 16 else 0 }
  function PixelSize(d: nat): uint16 {
    if d == 0 then 1 else if d == 1 then 2 else if d == 2 then 4 else if d == 3 then 8 else if d == 4 then 16 else 32
  }
  function CmpCount(d: nat): uint16 { if d >= 4 then 3 else 1 }
  function CmpSize(d: nat): uint16 {
    if d == 0 then 1 else if d == 1 then 2 else if d == 2 then 4 else if d == 4 then 5 else 8
  }

  /** Depth d has 2^d bits per pixel. The components fill an indexed pixel; of a direct one they leave
      1 bit of 16 and 8 bits of 32. */
  lemma DepthFormats(d: nat)
    requires d < DEPTHS
    ensures d == 0 ==> PixelSize(d) == 1
    ensures d > 0 ==> PixelSize(d) == 2 * PixelSize(d - 1)
    ensures CmpCount(d) * CmpSize(d) == PixelSize(d) - (if d < 4 then 0 else if d == 4 then 1 else 8)
    ensures PixelType(d) == 16 <==> CmpCount(d) > 1
  {
  }

  /** The record for depth d at `at` decodes to v. */
  predicate RecordAt(s: Bytes, at: nat, v: Record, d: nat) {
    && at + RECORD_SIZE <= |s|
    && Get32(s, at) == RECORD_SIZE && Get32(s, at + 4) == 0
    && Get16(s, at + 8) == v.rowBytes
    && Get16(s, at + 10) == 0 && Get16(s, at + 12) == 0
    && Get16(s, at + 14) == v.height && Get16(s, at + 16) == v.width
    && Get16(s, at + 18) == 0 && Get16(s, at + 20) == 0 && Get32(s, at + 22) == 0
    && Get32(s, at + 26) == 0x48_0000 && Get32(s, at + 30) == 0x48_0000
    && Get16(s, at + 34) == PixelType(d) && Get16(s, at + 36) == PixelSize(d)
    && Get16(s, at + 38) == CmpCount(d) && Get16(s, at + 40) == CmpSize(d)
    && Get32(s, at + 42) == 0 && Get32(s, at + 46) == 0
  }

  // Places relative to the start of a monitor's part.
  function RecordPos(base: nat, d: nat): nat { base + 8 + RECORD_SIZE * d }
  function DescPos(base: nat, d: nat): nat { base + 308 + 16 * d }
  function ListPos(base: nat): nat { base + 404 }

  function DescEntries(base: nat, d: nat): seq<Entry> {
    [Off(0x01, RecordPos(base, d)), Data(0x03, 1), Data(0x04, if d >= 4 then 2 else 0)]
  }

  /** Places of the structures all monitors share. */
  datatype Shared = Shared(videoType: nat, videoName: nat, drvrDir: nat, gammaDir: nat)

  function FixedEntries(base: nat, sh: Shared): (r: seq<Entry>)
    ensures |r| == 8
  {
    [Off(0x01, sh.videoType), Off(0x02, sh.videoName), Off(0x04, sh.drvrDir), Data(0x08, 0x4232),
     Off(0x0a, base), Off(0x0b, base + 4), Off(0x40, sh.gammaDir), Data(0x7d, 6)]
  }

  /** The mode entries for the depths below n. */
  function ModeEntries(modes: seq<Mode>, base: nat, n: nat): (r: seq<Entry>)
    requires n <= DEPTHS
    ensures |r| == Rank(modes, n)
    ensures forall k :: 0 <= k < |r| ==> r[k].id == FIRST_MODE + k && r[k].Off?
  {
    if n == 0 then [] else
    ModeEntries(modes, base, n - 1) +
    if HasDepth(modes, n - 1) then [Off(AppleMode(modes, n - 1), DescPos(base, n - 1))] else []
  }

  lemma {:induction false} ModeEntryOf(modes: seq<Mode>, base: nat, n: nat, d: nat)
    requires d < n <= DEPTHS && HasDepth(modes, d)
    ensures Rank(modes, d) < |ModeEntries(modes, base, n)|
    ensures ModeEntries(modes, base, n)[Rank(modes, d)] == Off(AppleMode(modes, d), DescPos(base, d))
    decreases n
  {
    RankIsMonotone(modes, d, n);
    if d + 1 < n {
      ModeEntryOf(modes, base, n - 1, d);
    }
  }

  function MonitorEntries(modes: seq<Mode>, base: nat, sh: Shared): seq<Entry> {
    FixedEntries(base, sh) + ModeEntries(modes, base, DEPTHS)
  }

  /** Bytes a monitor's part takes. */
  function MonitorSize(modes: seq<Mode>): nat {
    404 + 4 * (8 + Rank(modes, DEPTHS)) + 4
  }

  /** A monitor's part at `base`: frame buffer base, six records, their descriptions, and the list. */
  predicate MonitorAt(s: Bytes, base: nat, modes: seq<Mode>, sh: Shared, frame: uint32, recs: seq<Record>) {
    && |recs| == DEPTHS && base + MonitorSize(modes) <= |s|
    && Get32(s, base) == frame && Get32(s, base + 4) == 0
    && (forall d :: 0 <= d < DEPTHS ==> RecordAt(s, RecordPos(base, d), recs[d], d))
    && (forall d :: 0 <= d < DEPTHS ==> ListAt(s, DescPos(base, d), DescEntries(base, d)))
    && ListAt(s, ListPos(base), MonitorEntries(modes, base, sh))
  }

  /** From a monitor's list a reader reaches the record of every depth the monitor has, and the
      frame buffer base. */
  lemma MonitorReads(s: Bytes, base: nat, modes: seq<Mode>, sh: Shared, frame: uint32, recs: seq<Record>, d: nat)
    requires MonitorAt(s, base, modes, sh, frame, recs) && |s| <= TWO24 / 2 && d < DEPTHS
    ensures Follow(s, Some(ListPos(base)), 0x0a) == Some(base)
    ensures HasDepth(modes, d) ==>
      && Follow(s, Some(ListPos(base)), AppleMode(modes, d)) == Some(DescPos(base, d))
      && Follow(s, Some(DescPos(base, d)), 0x01) == Some(RecordPos(base, d))
  {
    hide RecordAt, FindEntry, ListAt, ModeEntries, Follow, HasDepth, DescEntries;
    BaseIsFound(s, base, modes, sh);
    if HasDepth(modes, d) {
      ModeIsFound(s, base, modes, sh, d);
      DescIsFound(s, base, d);
    }
  }

  lemma BaseIsFound(s: Bytes, base: nat, modes: seq<Mode>, sh: Shared)
    requires ListAt(s, ListPos(base), MonitorEntries(modes, base, sh)) && |s| <= TWO24 / 2
    ensures Follow(s, Some(ListPos(base)), 0x0a) == Some(base)
  {
    hide FindEntry, ModeEntries;
    var es, fixed := MonitorEntries(modes, base, sh), FixedEntries(base, sh);
    assert es[4] == fixed[4] == Off(0x0a, base);
    assert forall j :: 0 <= j < 4 ==> es[j] == fixed[j];
    ListFinds(s, ListPos(base), es, 4);
  }

  lemma ModeIsFound(s: Bytes, base: nat, modes: seq<Mode>, sh: Shared, d: nat)
    requires ListAt(s, ListPos(base), MonitorEntries(modes, base, sh)) && |s| <= TWO24 / 2
    requires d < DEPTHS && HasDepth(modes, d)
    ensures Follow(s, Some(ListPos(base)), AppleMode(modes, d)) == Some(DescPos(base, d))
  {
    hide FindEntry;
    var es, fixed := MonitorEntries(modes, base, sh), FixedEntries(base, sh);
    ModeEntryOf(modes, base, DEPTHS, d);
    assert forall j :: 0 <= j < 8 ==> es[j] == fixed[j];
    assert forall j :: 8 <= j < |es| ==> es[j] == ModeEntries(modes, base, DEPTHS)[j - 8];
    ListFinds(s, ListPos(base), es, 8 + Rank(modes, d));
  }

  lemma DescIsFound(s: Bytes, base: nat, d: nat)
    requires d < DEPTHS && ListAt(s, DescPos(base, d), DescEntries(base, d)) && |s| <= TWO24 / 2
    ensures Follow(s, Some(DescPos(base, d)), 0x01) == Some(RecordPos(base, d))
  {
    hide FindEntry;
    ListFinds(s, DescPos(base, d), DescEntries(base, d), 0);
  }

  // ------------------------------------------------------------- framing

  lemma RecordFrame(s: Bytes, s': Bytes, at: nat, v: Record, d: nat)
    requires RecordAt(s, at, v, d) && SameAt(s, s', at, RECORD_SIZE)
    ensures RecordAt(s', at, v, d)
  {
  }

  /** The list and the descriptions of a monitor come after its records. */
  lemma ListsFrame(s: Bytes, s': Bytes, base: nat, modes: seq<Mode>, sh: Shared, frame: uint32, recs: seq<Record>)
    requires MonitorAt(s, base, modes, sh, frame, recs)
    requires SameAt(s, s', base + 308, MonitorSize(modes) - 308)
    ensures forall d :: 0 <= d < DEPTHS ==> ListAt(s', DescPos(base, d), DescEntries(base, d))
    ensures ListAt(s', ListPos(base), MonitorEntries(modes, base, sh))
  {
    hide RecordAt;
    forall d | 0 <= d < DEPTHS ensures ListAt(s', DescPos(base, d), DescEntries(base, d)) {
      ListFrame(s, s', DescPos(base, d), DescEntries(base, d));
    }
    ListFrame(s, s', ListPos(base), MonitorEntries(modes, base, sh));
  }

  lemma MonitorFrame(s: Bytes, s': Bytes, base: nat, modes: seq<Mode>, sh: Shared, frame: uint32, recs: seq<Record>)
    requires MonitorAt(s, base, modes, sh, frame, recs) && SameAt(s, s', base, MonitorSize(modes))
    ensures MonitorAt(s', base, modes, sh, frame, recs)
  {
    ListsFrame(s, s', base, modes, sh, frame, recs);
    forall d | 0 <= d < DEPTHS ensures RecordAt(s', RecordPos(base, d), recs[d], d) {
      RecordFrame(s, s', RecordPos(base, d), recs[d], d);
    }
  }
}
