/** When Sys_read and Sys_write make the device look like a flat byte array: exact conditions. */
module SysExact {
  import opened MacMemory
  import opened BlockIo
  import opened SysSpec

  predicate Reaches(wide: bool, offset: nat) {
    wide || offset < TWO32
  }

  lemma TruncatedIsLower(wide: bool, offset: nat)
    ensures At(wide, offset) <= offset
    ensures At(wide, offset) == offset <==> Reaches(wide, offset)
  {
  }

  function Zeros(n: nat): (s: seq<byte>)
    ensures |s| == n && forall i :: 0 <= i < n ==> s[i] == 0
  {
    seq<byte>(n, _ => 0)
  }

  /** Contents of a device of the given size and of buffers for the request. */
  predicate Contents(g: Geometry, size: nat, s: Stores) {
    |s.disk| == size && |s.tmp| == TMP_BUF_SIZE && |s.buf| == g.length
  }

  /** The byte at device position offset + j as a request for offset delivers it, or `stale`. */
  function Delivered(disk: seq<byte>, wide: bool, offset: nat, n: nat, j: nat, stale: byte): byte
    requires n > 0 ==> At(wide, offset) + n <= |disk|
  {
    if j < n then disk[At(wide, offset) + j] else stale
  }

  // ------------------------------------------------------------- reads, byte by byte

  lemma FirstBytes(g: Geometry, wide: bool, s: Stores, n: nat)
    requires g.Valid() && Fit(g, s) && InRange(|s.disk|, wide, g.pos - g.Offset(), g.blockSize, n)
    ensures var r := AfterFirst(g, wide, s, n);
      && (g.Offset() != 0 ==>
            forall j :: 0 <= j < g.blockSize ==>
              r.tmp[j] == Delivered(s.disk, wide, g.pos - g.Offset(), n, j, s.tmp[j]))
      && (forall i :: 0 <= i < |s.buf| ==> r.buf[i] == if i < g.Pre() then r.tmp[g.Offset() + i] else s.buf[i])
  {
    hide Remainder, At, Geometry.Offset;
  }

  lemma MiddleBytes(g: Geometry, wide: bool, s: Stores, n: nat)
    requires g.Valid() && Fit(g, s) && InRange(|s.disk|, wide, g.pos + g.Pre(), g.Main(), n)
    ensures var r := AfterMiddle(g, wide, s, n);
      forall i :: 0 <= i < |s.buf| ==>
        r.buf[i] == if i < g.Pre() then s.buf[i] else Delivered(s.disk, wide, g.pos + g.Pre(), n, i - g.Pre(), s.buf[i])
  {
    hide Remainder, At, Geometry.Offset, Geometry.Pre, Geometry.Post;
  }

  lemma LastBytes(g: Geometry, wide: bool, s: Stores, n: nat)
    requires g.Valid() && Fit(g, s) && InRange(|s.disk|, wide, g.pos + Kept(g), g.blockSize, n)
    ensures var r := AfterLast(g, wide, s, n);
      forall i :: 0 <= i < g.length ==>
        r.buf[i] == if i < Kept(g) then s.buf[i]
          else Delivered(s.disk, wide, g.pos + Kept(g), n, i - Kept(g), s.tmp[i - Kept(g)])
  {
    hide Remainder, At, Geometry.Offset, Geometry.Pre, Geometry.Post;
  }

  /** Every needed byte was moved, from the position meant: requests below 4 GB or on a 64-bit
      device, and long enough answers. */
  predicate Covers(g: Geometry, wide: bool, m: Moves)
    requires g.Valid()
  {
    && (g.Pre() > 0 ==> Reaches(wide, g.pos - g.Offset()) && m.pre >= g.Offset() + g.Pre())
    && (g.Main() > 0 ==> Reaches(wide, g.pos + g.Pre()) && m.main >= g.Main())
    && (g.Post() > 0 ==> Reaches(wide, g.pos + Kept(g)) && m.post >= g.Post())
  }

  /** Whatever the device and the buffers hold, the read delivers the flat device's bytes. */
  ghost predicate AlwaysExact(g: Geometry, size: nat, wide: bool, m: Moves)
    requires g.Valid() && MovesFit(g, size, wide, m) && g.pos + g.length <= size
  {
    forall s: Stores | Contents(g, size, s) :: AfterRead(g, wide, s, m).buf == s.disk[g.pos..g.pos + g.length]
  }

  /** Where byte i of the result comes from: from the first block, the whole blocks or the last. */
  lemma ByteOfFirst(g: Geometry, wide: bool, s: Stores, m: Moves, i: nat)
    requires g.Valid() && Fit(g, s) && MovesFit(g, |s.disk|, wide, m) && i < g.Pre()
    ensures AfterRead(g, wide, s, m).buf[i] ==
      Delivered(s.disk, wide, g.pos - g.Offset(), m.pre, g.Offset() + i, s.tmp[g.Offset() + i])
  {
    hide AfterFirst, AfterMiddle, AfterLast, Remainder, At, Geometry.Offset, Geometry.Post;
    var s1 := AfterFirst(g, wide, s, m.pre);
    FirstBytes(g, wide, s, m.pre);
    MiddleBytes(g, wide, s1, m.main);
    LastBytes(g, wide, AfterMiddle(g, wide, s1, m.main), m.post);
  }

  lemma ByteOfMiddle(g: Geometry, wide: bool, s: Stores, m: Moves, i: nat)
    requires g.Valid() && Fit(g, s) && MovesFit(g, |s.disk|, wide, m) && g.Pre() <= i < Kept(g)
    ensures AfterRead(g, wide, s, m).buf[i] == Delivered(s.disk, wide, g.pos + g.Pre(), m.main, i - g.Pre(), s.buf[i])
  {
    hide AfterFirst, AfterMiddle, AfterLast, Remainder, At, Geometry.Offset, Geometry.Pre, Geometry.Post;
    var s1 := AfterFirst(g, wide, s, m.pre);
    FirstBytes(g, wide, s, m.pre);
    MiddleBytes(g, wide, s1, m.main);
    LastBytes(g, wide, AfterMiddle(g, wide, s1, m.main), m.post);
  }

  lemma ByteOfLast(g: Geometry, wide: bool, s: Stores, m: Moves, j: nat)
    requires g.Valid() && Fit(g, s) && MovesFit(g, |s.disk|, wide, m) && j < g.Post()
    ensures Kept(g) + j < g.length
    ensures AfterRead(g, wide, s, m).buf[Kept(g) + j] ==
      Delivered(s.disk, wide, g.pos + Kept(g), m.post, j, AfterFirst(g, wide, s, m.pre).tmp[j])
  {
    hide AfterFirst, AfterMiddle, AfterLast, Remainder, At, Geometry.Offset, Geometry.Pre, Geometry.Post;
    LastBytes(g, wide, AfterMiddle(g, wide, AfterFirst(g, wide, s, m.pre), m.main), m.post);
  }

  lemma CoveredByte(g: Geometry, wide: bool, s: Stores, m: Moves, i: nat)
    requires g.Valid() && Fit(g, s) && MovesFit(g, |s.disk|, wide, m)
    requires g.pos + g.length <= |s.disk| && Covers(g, wide, m) && i < g.length
    ensures AfterRead(g, wide, s, m).buf[i] == s.disk[g.pos + i]
  {
    hide AfterRead, AfterFirst, Remainder, At, Geometry.Offset, Geometry.Post, Geometry.Pre, IsPowerOfTwo;
    if i < g.Pre() {
      TruncatedIsLower(wide, g.pos - g.Offset());
      ByteOfFirst(g, wide, s, m, i);
    } else if i < Kept(g) {
      TruncatedIsLower(wide, g.pos + g.Pre());
      ByteOfMiddle(g, wide, s, m, i);
    } else {
      TruncatedIsLower(wide, g.pos + Kept(g));
      ByteOfLast(g, wide, s, m, i - Kept(g));
    }
  }

  lemma CoveredReadIsExact(g: Geometry, wide: bool, s: Stores, m: Moves)
    requires g.Valid() && Fit(g, s) && MovesFit(g, |s.disk|, wide, m)
    requires g.pos + g.length <= |s.disk| && Covers(g, wide, m)
    ensures AfterRead(g, wide, s, m).buf[..g.length] == s.disk[g.pos..g.pos + g.length]
  {
    hide AfterRead, MovesFit, Covers, IsPowerOfTwo;
    var buf := AfterRead(g, wide, s, m).buf;
    forall i | 0 <= i < g.length ensures buf[i] == s.disk[g.pos + i] {
      CoveredByte(g, wide, s, m, i);
    }
  }

  /** A position in the result whose byte does not come from its place on the device. */
  lemma UncoveredPosition(g: Geometry, wide: bool, m: Moves) returns (i: nat)
    requires g.Valid() && !Covers(g, wide, m)
    ensures i < g.length
    ensures
      if i < g.Pre() then !Reaches(wide, g.pos - g.Offset()) || m.pre <= g.Offset() + i
      else if i < Kept(g) then !Reaches(wide, g.pos + g.Pre()) || m.main <= i - g.Pre()
      else !Reaches(wide, g.pos + Kept(g)) || m.post <= i - Kept(g)
  {
    hide Remainder, Geometry.Offset, Geometry.Pre, Geometry.Post;
    if g.Pre() > 0 && !(Reaches(wide, g.pos - g.Offset()) && m.pre >= g.Offset() + g.Pre()) {
      i := g.Pre() - 1;
    } else if g.Main() > 0 && !(Reaches(wide, g.pos + g.Pre()) && m.main >= g.Main()) {
      i := Kept(g) - 1;
    } else {
      i := g.length - 1;
    }
  }

  /** Contents with a single nonzero byte on the device. */
  function OneByteAt(g: Geometry, size: nat, x: nat): Stores
    requires x < size
  {
    Stores(Zeros(size)[x := 1], Zeros(TMP_BUF_SIZE), Zeros(g.length))
  }

  /** A request that does not reach its position, or is answered too short, does not bring the byte. */
  lemma NotDelivered(size: nat, wide: bool, offset: nat, n: nat, j: nat, x: nat)
    requires x == offset + j < size && (n > 0 ==> At(wide, offset) + n <= size) && (!Reaches(wide, offset) || n <= j)
    ensures Delivered(Zeros(size)[x := 1], wide, offset, n, j, 0) == 0
  {
    hide At, Reaches;
    TruncatedIsLower(wide, offset);
  }

  lemma UncoveredByte(g: Geometry, size: nat, wide: bool, m: Moves, i: nat)
    requires g.Valid() && MovesFit(g, size, wide, m) && g.pos + g.length <= size && i < g.length
    requires
      if i < g.Pre() then !Reaches(wide, g.pos - g.Offset()) || m.pre <= g.Offset() + i
      else if i < Kept(g) then !Reaches(wide, g.pos + g.Pre()) || m.main <= i - g.Pre()
      else !Reaches(wide, g.pos + Kept(g)) || m.post <= i - Kept(g)
    ensures AfterRead(g, wide, OneByteAt(g, size, g.pos + i), m).buf[i] == 0
  {
    hide AfterRead, AfterFirst, Remainder, At, Reaches, Delivered, Zeros, IsPowerOfTwo;
    hide Geometry.Offset, Geometry.Post, Geometry.Pre;
    var s := OneByteAt(g, size, g.pos + i);
    if i < g.Pre() {
      NotDelivered(size, wide, g.pos - g.Offset(), m.pre, g.Offset() + i, g.pos + i);
      ByteOfFirst(g, wide, s, m, i);
    } else if i < Kept(g) {
      NotDelivered(size, wide, g.pos + g.Pre(), m.main, i - g.Pre(), g.pos + i);
      ByteOfMiddle(g, wide, s, m, i);
    } else {
      var j := i - Kept(g);
      ByteOfLast(g, wide, s, m, j);
      ZeroInTmp(g, size, wide, m, i, j);
      NotDelivered(size, wide, g.pos + Kept(g), m.post, j, g.pos + i);
    }
  }

  /** What the first block left in the temporary buffer comes from before the byte. */
  lemma ZeroInTmp(g: Geometry, size: nat, wide: bool, m: Moves, i: nat, j: nat)
    requires g.Valid() && MovesFit(g, size, wide, m) && g.pos + g.length <= size && Kept(g) <= i < g.length
    requires j < g.Post() && i == Kept(g) + j
    ensures AfterFirst(g, wide, OneByteAt(g, size, g.pos + i), m.pre).tmp[j] == 0
  {
    hide AfterFirst, Remainder, At, Reaches, Zeros, IsPowerOfTwo, Geometry.Offset, Geometry.Post;
    var s := OneByteAt(g, size, g.pos + i);
    FirstBytes(g, wide, s, m.pre);
    NoPartialBlock(g, wide, s, m.pre, 0);
    TruncatedIsLower(wide, g.pos - g.Offset());
  }

  /** On a device with a single nonzero byte, at an uncovered position, the read returns 0 there. */
  lemma UncoveredReadFails(g: Geometry, size: nat, wide: bool, m: Moves)
    requires g.Valid() && MovesFit(g, size, wide, m) && g.pos + g.length <= size && !Covers(g, wide, m)
    ensures !AlwaysExact(g, size, wide, m)
  {
    hide AfterRead, Covers, MovesFit, Reaches, Remainder, Geometry.Offset, Geometry.Post, Geometry.Pre, Zeros,
      IsPowerOfTwo;
    var i := UncoveredPosition(g, wide, m);
    UncoveredByte(g, size, wide, m, i);
    var s := OneByteAt(g, size, g.pos + i);
    assert Contents(g, size, s) && s.disk[g.pos..g.pos + g.length][i] == 1;
  }

  /** A read whose requests are all answered is exact, whatever the contents, if and only if the
      answers cover it: too short an answer counts as success but leaves stale bytes, and a
      32-bit device is asked for the wrong block from 4 GB on. */
  lemma ReadIsExactIffCovered(g: Geometry, size: nat, wide: bool, m: Moves)
    requires g.Valid() && MovesFit(g, size, wide, m) && g.pos + g.length <= size
    ensures AlwaysExact(g, size, wide, m) <==> Covers(g, wide, m)
  {
    hide AfterRead, Covers, MovesFit;
    if Covers(g, wide, m) {
      forall s: Stores | Contents(g, size, s)
        ensures AfterRead(g, wide, s, m).buf == s.disk[g.pos..g.pos + g.length]
      {
        CoveredReadIsExact(g, wide, s, m);
        var buf := AfterRead(g, wide, s, m).buf;
        assert buf[..g.length] == buf;
      }
    } else {
      UncoveredReadFails(g, size, wide, m);
    }
  }

  // ------------------------------------------------------------- writes, byte by byte

  /** Byte j of the first block as it is written back. */
  function BlockByte(g: Geometry, wide: bool, s: Stores, rd: nat, j: nat): byte
    requires g.Valid() && Fit(g, s) && InRange(|s.disk|, wide, g.pos - g.Offset(), g.blockSize, rd) && j < g.blockSize
  {
    if g.Offset() <= j < g.Offset() + g.Pre() then s.buf[j - g.Offset()]
    else Delivered(s.disk, wide, g.pos - g.Offset(), rd, j, s.tmp[j])
  }

  lemma BlockBytes(g: Geometry, wide: bool, s: Stores, rd: nat, j: nat)
    requires g.Valid() && Fit(g, s) && InRange(|s.disk|, wide, g.pos - g.Offset(), g.blockSize, rd) && j < g.blockSize
    ensures Overlay(Overlay(s.tmp, 0, Slice(s.disk, At(wide, g.pos - g.Offset()), rd)), g.Offset(),
                    s.buf[..g.Pre()])[j] == BlockByte(g, wide, s, rd, j)
  {
    hide Remainder, At, Geometry.Offset, Geometry.Pre;
  }

  lemma PreBytes(g: Geometry, wide: bool, s: Stores, rd: nat, wr: nat)
    requires g.Valid() && Fit(g, s) && g.Offset() != 0
    requires InRange(|s.disk|, wide, g.pos - g.Offset(), g.blockSize, rd)
    requires InRange(|s.disk|, wide, g.pos - g.Offset(), g.blockSize, wr)
    ensures var r, at := AfterPre(g, wide, s, rd, wr), At(wide, g.pos - g.Offset());
      && (forall j :: 0 <= j < g.blockSize ==> r.tmp[j] == BlockByte(g, wide, s, rd, j))
      && (forall x :: 0 <= x < |s.disk| ==>
        r.disk[x] == if at <= x < at + wr then BlockByte(g, wide, s, rd, x - at) else s.disk[x])
  {
    hide Remainder, At, Geometry.Offset, Geometry.Pre, AfterPre, BlockByte;
    var at := At(wide, g.pos - g.Offset());
    var t := Overlay(Overlay(s.tmp, 0, Slice(s.disk, at, rd)), g.Offset(), s.buf[..g.Pre()]);
    AfterPreIs(g, wide, s, rd, wr, t);
    forall j | 0 <= j < g.blockSize ensures t[j] == BlockByte(g, wide, s, rd, j) {
      BlockBytes(g, wide, s, rd, j);
    }
  }

  lemma MainBytes(g: Geometry, wide: bool, s: Stores, n: nat)
    requires g.Valid() && Fit(g, s) && InRange(|s.disk|, wide, g.pos + g.Pre(), g.Main(), n)
    ensures var r, at := AfterMain(g, wide, s, n), At(wide, g.pos + g.Pre());
      forall x :: 0 <= x < |s.disk| ==> r.disk[x] == if at <= x < at + n then s.buf[g.Pre() + x - at] else s.disk[x]
  {
    hide Remainder, At, Geometry.Offset, Geometry.Pre, Geometry.Post;
  }

  // ------------------------------------------------------------- when a write is exact

  /** What a write should leave on the device. */
  function FlatWrite(g: Geometry, disk: seq<byte>, buf: seq<byte>): seq<byte>
    requires g.Valid() && g.length <= |buf| && g.pos + g.length <= |disk|
  {
    Overlay(disk, g.pos, buf[..g.length])
  }

  /** There is no tail; the whole blocks were written in full, where they belong; the first block,
      if it is partial, was written where it belongs at least up to the request's end in it, and
      of the bytes around the request none was written back that had not been read. (A request of
      no bytes inside a block rewrites that block, too.) */
  predicate WriteCovers(g: Geometry, wide: bool, m: WriteMoves)
    requires g.Valid()
  {
    g.Post() == 0 && FirstCovered(g, wide, m) && MainCovered(g, wide, m)
  }

  predicate FirstCovered(g: Geometry, wide: bool, m: WriteMoves)
    requires g.Valid()
  {
    && (g.Offset() != 0 ==> FirstKept(g, m))
    && (g.Pre() > 0 ==> Reaches(wide, g.pos - g.Offset()) && m.preWrite >= g.Offset() + g.Pre())
  }

  predicate MainCovered(g: Geometry, wide: bool, m: WriteMoves)
    requires g.Valid()
  {
    g.Main() > 0 ==> Reaches(wide, g.pos + g.Pre()) && m.main >= g.Main()
  }

  predicate FirstKept(g: Geometry, m: WriteMoves)
    requires g.Valid()
  {
    m.preWrite <= m.preRead || (g.Offset() <= m.preRead && m.preWrite <= g.Offset() + g.Pre())
  }

  /** Whatever the device and the buffers hold, exactly the requested bytes are replaced. */
  ghost predicate WriteAlwaysExact(g: Geometry, size: nat, wide: bool, m: WriteMoves)
    requires g.Valid() && WriteMovesFit(g, size, wide, m) && g.pos + g.length <= size
  {
    forall s: Stores | Contents(g, size, s) :: AfterWrite(g, wide, s, m).disk == FlatWrite(g, s.disk, s.buf)
  }

  /** Without a tail, two steps make the device. */
  lemma NoTail(g: Geometry, wide: bool, s: Stores, m: WriteMoves)
    requires g.Valid() && Fit(g, s) && WriteMovesFit(g, |s.disk|, wide, m) && g.Post() == 0
    ensures AfterWrite(g, wide, s, m) == AfterMain(g, wide, AfterPre(g, wide, s, m.preRead, m.preWrite), m.main)
    ensures Kept(g) == g.length
  {
    hide AfterMain, AfterPre, Remainder, Geometry.Pre;
  }

  /** A covered first block is written back with the caller's bytes in their places only. */
  lemma CoveredBlockByte(g: Geometry, wide: bool, s: Stores, m: WriteMoves, j: nat)
    requires g.Valid() && Fit(g, s) && WriteMovesFit(g, |s.disk|, wide, m) && g.Offset() != 0 && FirstKept(g, m)
    requires j < m.preWrite && !(g.Offset() <= j < g.Offset() + g.Pre())
    ensures BlockByte(g, wide, s, m.preRead, j) == s.disk[At(wide, g.pos - g.Offset()) + j]
  {
    hide Remainder, At, Geometry.Offset, Geometry.Pre, Geometry.Post;
  }

  lemma CoveredFirst(g: Geometry, wide: bool, s: Stores, m: WriteMoves)
    requires g.Valid() && Fit(g, s) && WriteMovesFit(g, |s.disk|, wide, m)
    requires g.pos + g.length <= |s.disk| && FirstCovered(g, wide, m)
    ensures AfterPre(g, wide, s, m.preRead, m.preWrite).disk == Overlay(s.disk, g.pos, s.buf[..g.Pre()])
  {
    hide AfterPre, BlockByte, FirstKept, Remainder, At, Geometry.Offset, Geometry.Post;
    TruncatedIsLower(wide, g.pos - g.Offset());
    NoPartialBlock(g, wide, s, m.preRead, m.preWrite);
    if g.Offset() != 0 {
      CoveredDisk(g, wide, s, m);
    }
  }

  lemma CoveredDisk(g: Geometry, wide: bool, s: Stores, m: WriteMoves)
    requires g.Valid() && Fit(g, s) && WriteMovesFit(g, |s.disk|, wide, m)
    requires g.pos + g.length <= |s.disk| && FirstCovered(g, wide, m) && g.Offset() != 0
    ensures AfterPre(g, wide, s, m.preRead, m.preWrite).disk == Overlay(s.disk, g.pos, s.buf[..g.Pre()])
  {
    hide AfterPre, BlockByte, FirstKept, Overlay, Remainder, At, Geometry.Offset, Geometry.Pre, Geometry.Post;
    TruncatedIsLower(wide, g.pos - g.Offset());
    PreBytes(g, wide, s, m.preRead, m.preWrite);
    var d, flat := AfterPre(g, wide, s, m.preRead, m.preWrite).disk, Overlay(s.disk, g.pos, s.buf[..g.Pre()]);
    var at := At(wide, g.pos - g.Offset());
    forall x | 0 <= x < |s.disk| ensures d[x] == flat[x] {
      if at <= x < at + m.preWrite {
        if g.Offset() <= x - at < g.Offset() + g.Pre() {
          CallersByte(g, wide, s, m.preRead, x - at);
        } else {
          CoveredBlockByte(g, wide, s, m, x - at);
        }
      }
    }
  }

  lemma CallersByte(g: Geometry, wide: bool, s: Stores, rd: nat, j: nat)
    requires g.Valid() && Fit(g, s) && InRange(|s.disk|, wide, g.pos - g.Offset(), g.blockSize, rd)
    requires g.Offset() <= j < g.Offset() + g.Pre()
    ensures BlockByte(g, wide, s, rd, j) == s.buf[j - g.Offset()]
  {
    hide Remainder, At, Geometry.Offset, Geometry.Pre;
  }

  lemma CoveredMain(g: Geometry, wide: bool, s: Stores, m: WriteMoves)
    requires g.Valid() && Fit(g, s) && WriteMovesFit(g, |s.disk|, wide, m)
    requires g.pos + g.length <= |s.disk| && FirstCovered(g, wide, m) && MainCovered(g, wide, m)
    ensures AfterMain(g, wide, AfterPre(g, wide, s, m.preRead, m.preWrite), m.main).disk ==
      Overlay(s.disk, g.pos, s.buf[..Kept(g)])
  {
    hide AfterPre, AfterMain, Remainder, At, FirstCovered, Geometry.Offset, Geometry.Pre, Geometry.Post;
    TruncatedIsLower(wide, g.pos + g.Pre());
    CoveredFirst(g, wide, s, m);
    var s1 := AfterPre(g, wide, s, m.preRead, m.preWrite);
    MainBytes(g, wide, s1, m.main);
    var d, flat := AfterMain(g, wide, s1, m.main).disk, Overlay(s.disk, g.pos, s.buf[..Kept(g)]);
    assert forall x :: 0 <= x < |s.disk| ==> d[x] == flat[x];
  }

  lemma CoveredWriteIsExact(g: Geometry, wide: bool, s: Stores, m: WriteMoves)
    requires g.Valid() && Fit(g, s) && WriteMovesFit(g, |s.disk|, wide, m)
    requires g.pos + g.length <= |s.disk| && WriteCovers(g, wide, m)
    ensures AfterWrite(g, wide, s, m).disk == FlatWrite(g, s.disk, s.buf)
  {
    hide AfterWrite, AfterPre, AfterMain, FirstCovered, MainCovered, Overlay, WriteMovesFit, Kept;
    NoTail(g, wide, s, m);
    CoveredMain(g, wide, s, m);
  }

  /** The caller's byte i is written to its place. */
  predicate Lands(g: Geometry, wide: bool, m: WriteMoves, i: nat)
    requires g.Valid()
  {
    if i < g.Pre() then Reaches(wide, g.pos - g.Offset()) && g.Offset() + i < m.preWrite
    else Reaches(wide, g.pos + g.Pre()) && i - g.Pre() < m.main
  }

  /** A byte that does not land is missing. */
  lemma LostByte(g: Geometry, size: nat, wide: bool, m: WriteMoves, i: nat)
    requires g.Valid() && WriteMovesFit(g, size, wide, m) && g.pos + g.length <= size
    requires g.Post() == 0 && i < g.length && !Lands(g, wide, m, i)
    ensures !WriteAlwaysExact(g, size, wide, m)
  {
    hide AfterWrite, AfterPre, AfterMain, Remainder, At, Geometry.Offset, Geometry.Post, Zeros;
    var s := Stores(Zeros(size), Zeros(TMP_BUF_SIZE), Zeros(g.length)[i := 1]);
    NoTail(g, wide, s, m);
    TruncatedIsLower(wide, g.pos - g.Offset());
    TruncatedIsLower(wide, g.pos + g.Pre());
    NoPartialBlock(g, wide, s, m.preRead, m.preWrite);
    var s1 := AfterPre(g, wide, s, m.preRead, m.preWrite);
    if g.Offset() != 0 {
      PreBytes(g, wide, s, m.preRead, m.preWrite);
    }
    assert s1.disk[g.pos + i] == 0;
    MainBytes(g, wide, s1, m.main);
    assert AfterWrite(g, wide, s, m).disk[g.pos + i] == 0;
    assert FlatWrite(g, s.disk, s.buf)[g.pos + i] == 1;
  }

  /** Nothing nonzero appears where only zeros are read and written. */
  lemma ZerosStay(g: Geometry, wide: bool, s: Stores, m: WriteMoves)
    requires g.Valid() && Fit(g, s) && WriteMovesFit(g, |s.disk|, wide, m)
    requires (forall x :: 0 <= x < |s.disk| ==> s.disk[x] == 0) && (forall x :: 0 <= x < |s.tmp| ==> s.tmp[x] == 0)
    requires forall x :: 0 <= x < Kept(g) ==> s.buf[x] == 0
    ensures var r := AfterMain(g, wide, AfterPre(g, wide, s, m.preRead, m.preWrite), m.main);
      && (forall x :: 0 <= x < |s.disk| ==> r.disk[x] == 0) && (forall x :: 0 <= x < g.blockSize ==> r.tmp[x] == 0)
  {
    hide AfterPre, Remainder, At, Geometry.Offset, Geometry.Post;
    NoPartialBlock(g, wide, s, m.preRead, m.preWrite);
    if g.Offset() != 0 {
      PreBytes(g, wide, s, m.preRead, m.preWrite);
    }
    MainBytes(g, wide, AfterPre(g, wide, s, m.preRead, m.preWrite), m.main);
  }

  /** The last byte of a tail is never written. */
  lemma TailIsLost(g: Geometry, size: nat, wide: bool, m: WriteMoves)
    requires g.Valid() && WriteMovesFit(g, size, wide, m) && g.pos + g.length <= size && g.Post() > 0
    ensures !WriteAlwaysExact(g, size, wide, m)
  {
    hide AfterPre, AfterMain, AfterPost, Remainder, At, Geometry.Offset, Geometry.Pre, Geometry.Post, Zeros;
    var s := Stores(Zeros(size), Zeros(TMP_BUF_SIZE), Zeros(g.length)[g.length - 1 := 1]);
    var s2 := AfterMain(g, wide, AfterPre(g, wide, s, m.preRead, m.preWrite), m.main);
    ZerosStay(g, wide, s, m);
    var t := Overlay(s2.tmp, 0, Slice(s2.disk, At(wide, g.pos + Kept(g)), m.postRead));
    AfterPostIs(g, wide, s2, m.postRead, m.postWrite, t);
    assert forall j :: 0 <= j < g.blockSize ==> t[j] == 0;
    assert AfterWrite(g, wide, s, m).disk[g.pos + g.length - 1] == 0;
    assert FlatWrite(g, s.disk, s.buf)[g.pos + g.length - 1] == 1;
  }

  /** A byte of the first block that is written back unread is damaged. */
  lemma NeighbourIsDamaged(g: Geometry, size: nat, wide: bool, m: WriteMoves, j: nat)
    requires g.Valid() && WriteMovesFit(g, size, wide, m) && g.pos + g.length <= size && g.Post() == 0
    requires g.Offset() != 0 && m.preRead <= j < m.preWrite && !(g.Offset() <= j < g.Offset() + g.Pre())
    requires g.Pre() > 0 ==> Reaches(wide, g.pos - g.Offset())
    ensures !WriteAlwaysExact(g, size, wide, m)
  {
    hide AfterWrite, AfterPre, AfterMain, Remainder, At, Geometry.Offset, Geometry.Pre, Geometry.Post, Zeros,
      IsPowerOfTwo;
    var x := At(wide, g.pos - g.Offset()) + j;
    var s := OneByteAt(g, size, x);
    NoTail(g, wide, s, m);
    TruncatedIsLower(wide, g.pos - g.Offset());
    var s1 := AfterPre(g, wide, s, m.preRead, m.preWrite);
    assert s1.disk[x] == 0 by {
      PreBytes(g, wide, s, m.preRead, m.preWrite);
    }
    MainBytes(g, wide, s1, m.main);
    assert AfterWrite(g, wide, s, m).disk[x] == 0;
    NotRequested(g, wide, j);
    assert FlatWrite(g, s.disk, s.buf)[x] == 1;
  }

  /** Such a byte lies outside the request. */
  lemma NotRequested(g: Geometry, wide: bool, j: nat)
    requires g.Valid() && g.Offset() != 0 && j < g.blockSize && !(g.Offset() <= j < g.Offset() + g.Pre())
    requires g.Pre() > 0 ==> Reaches(wide, g.pos - g.Offset())
    ensures var x := At(wide, g.pos - g.Offset()) + j; !(g.pos <= x < g.pos + g.length)
  {
    hide Remainder, At, Reaches, Geometry.Offset, IsPowerOfTwo;
    TruncatedIsLower(wide, g.pos - g.Offset());
  }

  /** A write whose requests are all answered is exact, whatever the contents, if and only if the
      answers cover it. */
  lemma WriteIsExactIffCovered(g: Geometry, size: nat, wide: bool, m: WriteMoves)
    requires g.Valid() && WriteMovesFit(g, size, wide, m) && g.pos + g.length <= size
    ensures WriteAlwaysExact(g, size, wide, m) <==> WriteCovers(g, wide, m)
  {
    hide WriteMovesFit, Remainder, Geometry.Offset, Geometry.Pre, Geometry.Post, WriteAlwaysExact;
    if WriteCovers(g, wide, m) {
      CoveredWriteAlwaysExact(g, size, wide, m);
    } else if g.Post() > 0 {
      TailIsLost(g, size, wide, m);
    } else if g.Pre() > 0 && !Lands(g, wide, m, g.Pre() - 1) {
      LostByte(g, size, wide, m, g.Pre() - 1);
    } else if g.Main() > 0 && !Lands(g, wide, m, Kept(g) - 1) {
      LostByte(g, size, wide, m, Kept(g) - 1);
    } else {
      NeighbourIsDamaged(g, size, wide, m, if m.preRead < g.Offset() then m.preRead else m.preWrite - 1);
    }
  }

  lemma CoveredWriteAlwaysExact(g: Geometry, size: nat, wide: bool, m: WriteMoves)
    requires g.Valid() && WriteMovesFit(g, size, wide, m) && g.pos + g.length <= size && WriteCovers(g, wide, m)
    ensures WriteAlwaysExact(g, size, wide, m)
  {
    hide WriteMovesFit, WriteCovers, AfterWrite;
    forall s: Stores | Contents(g, size, s) ensures AfterWrite(g, wide, s, m).disk == FlatWrite(g, s.disk, s.buf) {
      CoveredWriteIsExact(g, wide, s, m);
    }
  }

  /** The tail is empty exactly when the request ends on a block boundary or inside the partial
      block it starts in. */
  lemma NoTailIff(g: Geometry)
    requires g.Valid()
    ensures g.Post() == 0 <==>
            (g.pos + g.length) % g.blockSize == 0 || (g.Offset() != 0 && g.Offset() + g.length <= g.blockSize)
  {
    hide Remainder, Geometry.Post, Geometry.Main, IsPowerOfTwo;
    MiddleIsAligned(g);
    if g.Rest() > 0 {
      AlignedPlus(g.pos + g.Pre() + g.Main(), g.blockSize, g.Post());
    } else if g.Offset() == 0 {
      OffsetIsMod(g);
      assert g.length == 0;
    }
  }

  lemma OffsetIsMod(g: Geometry)
    requires g.blockSize > 0
    ensures g.Offset() == g.pos % g.blockSize
  {
    RemainderIsMod(g.pos, g.blockSize);
  }

  lemma AlignedPlus(x: nat, b: nat, r: nat)
    requires b > 0 && x % b == 0 && r < b
    ensures (x + r) % b == r
  {
    var q := x / b;
    assert x == q * b;
    ModUnique(x + r, b, q, r);
  }

  /** Reading back what a covered write wrote returns it, if the read is covered, too; a covered
      read after any write shows what the write left on the device. */
  lemma WriteThenRead(g: Geometry, wide: bool, s: Stores, wm: WriteMoves, dest: seq<byte>, rm: Moves)
    requires g.Valid() && Fit(g, s) && g.pos + g.length <= |s.disk| && |dest| >= g.length
    requires WriteMovesFit(g, |s.disk|, wide, wm) && MovesFit(g, |s.disk|, wide, rm) && Covers(g, wide, rm)
    ensures var w := AfterWrite(g, wide, s, wm);
      var back := AfterRead(g, wide, Stores(w.disk, w.tmp, dest), rm).buf[..g.length];
      && back == w.disk[g.pos..g.pos + g.length]
      && (WriteCovers(g, wide, wm) ==> back == s.buf[..g.length])
  {
    hide AfterRead, AfterWrite, MovesFit, WriteMovesFit, Covers, WriteCovers;
    var w := AfterWrite(g, wide, s, wm);
    CoveredReadIsExact(g, wide, Stores(w.disk, w.tmp, dest), rm);
    if WriteCovers(g, wide, wm) {
      CoveredWriteIsExact(g, wide, s, wm);
      assert FlatWrite(g, s.disk, s.buf)[g.pos..g.pos + g.length] == s.buf[..g.length];
    }
  }
}
