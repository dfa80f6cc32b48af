/** Sys_read and Sys_write on a device, step by step. */
module SysFile {
  import opened MacMemory
  import opened BlockIo
  import opened SysSpec

  class FileHandle {
    const device: Device
    const startByte: nat
    const blockSize: nat
    const tmp: array<byte>

    constructor (device: Device, startByte: nat, blockSize: nat)
      requires IsPowerOfTwo(blockSize) && 0 < blockSize <= TMP_BUF_SIZE
      ensures Valid() && fresh(tmp)
      ensures this.device == device && this.startByte == startByte && this.blockSize == blockSize
    {
      this.device, this.startByte, this.blockSize := device, startByte, blockSize;
      tmp := new byte[TMP_BUF_SIZE];
    }

    ghost predicate Valid() {
      IsPowerOfTwo(blockSize) && 0 < blockSize <= TMP_BUF_SIZE && tmp.Length == TMP_BUF_SIZE
    }

    function Place(offset: nat, length: nat): Geometry {
      Geometry(offset + startByte, length, blockSize)
    }

    /** The device, the temporary buffer and a caller's buffer. */
    ghost function Now(buffer: array<byte>): Stores
      reads device, tmp, buffer
    {
      Stores(device.disk, tmp[..], buffer[..])
    }

    /** Read one block into the temporary buffer and copy `count` bytes of it, from `skip` on. */
    method ReadPartial(buffer: array<byte>, at: nat, blockPos: nat, skip: nat, count: nat) returns (n: nat)
      requires Valid() && at + count <= buffer.Length && buffer != tmp && skip + count <= blockSize
      modifies device`disk, device`requests, buffer, tmp
      ensures device.disk == old(device.disk)
      ensures device.requests == old(device.requests) + [Request(false, blockPos, blockSize)]
      ensures var r, reply := Request(false, blockPos, blockSize), device.answers(|old(device.requests)|);
        && (n != 0 <==> Answered(|device.disk|, device.wide, r, reply))
        && tmp[..] == Overlay(old(tmp[..]), 0, Slice(device.disk, At(device.wide, blockPos),
                                                     Moved(|device.disk|, device.wide, r, reply)))
      ensures buffer[..] == if n == 0 then old(buffer[..])
        else Overlay(old(buffer[..]), at, tmp[..][skip..skip + count])
    {
      n := device.Send(false, blockSize, blockPos, tmp, 0);
      if n == 0 {
        return;
      }
      ghost var before := buffer[..];
      forall i | 0 <= i < count {
        buffer[at + i] := tmp[skip + i];
      }
      assert buffer[..] == Overlay(before, at, tmp[..][skip..skip + count]);
    }

    method ReadFirst(buffer: array<byte>, pos: nat, length: nat) returns (ok: bool, n: nat)
      requires Valid() && length <= buffer.Length && buffer != tmp
      modifies device`disk, device`requests, buffer, tmp
      ensures device.disk == old(device.disk) && n == Geometry(pos, length, blockSize).Pre()
      ensures var g, k, size, wide :=
        Geometry(pos, length, blockSize), |old(device.requests)|, |device.disk|, device.wide;
        && device.requests == old(device.requests) + FirstRead(g)
        && ok == AllAnswered(size, wide, FirstRead(g), device.answers, k)
        && (ok ==>
          Now(buffer) ==
          AfterFirst(g, wide, old(Now(buffer)),
                     Moved(size, wide, Request(false, pos - g.Offset(), blockSize), device.answers(k))))
    {
      hide Moved, At, Slice, Overlay, AllAnswered, Answered, IsPowerOfTwo, Remainder, Geometry.Post, AfterFirst;
      ghost var g, k, s := Geometry(pos, length, blockSize), |device.requests|, Now(buffer);
      ghost var moved := Moved(|s.disk|, device.wide, Request(false, pos - g.Offset(), blockSize), device.answers(k));
      RemainderIsMod(pos, blockSize);
      var preOffset := pos % blockSize;
      if preOffset == 0 {
        AnsweredNone(|device.disk|, device.wide, device.answers, k);
        n := 0;
        assert n == g.Pre();
        NoPartialBlock(g, device.wide, s, moved, moved);
        return true, n;
      }
      n := if blockSize - preOffset > length then length else blockSize - preOffset;
      assert preOffset == g.Offset() && n == g.Pre();
      AnsweredOne(|device.disk|, device.wide, FirstRead(g), device.answers, k);
      var actual := ReadPartial(buffer, 0, pos - preOffset, preOffset, n);
      ok := actual != 0;
      AfterFirstIs(g, device.wide, s, moved, tmp[..]);
    }

    method ReadMiddle(buffer: array<byte>, at: nat, ghost g: Geometry, pos: nat, left: nat) returns (ok: bool, n: nat)
      requires Valid() && g.Valid() && g.blockSize == blockSize && g.length <= buffer.Length && buffer != tmp
      requires at == g.Pre() && left == g.Rest() && pos == g.pos + at
      modifies device`disk, device`requests, buffer
      ensures device.disk == old(device.disk) && n == g.Main()
      ensures var k, size, wide := |old(device.requests)|, |device.disk|, device.wide;
        && device.requests == old(device.requests) + MiddleRead(g)
        && ok == AllAnswered(size, wide, MiddleRead(g), device.answers, k)
        && (ok ==>
          Now(buffer) ==
          AfterMiddle(g, wide, old(Now(buffer)), Moved(size, wide, Request(false, pos, g.Main()), device.answers(k))))
    {
      hide Moved, At, Slice, Overlay, AllAnswered, Answered, IsPowerOfTwo, AndNot, Remainder, Geometry.Offset,
        Geometry.Pre;
      ghost var k := |device.requests|;
      if left < blockSize {
        SmallRest(g);
        AnsweredNone(|device.disk|, device.wide, device.answers, k);
        NothingMoved(|device.disk|, device.wide, Request(false, pos, 0), device.answers(k));
        OverlayNothing(buffer[..], at);
        SliceNothing(device.disk, At(device.wide, pos));
        return true, 0;
      }
      n := AndNot(left, blockSize - 1);
      MaskIsRounding(left, blockSize);
      RemainderIsMod(left, blockSize);
      assert n == g.Main() > 0;
      var actual := device.Send(false, n, pos, buffer, at);
      ok := actual != 0;
      AnsweredOne(|device.disk|, device.wide, MiddleRead(g), device.answers, k);
      IsAnswered(|device.disk|, device.wide, MiddleRead(g)[0], device.answers(k));
    }

    method ReadLast(buffer: array<byte>, at: nat, ghost g: Geometry, pos: nat, left: nat) returns (ok: bool)
      requires Valid() && g.Valid() && g.blockSize == blockSize && g.length <= buffer.Length && buffer != tmp
      requires at == Kept(g) && left == g.Post() && pos == g.pos + at
      modifies device`disk, device`requests, buffer, tmp
      ensures device.disk == old(device.disk)
      ensures var k, size, wide := |old(device.requests)|, |device.disk|, device.wide;
        && device.requests == old(device.requests) + LastRead(g)
        && ok == AllAnswered(size, wide, LastRead(g), device.answers, k)
        && (ok ==>
          Now(buffer) ==
          AfterLast(g, wide, old(Now(buffer)), Moved(size, wide, Request(false, pos, blockSize), device.answers(k))))
    {
      hide Moved, At, Slice, Overlay, AllAnswered, Answered, IsPowerOfTwo, Remainder, Geometry.Offset, Geometry.Pre,
        AfterLast;
      ghost var k, s := |device.requests|, Now(buffer);
      ghost var moved := Moved(|s.disk|, device.wide, Request(false, pos, blockSize), device.answers(k));
      if left == 0 {
        AnsweredNone(|device.disk|, device.wide, device.answers, k);
        NoPartialBlock(g, device.wide, s, moved, moved);
        return true;
      }
      AnsweredOne(|device.disk|, device.wide, LastRead(g), device.answers, k);
      var actual := ReadPartial(buffer, at, pos, 0, left);
      ok := actual != 0;
      AfterLastIs(g, device.wide, s, moved, tmp[..]);
      assert tmp[..][0..left] == tmp[..][..left];
    }

    /** Either every request is answered, then the whole length is reported and the buffer holds
        what was delivered, or 0 is returned. The device never changes. */
    method Read(buffer: array<byte>, offset: nat, length: nat) returns (actual: nat)
      requires Valid() && length <= buffer.Length && buffer != tmp
      modifies device`disk, device`requests, buffer, tmp
      ensures device.disk == old(device.disk)
      ensures var g, k, size := Place(offset, length), |old(device.requests)|, |device.disk|;
        if AllAnswered(size, device.wide, ReadPlan(g), device.answers, k) then
          && actual == length
          && device.requests == old(device.requests) + ReadPlan(g)
          && var m := MovesOf(g, size, device.wide, device.answers, k);
             && MovesFit(g, size, device.wide, m)
             && Now(buffer) == AfterRead(g, device.wide, old(Now(buffer)), m)
        else
          actual == 0
    {
      hide Moved, At, Slice, Overlay, FirstRead, MiddleRead, LastRead, AllAnswered, Answered;
      hide AfterFirst, AfterMiddle, AfterLast, Remainder, Geometry.Offset, Geometry.Pre, Geometry.Post, IsPowerOfTwo;
      ghost var g, k, size, wide := Place(offset, length), |device.requests|, |device.disk|, device.wide;
      AllAnsweredConcat(size, wide, FirstRead(g), MiddleRead(g), device.answers, k);
      AllAnsweredConcat(size, wide, FirstRead(g) + MiddleRead(g), LastRead(g), device.answers, k);
      var pos := offset + startByte;
      var ok, pre := ReadFirst(buffer, pos, length);
      if !ok {
        return 0;
      }
      var main;
      ok, main := ReadMiddle(buffer, pre, g, pos + pre, length - pre);
      if !ok {
        return 0;
      }
      ok := ReadLast(buffer, pre + main, g, pos + pre + main, length - pre - main);
      return if ok then pre + main + (length - pre - main) else 0;
    }

    method FillTmp(buffer: array<byte>, skip: nat, count: nat)
      requires Valid() && count <= buffer.Length && buffer != tmp && skip + count <= blockSize
      modifies tmp
      ensures tmp[..] == Overlay(old(tmp[..]), skip, buffer[..][..count])
    {
      forall i | 0 <= i < count {
        tmp[skip + i] := buffer[i];
      }
    }

    /** Replace `count` bytes of one block, from `skip` on, by bytes of the caller's buffer. */
    method WritePartial(buffer: array<byte>, blockPos: nat, skip: nat, count: nat) returns (n: nat)
      requires Valid() && count <= buffer.Length && buffer != tmp && skip + count <= blockSize
      modifies device`disk, device`requests, tmp
      ensures var r, k, size, wide :=
        Request(false, blockPos, blockSize), |old(device.requests)|, |old(device.disk)|, device.wide;
        var first, second := device.answers(k), device.answers(k + 1);
        && |device.disk| == size
        && (n != 0 <==> Answered(size, wide, r, first) && Answered(size, wide, Writing(r), second))
        && (n != 0 ==>
              && device.requests == old(device.requests) + [r, Writing(r)]
              && tmp[..] == Overlay(Overlay(old(tmp[..]), 0,
                Slice(old(device.disk), At(wide, blockPos), Moved(size, wide, r, first))),
                                    skip, buffer[..][..count])
              && device.disk == Overlay(old(device.disk), At(wide, blockPos),
                tmp[..][..Moved(size, wide, Writing(r), second)]))
    {
      hide Moved, At, Slice, Overlay;
      n := device.Send(false, blockSize, blockPos, tmp, 0);
      if n == 0 {
        return;
      }
      FillTmp(buffer, skip, count);
      n := device.Send(true, blockSize, blockPos, tmp, 0);
    }

    /** The partial last block of a write. The copy goes from the temporary buffer into the caller's
        buffer, so the block is written back as it was read. */
    method WriteLast(buffer: array<byte>, at: nat, blockPos: nat, left: nat) returns (n: nat)
      requires Valid() && at + left <= buffer.Length && buffer != tmp && left <= blockSize
      modifies device`disk, device`requests, tmp, buffer
      ensures var r, k, size, wide :=
        Request(false, blockPos, blockSize), |old(device.requests)|, |old(device.disk)|, device.wide;
        var first, second := device.answers(k), device.answers(k + 1);
        && |device.disk| == size
        && (n != 0 <==> Answered(size, wide, r, first) && Answered(size, wide, Writing(r), second))
        && (n != 0 ==>
              && device.requests == old(device.requests) + [r, Writing(r)]
              && tmp[..] == Overlay(old(tmp[..]), 0,
                Slice(old(device.disk), At(wide, blockPos), Moved(size, wide, r, first)))
              && device.disk == Overlay(old(device.disk), At(wide, blockPos),
                tmp[..][..Moved(size, wide, Writing(r), second)])
              && buffer[..] == Overlay(old(buffer[..]), at, tmp[..][..left]))
    {
      hide Moved, At, Slice, Overlay;
      n := device.Send(false, blockSize, blockPos, tmp, 0);
      if n == 0 {
        return;
      }
      CopyFromTmp(buffer, at, left);
      n := device.Send(true, blockSize, blockPos, tmp, 0);
    }

    method CopyFromTmp(buffer: array<byte>, at: nat, count: nat)
      requires Valid() && at + count <= buffer.Length && buffer != tmp && count <= blockSize
      modifies buffer
      ensures buffer[..] == Overlay(old(buffer[..]), at, tmp[..][..count])
    {
      forall i | 0 <= i < count {
        buffer[at + i] := tmp[i];
      }
    }

    method WriteFirst(buffer: array<byte>, pos: nat, length: nat) returns (ok: bool, n: nat)
      requires Valid() && length <= buffer.Length && buffer != tmp
      modifies device`disk, device`requests, tmp
      ensures n == Geometry(pos, length, blockSize).Pre() && |device.disk| == |old(device.disk)|
      ensures var g, k, size, wide :=
        Geometry(pos, length, blockSize), |old(device.requests)|, |device.disk|, device.wide;
        var p, r := ReadThenWrite(FirstRead(g)), Request(false, pos - g.Offset(), blockSize);
        && ok == AllAnswered(size, wide, p, device.answers, k)
        && (ok ==>
              && device.requests == old(device.requests) + p
              && Now(buffer) == AfterPre(g, wide, old(Now(buffer)), Moved(size, wide, r, device.answers(k)),
                                         Moved(size, wide, Writing(r), device.answers(k + 1))))
    {
      hide Moved, At, Slice, Overlay, AllAnswered, Answered, IsPowerOfTwo, Remainder, Geometry.Post, AfterPre;
      ghost var g, k, s := Geometry(pos, length, blockSize), |device.requests|, Now(buffer);
      ghost var r := Request(false, pos - g.Offset(), blockSize);
      ghost var rd, wr := Moved(|s.disk|, device.wide, r, device.answers(k)),
        Moved(|s.disk|, device.wide, Writing(r), device.answers(k + 1));
      RemainderIsMod(pos, blockSize);
      var preOffset := pos % blockSize;
      if preOffset == 0 {
        AnsweredNone(|device.disk|, device.wide, device.answers, k);
        n := 0;
        assert n == g.Pre();
        NoPartialBlock(g, device.wide, s, rd, wr);
        return true, n;
      }
      n := if blockSize - preOffset > length then length else blockSize - preOffset;
      assert preOffset == g.Offset() && n == g.Pre();
      AnsweredTwo(|device.disk|, device.wide, r, device.answers, k);
      var actual := WritePartial(buffer, pos - preOffset, preOffset, n);
      ok := actual != 0;
      if ok {
        AfterPreIs(g, device.wide, s, rd, wr, tmp[..]);
      }
    }

    method WriteMiddle(buffer: array<byte>, at: nat, ghost g: Geometry, pos: nat, left: nat) returns (ok: bool, n: nat)
      requires Valid() && g.Valid() && g.blockSize == blockSize && g.length <= buffer.Length && buffer != tmp
      requires at == g.Pre() && left == g.Rest() && pos == g.pos + at
      modifies device`disk, device`requests, buffer
      ensures n == g.Main() && |device.disk| == |old(device.disk)|
      ensures var p, k, size, wide := MiddleWrite(g), |old(device.requests)|, |device.disk|, device.wide;
        && ok == AllAnswered(size, wide, p, device.answers, k)
        && (ok ==>
              && device.requests == old(device.requests) + p
              && Now(buffer) == AfterMain(g, wide, old(Now(buffer)),
                Moved(size, wide, Request(true, pos, g.Main()), device.answers(k))))
    {
      hide Moved, At, Slice, Overlay, AllAnswered, Answered, IsPowerOfTwo, AndNot, Remainder, Geometry.Offset,
        Geometry.Pre;
      ghost var k := |device.requests|;
      if left < blockSize {
        SmallRest(g);
        AnsweredNone(|device.disk|, device.wide, device.answers, k);
        NothingMoved(|device.disk|, device.wide, Request(true, pos, 0), device.answers(k));
        assert buffer[..][at..at] == [];
        OverlayNothing(device.disk, At(device.wide, pos));
        return true, 0;
      }
      n := AndNot(left, blockSize - 1);
      MaskIsRounding(left, blockSize);
      RemainderIsMod(left, blockSize);
      assert n == g.Main() > 0;
      var actual := device.Send(true, n, pos, buffer, at);
      ok := actual != 0;
      AnsweredOne(|device.disk|, device.wide, MiddleWrite(g), device.answers, k);
      IsAnswered(|device.disk|, device.wide, MiddleWrite(g)[0], device.answers(k));
    }

    method WriteTail(buffer: array<byte>, at: nat, ghost g: Geometry, pos: nat, left: nat) returns (ok: bool)
      requires Valid() && g.Valid() && g.blockSize == blockSize && g.length <= buffer.Length && buffer != tmp
      requires at == Kept(g) && left == g.Post() && pos == g.pos + at
      modifies device`disk, device`requests, tmp, buffer
      ensures |device.disk| == |old(device.disk)|
      ensures var p, k, size, wide := ReadThenWrite(LastRead(g)), |old(device.requests)|, |device.disk|, device.wide;
        var r := Request(false, pos, blockSize);
        && ok == AllAnswered(size, wide, p, device.answers, k)
        && (ok ==>
              && device.requests == old(device.requests) + p
              && Now(buffer) == AfterPost(g, wide, old(Now(buffer)), Moved(size, wide, r, device.answers(k)),
                                          Moved(size, wide, Writing(r), device.answers(k + 1))))
    {
      hide Moved, At, Slice, Overlay, AllAnswered, Answered, IsPowerOfTwo, Remainder, Geometry.Offset, Geometry.Pre,
        AfterPost;
      ghost var k, s, r := |device.requests|, Now(buffer), Request(false, pos, blockSize);
      ghost var rd, wr := Moved(|s.disk|, device.wide, r, device.answers(k)),
        Moved(|s.disk|, device.wide, Writing(r), device.answers(k + 1));
      if left == 0 {
        AnsweredNone(|device.disk|, device.wide, device.answers, k);
        NoPartialBlock(g, device.wide, s, rd, wr);
        return true;
      }
      AnsweredTwo(|device.disk|, device.wide, r, device.answers, k);
      var actual := WriteLast(buffer, at, pos, left);
      ok := actual != 0;
      if ok {
        AfterPostIs(g, device.wide, s, rd, wr, tmp[..]);
      }
    }

    /** Either every request is answered, then the whole length is reported and device and buffers
        are as `AfterWrite` says, or 0 is returned. */
    method Write(buffer: array<byte>, offset: nat, length: nat) returns (actual: nat)
      requires Valid() && length <= buffer.Length && buffer != tmp
      modifies device`disk, device`requests, tmp, buffer
      ensures |device.disk| == |old(device.disk)|
      ensures var g, k, size := Place(offset, length), |old(device.requests)|, |device.disk|;
        if AllAnswered(size, device.wide, WritePlan(g), device.answers, k) then
          && actual == length
          && device.requests == old(device.requests) + WritePlan(g)
          && var m := WriteMovesOf(g, size, device.wide, device.answers, k);
             && WriteMovesFit(g, size, device.wide, m)
             && Now(buffer) == AfterWrite(g, device.wide, old(Now(buffer)), m)
        else
          actual == 0
    {
      hide Moved, At, Slice, Overlay, FirstRead, MiddleWrite, ReadThenWrite, LastRead, AllAnswered, Answered;
      hide AfterPre, AfterMain, AfterPost, Geometry.Offset, Geometry.Pre, Geometry.Post, IsPowerOfTwo;
      ghost var g, k, size, wide := Place(offset, length), |device.requests|, |device.disk|, device.wide;
      ghost var first, middle, last := ReadThenWrite(FirstRead(g)), MiddleWrite(g), ReadThenWrite(LastRead(g));
      AllAnsweredConcat(size, wide, first, middle, device.answers, k);
      AllAnsweredConcat(size, wide, first + middle, last, device.answers, k);
      var pos := offset + startByte;
      var ok, pre := WriteFirst(buffer, pos, length);
      if !ok {
        return 0;
      }
      var main;
      ok, main := WriteMiddle(buffer, pre, g, pos + pre, length - pre);
      if !ok {
        return 0;
      }
      ok := WriteTail(buffer, pre + main, g, pos + pre + main, length - pre - main);
      return if ok then pre + main + (length - pre - main) else 0;
    }
  }

  lemma SmallRest(g: Geometry)
    requires g.Valid() && g.Rest() < g.blockSize
    ensures g.Main() == 0
  {
  }

  lemma AnsweredTwo(size: nat, wide: bool, r: Request, answers: nat -> IoReply, k: nat)
    ensures AllAnswered(size, wide, [r, Writing(r)], answers, k) <==>
            Answered(size, wide, r, answers(k)) && Answered(size, wide, Writing(r), answers(k + 1))
  {
    hide Answered;
    var p := [r, Writing(r)];
    assert p[0] == r && p[1] == Writing(r) && answers(k + 0) == answers(k);
  }
}
