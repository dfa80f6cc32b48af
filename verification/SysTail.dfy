/** What a caller can tell beforehand: reads and writes on a device that answers in full, writes with
    a partial last block, and answers too short for what the program concludes. */
module SysTail {
  import opened MacMemory
  import opened BlockIo
  import opened SysSpec
  import opened SysExact

  // ------------------------------------------------------------- devices that answer in full

  /** The request is answered without an error and for all its bytes. */
  predicate FullAnswer(size: nat, wide: bool, r: Request, reply: IoReply) {
    !reply.error && Moved(size, wide, r, reply) == r.length
  }

  predicate InFull(size: nat, wide: bool, plan: seq<Request>, answers: nat -> IoReply, k: nat) {
    forall i :: 0 <= i < |plan| ==> FullAnswer(size, wide, plan[i], answers(k + i))
  }

  predicate AllReach(wide: bool, plan: seq<Request>) {
    forall i :: 0 <= i < |plan| ==> Reaches(wide, plan[i].offset)
  }

  lemma InFullConcat(size: nat, wide: bool, a: seq<Request>, b: seq<Request>, answers: nat -> IoReply, k: nat)
    requires InFull(size, wide, a + b, answers, k)
    ensures InFull(size, wide, a, answers, k) && InFull(size, wide, b, answers, k + |a|)
  {
    hide FullAnswer;
    forall i | 0 <= i < |a| ensures FullAnswer(size, wide, a[i], answers(k + i)) {
      assert (a + b)[i] == a[i];
    }
    forall i | 0 <= i < |b| ensures FullAnswer(size, wide, b[i], answers(k + |a| + i)) {
      assert (a + b)[|a| + i] == b[i];
    }
  }

  lemma AllReachConcat(wide: bool, a: seq<Request>, b: seq<Request>)
    ensures AllReach(wide, a + b) <==> AllReach(wide, a) && AllReach(wide, b)
  {
    hide Reaches;
    if AllReach(wide, a + b) {
      assert forall i :: 0 <= i < |a| ==> (a + b)[i] == a[i];
      forall i | 0 <= i < |b| ensures Reaches(wide, b[i].offset) {
        assert (a + b)[|a| + i] == b[i];
      }
    }
  }

  lemma MovesAreFit(g: Geometry, size: nat, wide: bool, answers: nat -> IoReply, k: nat)
    requires g.Valid()
    ensures MovesFit(g, size, wide, MovesOf(g, size, wide, answers, k))
    ensures WriteMovesFit(g, size, wide, WriteMovesOf(g, size, wide, answers, k))
  {
    hide At, Moved, Remainder, FirstRead, MiddleRead, MiddleWrite, ReadThenWrite, IsPowerOfTwo;
    hide Geometry.Offset, Geometry.Pre, Geometry.Post;
  }

  /** On a device that answers a read in full, whatever it and the buffers hold, the read delivers
      the flat device's bytes if and only if it asks for none or all its requests reach their
      positions. */
  lemma FullReadIsExactIff(g: Geometry, size: nat, wide: bool, answers: nat -> IoReply, k: nat)
    requires g.Valid() && g.pos + g.length <= size && InFull(size, wide, ReadPlan(g), answers, k)
    ensures var m := MovesOf(g, size, wide, answers, k);
      && MovesFit(g, size, wide, m)
      && (AlwaysExact(g, size, wide, m) <==> g.length == 0 || AllReach(wide, ReadPlan(g)))
  {
    hide InFull, AllReach, MovesOf, MovesFit, AlwaysExact, Covers, Remainder, FirstRead, MiddleRead, LastRead;
    hide Geometry.Offset, Geometry.Pre, Geometry.Post, IsPowerOfTwo;
    MovesAreFit(g, size, wide, answers, k);
    ReadIsExactIffCovered(g, size, wide, MovesOf(g, size, wide, answers, k));
    FullReadCovers(g, size, wide, answers, k);
  }

  lemma FirstOfPlan(size: nat, wide: bool, p: seq<Request>, answers: nat -> IoReply, k: nat)
    requires InFull(size, wide, p, answers, k)
    ensures |p| > 0 ==> Moved(size, wide, p[0], answers(k)) == p[0].length
    ensures |p| > 1 ==> Moved(size, wide, p[1], answers(k + 1)) == p[1].length
    ensures |p| == 0 ==> AllReach(wide, p)
    ensures |p| == 1 || (|p| == 2 && p[1].offset == p[0].offset) ==> (AllReach(wide, p) <==> Reaches(wide, p[0].offset))
  {
    hide Moved;
    if |p| > 0 {
      assert FullAnswer(size, wide, p[0], answers(k + 0));
    }
    if |p| > 1 {
      assert FullAnswer(size, wide, p[1], answers(k + 1));
    }
  }

  lemma FullReadCovers(g: Geometry, size: nat, wide: bool, answers: nat -> IoReply, k: nat)
    requires g.Valid() && InFull(size, wide, ReadPlan(g), answers, k)
    ensures Covers(g, wide, MovesOf(g, size, wide, answers, k)) <==> g.length == 0 || AllReach(wide, ReadPlan(g))
  {
    hide InFull, AllReach, Reaches, Moved, Remainder, Geometry.Offset, Geometry.Post, IsPowerOfTwo;
    var a, b, c := FirstRead(g), MiddleRead(g), LastRead(g);
    InFullConcat(size, wide, a + b, c, answers, k);
    InFullConcat(size, wide, a, b, answers, k);
    AllReachConcat(wide, a + b, c);
    AllReachConcat(wide, a, b);
    FirstOfPlan(size, wide, a, answers, k);
    FirstOfPlan(size, wide, b, answers, k + |a|);
    FirstOfPlan(size, wide, c, answers, k + |a| + |b|);
  }

  /** On a device that answers a write in full, exactly the requested bytes are replaced, whatever
      it and the buffers hold, if and only if the request ends on a block boundary or inside the
      partial block it starts in, and either has no bytes or all its requests reach their
      positions. */
  lemma FullWriteIsExactIff(g: Geometry, size: nat, wide: bool, answers: nat -> IoReply, k: nat)
    requires g.Valid() && g.pos + g.length <= size && InFull(size, wide, WritePlan(g), answers, k)
    ensures var m := WriteMovesOf(g, size, wide, answers, k);
      && WriteMovesFit(g, size, wide, m)
      && (WriteAlwaysExact(g, size, wide, m) <==>
          && ((g.pos + g.length) % g.blockSize == 0 || (g.Offset() != 0 && g.Offset() + g.length <= g.blockSize))
          && (g.length == 0 || AllReach(wide, WritePlan(g))))
  {
    hide InFull, AllReach, WriteMovesOf, WriteMovesFit, WriteAlwaysExact, WriteCovers, Remainder, WritePlan;
    hide Geometry.Offset, Geometry.Pre, Geometry.Post, IsPowerOfTwo;
    MovesAreFit(g, size, wide, answers, k);
    WriteIsExactIffCovered(g, size, wide, WriteMovesOf(g, size, wide, answers, k));
    FullWriteCovers(g, size, wide, answers, k);
    NoTailIff(g);
  }

  /** The part of a write for the partial first block, and the part for the whole blocks. */
  lemma FullFirstCovers(g: Geometry, size: nat, wide: bool, answers: nat -> IoReply, k: nat, m: WriteMoves)
    requires g.Valid() && InFull(size, wide, ReadThenWrite(FirstRead(g)), answers, k)
    requires m == WriteMovesOf(g, size, wide, answers, k)
    ensures FirstCovered(g, wide, m) <==> g.Pre() == 0 || AllReach(wide, ReadThenWrite(FirstRead(g)))
    ensures g.Pre() == 0 ==> g.length == 0 || AllReach(wide, ReadThenWrite(FirstRead(g)))
  {
    hide InFull, AllReach, Reaches, Moved, Remainder, Geometry.Offset, Geometry.Post, IsPowerOfTwo;
    FirstOfPlan(size, wide, ReadThenWrite(FirstRead(g)), answers, k);
  }

  lemma FullMainCovers(g: Geometry, size: nat, wide: bool, answers: nat -> IoReply, k: nat, m: WriteMoves)
    requires g.Valid() && InFull(size, wide, MiddleWrite(g), answers, k + |ReadThenWrite(FirstRead(g))|)
    requires m == WriteMovesOf(g, size, wide, answers, k)
    ensures MainCovered(g, wide, m) <==> AllReach(wide, MiddleWrite(g))
  {
    hide InFull, AllReach, Reaches, Moved, Remainder, ReadThenWrite, FirstRead, Geometry.Offset, Geometry.Post,
      IsPowerOfTwo;
    FirstOfPlan(size, wide, MiddleWrite(g), answers, k + |ReadThenWrite(FirstRead(g))|);
  }

  lemma FullWriteCovers(g: Geometry, size: nat, wide: bool, answers: nat -> IoReply, k: nat)
    requires g.Valid() && InFull(size, wide, WritePlan(g), answers, k)
    ensures WriteCovers(g, wide, WriteMovesOf(g, size, wide, answers, k)) <==>
            g.Post() == 0 && (g.length == 0 || AllReach(wide, WritePlan(g)))
  {
    hide InFull, AllReach, WriteMovesOf, FirstCovered, MainCovered, FirstRead, Remainder, IsPowerOfTwo;
    hide Geometry.Offset, Geometry.Pre, Geometry.Post;
    var m := WriteMovesOf(g, size, wide, answers, k);
    var a, b, c := ReadThenWrite(FirstRead(g)), MiddleWrite(g), ReadThenWrite(LastRead(g));
    InFullConcat(size, wide, a + b, c, answers, k);
    InFullConcat(size, wide, a, b, answers, k);
    AllReachConcat(wide, a + b, c);
    AllReachConcat(wide, a, b);
    FullFirstCovers(g, size, wide, answers, k, m);
    FullMainCovers(g, size, wide, answers, k, m);
    FirstOfPlan(size, wide, c, answers, k + |a| + |b|);
  }

  // ------------------------------------------------------------- fully served writes

  /** Every request a write makes is answered in full and reaches the position meant. */
  predicate Served(g: Geometry, wide: bool, m: WriteMoves)
    requires g.Valid()
  {
    && (g.Offset() != 0 ==> Reaches(wide, g.pos - g.Offset()) && m.preRead == m.preWrite == g.blockSize)
    && (g.Main() > 0 ==> Reaches(wide, g.pos + g.Pre()) && m.main == g.Main())
    && (g.Post() > 0 ==> Reaches(wide, g.pos + Kept(g)) && m.postRead == m.postWrite == g.blockSize)
  }

  /** A served write puts all but the partial last block's bytes on the device, and replaces those
      in the caller's buffer by what the device holds there. */
  lemma ServedWrite(g: Geometry, wide: bool, s: Stores, m: WriteMoves)
    requires g.Valid() && Fit(g, s) && WriteMovesFit(g, |s.disk|, wide, m)
    requires g.pos + g.length <= |s.disk| && Served(g, wide, m)
    ensures var w := AfterWrite(g, wide, s, m);
      && w.disk == Overlay(s.disk, g.pos, s.buf[..Kept(g)])
      && Kept(g) + g.Post() == g.length
      && w.buf == Overlay(s.buf, Kept(g), s.disk[g.pos + Kept(g)..g.pos + g.length])
  {
    hide AfterPre, AfterMain, AfterPost, Overlay, Slice, Remainder, At, Geometry.Offset, Geometry.Pre, Geometry.Post,
      IsPowerOfTwo;
    ServedIsCovered(g, wide, m);
    CoveredMain(g, wide, s, m);
    var s2 := AfterMain(g, wide, AfterPre(g, wide, s, m.preRead, m.preWrite), m.main);
    NoPartialBlock(g, wide, s2, m.postRead, m.postWrite);
    if g.Post() == 0 {
      OverlayNothing(s.buf, Kept(g));
      assert s.disk[g.pos + Kept(g)..g.pos + g.length] == [];
    } else {
      ServedTail(g, wide, s, s2, m);
    }
  }

  lemma ServedIsCovered(g: Geometry, wide: bool, m: WriteMoves)
    requires g.Valid() && Served(g, wide, m)
    ensures FirstCovered(g, wide, m) && MainCovered(g, wide, m)
  {
    hide Remainder, Geometry.Offset, Geometry.Post;
  }

  lemma ServedTail(g: Geometry, wide: bool, s: Stores, s2: Stores, m: WriteMoves)
    requires g.Valid() && Fit(g, s) && WriteMovesFit(g, |s.disk|, wide, m)
    requires g.pos + g.length <= |s.disk| && Served(g, wide, m) && g.Post() > 0
    requires SameSizes(s, s2) && s2.buf == s.buf && s2.disk == Overlay(s.disk, g.pos, s.buf[..Kept(g)])
    ensures Kept(g) + g.Post() == g.length
    ensures var r := AfterPost(g, wide, s2, m.postRead, m.postWrite);
      r.disk == s2.disk && r.buf == Overlay(s.buf, Kept(g), s.disk[g.pos + Kept(g)..g.pos + g.length])
  {
    hide AfterPost, Overlay, Slice, Remainder, At, Geometry.Offset, Geometry.Pre, Geometry.Post, IsPowerOfTwo;
    var at := g.pos + Kept(g);
    TruncatedIsLower(wide, at);
    var t := Overlay(s2.tmp, 0, Slice(s2.disk, at, g.blockSize));
    AfterPostIs(g, wide, s2, m.postRead, m.postWrite, t);
    BlockUnchanged(s2.disk, s2.tmp, at, g.blockSize, g.Post());
    assert Slice(s2.disk, at, g.Post()) == s.disk[at..g.pos + g.length];
  }

  lemma BlockUnchanged(disk: seq<byte>, tmp0: seq<byte>, pos: nat, size: nat, left: nat)
    requires pos + size <= |disk| && size <= |tmp0| && left <= size
    ensures var tmp := Overlay(tmp0, 0, Slice(disk, pos, size));
      Overlay(disk, pos, tmp[..size]) == disk && tmp[..left] == Slice(disk, pos, left)
  {
    hide Slice, Overlay;
    var tmp := Overlay(tmp0, 0, Slice(disk, pos, size));
    assert forall i :: 0 <= i < |disk| ==> Overlay(disk, pos, tmp[..size])[i] == disk[i];
    assert tmp[..left] == Slice(disk, pos, left);
  }

  /** Reading back a served write returns the data if and only if the tail already agreed with
      the device. */
  lemma ServedWriteThenRead(g: Geometry, wide: bool, s: Stores, wm: WriteMoves, dest: seq<byte>, rm: Moves)
    requires g.Valid() && Fit(g, s) && g.pos + g.length <= |s.disk| && |dest| >= g.length
    requires WriteMovesFit(g, |s.disk|, wide, wm) && Served(g, wide, wm)
    requires MovesFit(g, |s.disk|, wide, rm) && Covers(g, wide, rm)
    ensures var w := AfterWrite(g, wide, s, wm);
      var back := AfterRead(g, wide, Stores(w.disk, w.tmp, dest), rm).buf[..g.length];
      && Kept(g) <= g.length
      && (back == s.buf[..g.length] <==> s.buf[Kept(g)..g.length] == s.disk[g.pos + Kept(g)..g.pos + g.length])
  {
    hide AfterRead, AfterWrite, MovesFit, WriteMovesFit, Covers, Served, Overlay, Kept, Geometry.Post;
    ServedWrite(g, wide, s, wm);
    WriteThenRead(g, wide, s, wm, dest, rm);
    OverlayReadBack(s.disk, s.buf, g.pos, Kept(g), g.length);
  }

  lemma OverlayReadBack(disk: seq<byte>, buf: seq<byte>, pos: nat, kept: nat, n: nat)
    requires kept <= n <= |buf| && pos + n <= |disk|
    ensures var back := Overlay(disk, pos, buf[..kept])[pos..pos + n];
      back == buf[..n] <==> buf[kept..n] == disk[pos + kept..pos + n]
  {
    hide Overlay;
    var back := Overlay(disk, pos, buf[..kept])[pos..pos + n];
    var tail := disk[pos + kept..pos + n];
    assert back == buf[..kept] + tail;
    assert buf[..n] == buf[..kept] + buf[kept..n];
    if back == buf[..n] {
      assert tail == back[kept..] && buf[kept..n] == buf[..n][kept..];
    }
  }

  /** A served write of less than a block to the start of one leaves the device as it was and
      overwrites the caller's buffer with the device's bytes. */
  lemma TailWriteCopiesTheWrongWay(g: Geometry, wide: bool, s: Stores, m: WriteMoves)
    requires g.Valid() && Fit(g, s) && WriteMovesFit(g, |s.disk|, wide, m) && Served(g, wide, m)
    requires g.Offset() == 0 && 0 < g.length < g.blockSize && g.pos + g.length <= |s.disk|
    ensures AfterWrite(g, wide, s, m).disk == s.disk
    ensures AfterWrite(g, wide, s, m).buf == Overlay(s.buf, 0, s.disk[g.pos..g.pos + g.length])
  {
    hide Overlay, Served, AfterWrite, WriteMovesFit, IsPowerOfTwo, Geometry.Offset;
    ServedWrite(g, wide, s, m);
    assert Kept(g) == 0;
    assert s.buf[..0] == [];
    OverlayNothing(s.disk, g.pos);
  }

  // ------------------------------------------------------------- short answers

  /** A device that moves one byte per request. */
  function OneByteEach(k: nat): IoReply { IoReply(false, 1) }

  /** Short answers count as success: such a device lets every read and write go through, and
      covers none of more than one byte, nor one of a byte inside a block. */
  lemma ShortAnswersSucceed(g: Geometry, size: nat, wide: bool, k: nat)
    requires g.Valid() && g.pos + g.length <= size && (g.length > 1 || g.Pre() > 0)
    ensures AllAnswered(size, wide, ReadPlan(g), OneByteEach, k)
    ensures !Covers(g, wide, MovesOf(g, size, wide, OneByteEach, k))
    ensures AllAnswered(size, wide, WritePlan(g), OneByteEach, k)
    ensures !WriteCovers(g, wide, WriteMovesOf(g, size, wide, OneByteEach, k))
  {
    hide Remainder, At, Moved, Answered, FirstKept, FirstRead, MiddleRead, LastRead, MiddleWrite, ReadPlan, WritePlan;
    hide Geometry.Offset, Geometry.Post, IsPowerOfTwo;
    MoreThanOneByte(g);
    PlansReachTheDevice(g, size);
    GoesThrough(size, wide, ReadPlan(g), k);
    GoesThrough(size, wide, WritePlan(g), k);
    forall r: Request, i ensures Moved(size, wide, r, OneByteEach(i)) <= 1 {
      AtMostOne(size, wide, r, OneByteEach(i));
    }
  }

  lemma MoreThanOneByte(g: Geometry)
    requires g.Valid() && (g.length > 1 || g.Pre() > 0)
    ensures g.Pre() > 0 || g.Main() > 1 || g.Post() > 1
  {
    hide Remainder, Geometry.Offset, Geometry.Pre, Geometry.Post, IsPowerOfTwo;
    MiddleIsAligned(g);
    if g.Main() == 1 {
      assert g.blockSize == 1;
    }
  }

  lemma GoesThrough(size: nat, wide: bool, plan: seq<Request>, k: nat)
    requires forall r :: r in plan ==> r.offset < size && r.length > 0
    ensures AllAnswered(size, wide, plan, OneByteEach, k)
  {
    forall i | 0 <= i < |plan| ensures Answered(size, wide, plan[i], OneByteEach(k + i)) {
      assert plan[i] in plan;
      OneByteMoved(size, wide, plan[i], OneByteEach(k + i));
    }
  }

  lemma AtMostOne(size: nat, wide: bool, r: Request, reply: IoReply)
    requires reply.actual == 1
    ensures Moved(size, wide, r, reply) <= 1
  {
  }

  lemma OneByteMoved(size: nat, wide: bool, r: Request, reply: IoReply)
    requires r.offset < size && r.length > 0 && reply.actual == 1
    ensures Moved(size, wide, r, reply) == 1
  {
    TruncatedIsLower(wide, r.offset);
  }

  lemma PlansReachTheDevice(g: Geometry, size: nat)
    requires g.Valid() && g.pos + g.length <= size && g.length > 0
    ensures forall r :: r in ReadPlan(g) || r in WritePlan(g) ==> r.offset < size && r.length > 0
  {
    hide Remainder, Geometry.Offset, Geometry.Pre, Geometry.Post, IsPowerOfTwo;
  }
}
