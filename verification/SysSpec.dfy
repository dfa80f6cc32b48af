/** Sys_read and Sys_write on a device, as functions of the answers: the requests they make, and
    what they leave in the buffers and on the device. */
module SysSpec {
  import opened MacMemory
  import opened BlockIo

  // ------------------------------------------------------------- requests

  /** The requests of a successful read: for the partial first block, for the whole blocks, and
      for the partial last block. */
  function FirstRead(g: Geometry): seq<Request>
    requires g.Valid()
  {
    if g.Offset() == 0 then [] else [Request(false, g.pos - g.Offset(), g.blockSize)]
  }

  function MiddleRead(g: Geometry): seq<Request>
    requires g.Valid()
  {
    if g.Main() == 0 then [] else [Request(false, g.pos + g.Pre(), g.Main())]
  }

  function LastRead(g: Geometry): seq<Request>
    requires g.Valid()
  {
    if g.Post() == 0 then [] else [Request(false, g.pos + g.Pre() + g.Main(), g.blockSize)]
  }

  function ReadPlan(g: Geometry): seq<Request>
    requires g.Valid()
  {
    FirstRead(g) + MiddleRead(g) + LastRead(g)
  }

  function Writing(r: Request): Request {
    Request(true, r.offset, r.length)
  }

  /** A partial block is read and written back. */
  function ReadThenWrite(p: seq<Request>): seq<Request> {
    if p == [] then [] else [p[0], Writing(p[0])]
  }

  function MiddleWrite(g: Geometry): seq<Request>
    requires g.Valid()
  {
    if g.Main() == 0 then [] else [Request(true, g.pos + g.Pre(), g.Main())]
  }

  /** The requests of a successful write. */
  function WritePlan(g: Geometry): seq<Request>
    requires g.Valid()
  {
    ReadThenWrite(FirstRead(g)) + MiddleWrite(g) + ReadThenWrite(LastRead(g))
  }

  predicate BlockAligned(r: Request, blockSize: nat)
    requires blockSize > 0
  {
    r.offset % blockSize == 0 && r.length % blockSize == 0 && r.length > 0
  }

  /** At most three requests for a read and five for a write, all of whole, aligned blocks. */
  lemma PlansAreAligned(g: Geometry)
    requires g.Valid()
    ensures |ReadPlan(g)| <= 3 && |WritePlan(g)| <= 5
    ensures forall r :: r in ReadPlan(g) || r in WritePlan(g) ==> BlockAligned(r, g.blockSize)
  {
    MiddleIsAligned(g);
    ModUnique(g.blockSize, g.blockSize, 1, 0);
  }

  /** Request i of a plan is answered with at least one byte, so the program goes on. */
  predicate Answered(size: nat, wide: bool, r: Request, reply: IoReply) {
    !reply.error && Moved(size, wide, r, reply) > 0
  }

  predicate AllAnswered(size: nat, wide: bool, plan: seq<Request>, answers: nat -> IoReply, k: nat) {
    forall i :: 0 <= i < |plan| ==> Answered(size, wide, plan[i], answers(k + i))
  }

  /** The device reports no error and at least one byte, and the request lies on the device. */
  predicate Reported(size: nat, wide: bool, r: Request, reply: IoReply) {
    !reply.error && reply.actual > 0 && (if wide then r.offset else r.offset % TWO32) < size
  }

  /** So it goes on with every request of a read or a write if and only if the device reports as much
      for each of them. */
  lemma AllAnsweredIff(g: Geometry, size: nat, wide: bool, plan: seq<Request>, answers: nat -> IoReply, k: nat)
    requires g.Valid() && (plan == ReadPlan(g) || plan == WritePlan(g))
    ensures AllAnswered(size, wide, plan, answers, k) <==>
            forall i :: 0 <= i < |plan| ==> Reported(size, wide, plan[i], answers(k + i))
  {
    hide ReadPlan, WritePlan, IsPowerOfTwo, Answered, Reported;
    PlansAreAligned(g);
    forall i | 0 <= i < |plan|
      ensures Answered(size, wide, plan[i], answers(k + i)) <==> Reported(size, wide, plan[i], answers(k + i))
    {
      assert plan[i] in plan && BlockAligned(plan[i], g.blockSize);
      AnsweredIffReported(size, wide, plan[i], answers(k + i));
    }
  }

  lemma AnsweredIffReported(size: nat, wide: bool, r: Request, reply: IoReply)
    requires r.length > 0
    ensures Answered(size, wide, r, reply) <==> Reported(size, wide, r, reply)
  {
  }

  lemma AllAnsweredConcat(size: nat, wide: bool, a: seq<Request>, b: seq<Request>, answers: nat -> IoReply, k: nat)
    ensures AllAnswered(size, wide, a + b, answers, k) <==>
            AllAnswered(size, wide, a, answers, k) && AllAnswered(size, wide, b, answers, k + |a|)
  {
    if AllAnswered(size, wide, a + b, answers, k) {
      assert forall i :: 0 <= i < |a| ==> (a + b)[i] == a[i];
      forall i | 0 <= i < |b| ensures Answered(size, wide, b[i], answers(k + |a| + i)) {
        assert (a + b)[|a| + i] == b[i];
      }
    }
  }

  // ------------------------------------------------------------- what a read returns

  /** How many bytes the (up to) three requests of a read moved. */
  datatype Moves = Moves(pre: nat, main: nat, post: nat)

  function MovesOf(g: Geometry, size: nat, wide: bool, answers: nat -> IoReply, k: nat): Moves
    requires g.Valid()
  {
    var k1 := k + |FirstRead(g)|;
    var k2 := k1 + |MiddleRead(g)|;
    Moves(Moved(size, wide, Request(false, g.pos - g.Offset(), g.blockSize), answers(k)),
          Moved(size, wide, Request(false, g.pos + g.Pre(), g.Main()), answers(k1)),
          Moved(size, wide, Request(false, g.pos + g.Pre() + g.Main(), g.blockSize), answers(k2)))
  }

  predicate InRange(size: nat, wide: bool, offset: nat, length: nat, n: nat) {
    n <= length && (n > 0 ==> At(wide, offset) + n <= size)
  }

  predicate MovesFit(g: Geometry, size: nat, wide: bool, m: Moves)
    requires g.Valid()
  {
    && InRange(size, wide, g.pos - g.Offset(), g.blockSize, m.pre)
    && InRange(size, wide, g.pos + g.Pre(), g.Main(), m.main)
    && InRange(size, wide, g.pos + Kept(g), g.blockSize, m.post)
  }

  /** The device, the temporary buffer and the caller's buffer. */
  datatype Stores = Stores(disk: seq<byte>, tmp: seq<byte>, buf: seq<byte>)

  predicate Fit(g: Geometry, s: Stores) {
    |s.tmp| == TMP_BUF_SIZE && |s.buf| >= g.length
  }

  predicate SameSizes(s: Stores, s': Stores) {
    |s'.disk| == |s.disk| && |s'.tmp| == |s.tmp| && |s'.buf| == |s.buf|
  }

  /** Bytes that come before the partial last block. */
  function Kept(g: Geometry): nat
    requires g.Valid()
  {
    g.Pre() + g.Main()
  }

  /** After n bytes of the partial first block arrived. */
  function AfterFirst(g: Geometry, wide: bool, s: Stores, n: nat): (r: Stores)
    requires g.Valid() && Fit(g, s) && InRange(|s.disk|, wide, g.pos - g.Offset(), g.blockSize, n)
    ensures SameSizes(s, r) && r.disk == s.disk
  {
    if g.Offset() == 0 then s else
    var t := Overlay(s.tmp, 0, Slice(s.disk, At(wide, g.pos - g.Offset()), n));
    Stores(s.disk, t, Overlay(s.buf, 0, t[g.Offset()..g.Offset() + g.Pre()]))
  }

  /** After n bytes of the whole blocks arrived. */
  function AfterMiddle(g: Geometry, wide: bool, s: Stores, n: nat): (r: Stores)
    requires g.Valid() && Fit(g, s) && InRange(|s.disk|, wide, g.pos + g.Pre(), g.Main(), n)
    ensures SameSizes(s, r) && r.disk == s.disk && r.tmp == s.tmp
  {
    s.(buf := Overlay(s.buf, g.Pre(), Slice(s.disk, At(wide, g.pos + g.Pre()), n)))
  }

  /** After n bytes of the partial last block arrived. */
  function AfterLast(g: Geometry, wide: bool, s: Stores, n: nat): (r: Stores)
    requires g.Valid() && Fit(g, s) && InRange(|s.disk|, wide, g.pos + Kept(g), g.blockSize, n)
    ensures SameSizes(s, r) && r.disk == s.disk
  {
    if g.Post() == 0 then s else
    var t := Overlay(s.tmp, 0, Slice(s.disk, At(wide, g.pos + Kept(g)), n));
    Stores(s.disk, t, Overlay(s.buf, Kept(g), t[..g.Post()]))
  }

  /** What a read leaves whose requests were all answered: the bytes that were moved, over what
      happened to be in the temporary or the caller's buffer where a request fell short. */
  function AfterRead(g: Geometry, wide: bool, s: Stores, m: Moves): (r: Stores)
    requires g.Valid() && Fit(g, s) && MovesFit(g, |s.disk|, wide, m)
    ensures SameSizes(s, r) && r.disk == s.disk
  {
    AfterLast(g, wide, AfterMiddle(g, wide, AfterFirst(g, wide, s, m.pre), m.main), m.post)
  }

  // ------------------------------------------------------------- what a write leaves behind

  /** How many bytes the (up to) five requests of a write moved. */
  datatype WriteMoves = WriteMoves(preRead: nat, preWrite: nat, main: nat, postRead: nat, postWrite: nat)

  function WriteMovesOf(g: Geometry, size: nat, wide: bool, answers: nat -> IoReply, k: nat): WriteMoves
    requires g.Valid()
  {
    var k1 := k + |ReadThenWrite(FirstRead(g))|;
    var k2 := k1 + |MiddleWrite(g)|;
    WriteMoves(Moved(size, wide, Request(false, g.pos - g.Offset(), g.blockSize), answers(k)),
               Moved(size, wide, Request(true, g.pos - g.Offset(), g.blockSize), answers(k + 1)),
               Moved(size, wide, Request(true, g.pos + g.Pre(), g.Main()), answers(k1)),
               Moved(size, wide, Request(false, g.pos + Kept(g), g.blockSize), answers(k2)),
               Moved(size, wide, Request(true, g.pos + Kept(g), g.blockSize), answers(k2 + 1)))
  }

  predicate WriteMovesFit(g: Geometry, size: nat, wide: bool, m: WriteMoves)
    requires g.Valid()
  {
    && InRange(size, wide, g.pos - g.Offset(), g.blockSize, m.preRead)
    && InRange(size, wide, g.pos - g.Offset(), g.blockSize, m.preWrite)
    && InRange(size, wide, g.pos + g.Pre(), g.Main(), m.main)
    && InRange(size, wide, g.pos + Kept(g), g.blockSize, m.postRead)
    && InRange(size, wide, g.pos + Kept(g), g.blockSize, m.postWrite)
  }

  /** After the partial first block: rd bytes of it were read, the caller's bytes put in, and wr
      bytes written back. */
  function AfterPre(g: Geometry, wide: bool, s: Stores, rd: nat, wr: nat): (r: Stores)
    requires g.Valid() && Fit(g, s)
    requires InRange(|s.disk|, wide, g.pos - g.Offset(), g.blockSize, rd)
    requires InRange(|s.disk|, wide, g.pos - g.Offset(), g.blockSize, wr)
    ensures SameSizes(s, r) && r.buf == s.buf
  {
    if g.Offset() == 0 then s else
    var at := At(wide, g.pos - g.Offset());
    var t := Overlay(Overlay(s.tmp, 0, Slice(s.disk, at, rd)), g.Offset(), s.buf[..g.Pre()]);
    Stores(Overlay(s.disk, at, t[..wr]), t, s.buf)
  }

  /** After n bytes of the whole blocks were written. */
  function AfterMain(g: Geometry, wide: bool, s: Stores, n: nat): (r: Stores)
    requires g.Valid() && Fit(g, s) && InRange(|s.disk|, wide, g.pos + g.Pre(), g.Main(), n)
    ensures SameSizes(s, r) && r.buf == s.buf
  {
    s.(disk := Overlay(s.disk, At(wide, g.pos + g.Pre()), s.buf[g.Pre()..g.Pre() + n]))
  }

  /** After the partial last block: rd bytes of it were read and copied into the caller's buffer,
      and wr bytes written back. */
  function AfterPost(g: Geometry, wide: bool, s: Stores, rd: nat, wr: nat): (r: Stores)
    requires g.Valid() && Fit(g, s)
    requires InRange(|s.disk|, wide, g.pos + Kept(g), g.blockSize, rd)
    requires InRange(|s.disk|, wide, g.pos + Kept(g), g.blockSize, wr)
    ensures SameSizes(s, r)
  {
    if g.Post() == 0 then s else
    var at := At(wide, g.pos + Kept(g));
    var t := Overlay(s.tmp, 0, Slice(s.disk, at, rd));
    Stores(Overlay(s.disk, at, t[..wr]), t, Overlay(s.buf, Kept(g), t[..g.Post()]))
  }

  /** What a write leaves behind whose requests were all answered. */
  function AfterWrite(g: Geometry, wide: bool, s: Stores, m: WriteMoves): (r: Stores)
    requires g.Valid() && Fit(g, s) && WriteMovesFit(g, |s.disk|, wide, m)
    ensures SameSizes(s, r)
  {
    AfterPost(g, wide, AfterMain(g, wide, AfterPre(g, wide, s, m.preRead, m.preWrite), m.main), m.postRead, m.postWrite)
  }

  // ------------------------------------------------------------- small facts

  lemma OverlayNothing(s: seq<byte>, at: nat)
    ensures Overlay(s, at, []) == s
  {
  }

  lemma SliceNothing(s: seq<byte>, at: nat)
    ensures Slice(s, at, 0) == []
  {
  }

  lemma NothingMoved(size: nat, wide: bool, r: Request, reply: IoReply)
    requires r.length == 0
    ensures Moved(size, wide, r, reply) == 0
  {
  }

  lemma IsAnswered(size: nat, wide: bool, r: Request, reply: IoReply)
    ensures Answered(size, wide, r, reply) <==> !reply.error && Moved(size, wide, r, reply) > 0
  {
  }

  lemma AnsweredNone(size: nat, wide: bool, answers: nat -> IoReply, k: nat)
    ensures AllAnswered(size, wide, [], answers, k)
  {
  }

  lemma AnsweredOne(size: nat, wide: bool, p: seq<Request>, answers: nat -> IoReply, k: nat)
    requires |p| == 1
    ensures AllAnswered(size, wide, p, answers, k) <==> Answered(size, wide, p[0], answers(k))
  {
  }

  lemma AfterFirstIs(g: Geometry, wide: bool, s: Stores, n: nat, tmp: seq<byte>)
    requires g.Valid() && Fit(g, s) && InRange(|s.disk|, wide, g.pos - g.Offset(), g.blockSize, n)
    requires g.Offset() != 0 && tmp == Overlay(s.tmp, 0, Slice(s.disk, At(wide, g.pos - g.Offset()), n))
    ensures AfterFirst(g, wide, s, n) == Stores(s.disk, tmp, Overlay(s.buf, 0, tmp[g.Offset()..g.Offset() + g.Pre()]))
  {
    hide Overlay, Slice, At, Remainder, Geometry.Offset, Geometry.Pre;
  }

  lemma AfterLastIs(g: Geometry, wide: bool, s: Stores, n: nat, tmp: seq<byte>)
    requires g.Valid() && Fit(g, s) && InRange(|s.disk|, wide, g.pos + Kept(g), g.blockSize, n)
    requires g.Post() != 0 && tmp == Overlay(s.tmp, 0, Slice(s.disk, At(wide, g.pos + Kept(g)), n))
    ensures AfterLast(g, wide, s, n) == Stores(s.disk, tmp, Overlay(s.buf, Kept(g), tmp[..g.Post()]))
  {
    hide Overlay, Slice, At, Remainder, Geometry.Offset, Geometry.Pre, Geometry.Post;
  }

  lemma AfterPreIs(g: Geometry, wide: bool, s: Stores, rd: nat, wr: nat, tmp: seq<byte>)
    requires g.Valid() && Fit(g, s) && g.Offset() != 0
    requires InRange(|s.disk|, wide, g.pos - g.Offset(), g.blockSize, rd)
    requires InRange(|s.disk|, wide, g.pos - g.Offset(), g.blockSize, wr)
    requires tmp == Overlay(Overlay(s.tmp, 0, Slice(s.disk, At(wide, g.pos - g.Offset()), rd)), g.Offset(),
      s.buf[..g.Pre()])
    ensures AfterPre(g, wide, s, rd, wr) == Stores(Overlay(s.disk, At(wide, g.pos - g.Offset()), tmp[..wr]), tmp, s.buf)
  {
    hide Overlay, Slice, At, Remainder, Geometry.Offset, Geometry.Pre;
  }

  lemma AfterPostIs(g: Geometry, wide: bool, s: Stores, rd: nat, wr: nat, tmp: seq<byte>)
    requires g.Valid() && Fit(g, s) && g.Post() != 0
    requires InRange(|s.disk|, wide, g.pos + Kept(g), g.blockSize, rd)
    requires InRange(|s.disk|, wide, g.pos + Kept(g), g.blockSize, wr)
    requires tmp == Overlay(s.tmp, 0, Slice(s.disk, At(wide, g.pos + Kept(g)), rd))
    ensures AfterPost(g, wide, s, rd, wr) ==
      Stores(Overlay(s.disk, At(wide, g.pos + Kept(g)), tmp[..wr]), tmp, Overlay(s.buf, Kept(g), tmp[..g.Post()]))
  {
    hide Overlay, Slice, At, Remainder, Geometry.Offset, Geometry.Pre, Geometry.Post;
  }

  lemma NoPartialBlock(g: Geometry, wide: bool, s: Stores, rd: nat, wr: nat)
    requires g.Valid() && Fit(g, s)
    ensures g.Offset() == 0 && InRange(|s.disk|, wide, g.pos - g.Offset(), g.blockSize, rd)
        && InRange(|s.disk|, wide, g.pos - g.Offset(), g.blockSize, wr)
        ==> AfterFirst(g, wide, s, rd) == s && AfterPre(g, wide, s, rd, wr) == s
    ensures g.Post() == 0 && InRange(|s.disk|, wide, g.pos + Kept(g), g.blockSize, rd)
        && InRange(|s.disk|, wide, g.pos + Kept(g), g.blockSize, wr)
        ==> AfterLast(g, wide, s, rd) == s && AfterPost(g, wide, s, rd, wr) == s
  {
    hide Overlay, Slice, At, Remainder, Geometry.Offset, Geometry.Pre, Geometry.Post;
  }
}
