/** Byte-granular reads and writes over a block device, as the AmigaOS back end does them:
    a partial first block, whole middle blocks, a partial last block. */
module BlockIo {
  import opened MacMemory

  const TMP_BUF_SIZE: nat := 0x10000

  // ------------------------------------------------------------- block sizes and masks

  function Pow2(k: nat): (p: nat)
    ensures p > 0
  {
    if k == 0 then 1 else 2 * Pow2(k - 1)
  }

  ghost predicate IsPowerOfTwo(n: nat) {
    exists k: nat :: Pow2(k) == n
  }

  /** x & ~m, bit by bit. */
  function AndNot(x: nat, m: nat): nat {
    if x == 0 then 0 else 2 * AndNot(x / 2, m / 2) + x % 2 * (1 - m % 2)
  }

  lemma {:induction false} AndNotZero(x: nat)
    ensures AndNot(x, 0) == x
  {
    if x != 0 {
      AndNotZero(x / 2);
    }
  }

  lemma AndNotStep(x: nat, m: nat)
    ensures AndNot(x, m) == 2 * AndNot(x / 2, m / 2) + x % 2 * (1 - m % 2)
  {
  }

  /** The mask expression rounds down to a multiple of the block size. */
  lemma {:induction false} MaskRoundsDown(x: nat, k: nat)
    ensures AndNot(x, Pow2(k) - 1) == x - x % Pow2(k)
    decreases k
  {
    hide AndNot;
    if k == 0 {
      AndNotZero(x);
    } else {
      var p := Pow2(k - 1);
      MaskRoundsDown(x / 2, k - 1);
      ModHalves(x, p);
      AndNotStep(x, 2 * p - 1);
      assert (2 * p - 1) / 2 == p - 1 && (2 * p - 1) % 2 == 1;
    }
  }

  lemma ModHalves(x: nat, p: nat)
    requires p > 0
    ensures x - x % (2 * p) == 2 * (x / 2 - x / 2 % p)
  {
    var h := x / 2;
    var q, r := h / p, h % p;
    assert h == q * p + r;
    assert x == q * (2 * p) + (2 * r + x % 2);
    ModUnique(x, 2 * p, q, 2 * r + x % 2);
  }

  lemma ModUnique(x: nat, n: nat, q: nat, r: nat)
    requires n > 0 && x == q * n + r && r < n
    ensures x % n == r && x / n == q
  {
    var d := x / n - q;
    assert x == n * (x / n) + x % n;
    assert d * n == r - x % n by {
      assert d * n == (x / n) * n - q * n;
    }
    assert d >= 1 ==> d * n >= n;
    assert d <= -1 ==> d * n <= 0 - n;
  }

  lemma {:induction false} AndNotSelf(x: nat)
    ensures AndNot(x, x) == 0
  {
    if x != 0 {
      AndNotSelf(x / 2);
    }
  }

  /** n & ~(n - 1) is n for powers of two only. */
  lemma {:induction false} SelfMasked(n: nat)
    requires n > 0 && AndNot(n, n - 1) == n
    ensures IsPowerOfTwo(n)
  {
    var h := n / 2;
    AndNotStep(n, n - 1);
    if n == 1 {
      assert Pow2(0) == 1;
    } else if n % 2 == 0 {
      assert (n - 1) / 2 == h - 1 && (n - 1) % 2 == 1;
      SelfMasked(h);
      var k: nat :| Pow2(k) == h;
      assert Pow2(k + 1) == n;
    } else {
      assert (n - 1) / 2 == h;
      AndNotSelf(h);
    }
  }

  lemma MaskIsRounding(x: nat, n: nat)
    requires IsPowerOfTwo(n)
    ensures n > 0 && AndNot(x, n - 1) == x - x % n
  {
    var k: nat :| Pow2(k) == n;
    MaskRoundsDown(x, k);
  }

  /** The mask rounds every length down to whole blocks if and only if the block size is a power
      of two. */
  lemma MaskRoundsIffPowerOfTwo(n: nat)
    requires n > 0
    ensures (forall x: nat :: AndNot(x, n - 1) == x - x % n) <==> IsPowerOfTwo(n)
  {
    if IsPowerOfTwo(n) {
      forall x: nat ensures AndNot(x, n - 1) == x - x % n {
        MaskIsRounding(x, n);
      }
    } else if AndNot(n, n - 1) == n - n % n {
      ModUnique(n, n, 1, 0);
      SelfMasked(n);
    }
  }

  /** x mod n by repeated subtraction: the same value as %, without a division by a variable. */
  function Remainder(x: nat, n: nat): (r: nat)
    requires n > 0
    ensures r < n && r <= x
  {
    if x < n then x else Remainder(x - n, n)
  }

  lemma {:induction false} RemainderIsMod(x: nat, n: nat)
    requires n > 0
    ensures Remainder(x, n) == x % n
  {
    if x < n {
      ModUnique(x, n, 0, x);
    } else {
      RemainderIsMod(x - n, n);
      ModUnique(x, n, (x - n) / n + 1, (x - n) % n);
    }
  }

  // ------------------------------------------------------------- geometry

  /** A request of `length` bytes at device position `pos`. */
  datatype Geometry = Geometry(pos: nat, length: nat, blockSize: nat)
  {
    ghost predicate Valid() {
      IsPowerOfTwo(blockSize) && 0 < blockSize <= TMP_BUF_SIZE
    }

    function Offset(): (r: nat)
      requires blockSize > 0
      ensures r < blockSize && r <= pos
    {
      Remainder(pos, blockSize)
    }

    /** Bytes taken from the partial first block. */
    function Pre(): (r: nat)
      requires blockSize > 0
      ensures r <= length && Offset() + r <= blockSize
    {
      if Offset() == 0 then 0 else if blockSize - Offset() > length then length else blockSize - Offset()
    }

    function Rest(): nat
      requires blockSize > 0
    {
      length - Pre()
    }

    /** Bytes taken from the partial last block. */
    function Post(): (r: nat)
      requires blockSize > 0
      ensures r < blockSize && r <= Rest()
    {
      Remainder(Rest(), blockSize)
    }

    /** Bytes of the whole blocks in between. */
    function Main(): nat
      requires blockSize > 0
    {
      Rest() - Post()
    }
  }

  /** After the first block the request is block-aligned, unless nothing is left of it. */
  lemma MiddleIsAligned(g: Geometry)
    requires g.Valid()
    ensures g.Pre() <= g.length && g.Main() >= 0 && g.Pre() + g.Main() + g.Post() == g.length
    ensures g.Main() % g.blockSize == 0
    ensures g.Rest() > 0 ==> (g.pos + g.Pre()) % g.blockSize == 0
    ensures g.Rest() > 0 ==> (g.pos + g.Pre() + g.Main()) % g.blockSize == 0
    ensures (g.pos - g.Offset()) % g.blockSize == 0 && g.pos >= g.Offset()
  {
    var b := g.blockSize;
    RemainderIsMod(g.pos, b);
    RemainderIsMod(g.Rest(), b);
    RoundDownAligned(g.pos, b);
    RoundDownAligned(g.Rest(), b);
    if g.Rest() > 0 {
      if g.Offset() != 0 {
        ModUnique(b, b, 1, 0);
        AlignedSum(g.pos - g.Offset(), b, b);
      }
      AlignedSum(g.pos + g.Pre(), g.Main(), b);
    }
  }

  lemma RoundDownAligned(x: nat, b: nat)
    requires b > 0
    ensures x >= x % b && (x - x % b) % b == 0
  {
    assert x == (x / b) * b + x % b;
    assert (x / b) * b >= 0;
    ModUnique((x / b) * b, b, x / b, 0);
  }

  lemma AlignedSum(x: nat, y: nat, b: nat)
    requires b > 0 && x % b == 0 && y % b == 0
    ensures (x + y) % b == 0
  {
    var i, j := x / b, y / b;
    assert x == i * b && y == j * b;
    assert (i + j) * b == x + y;
    ModUnique(x + y, b, i + j, 0);
  }

  // ------------------------------------------------------------- the device

  /** What a device reports for one request. */
  datatype IoReply = IoReply(error: bool, actual: nat)

  datatype Request = Request(writing: bool, offset: nat, length: nat)

  /** The position a request reaches: 32-bit devices see only the low half of the offset. */
  function At(wide: bool, offset: nat): nat {
    if wide then offset else offset % TWO32
  }

  function Min(a: nat, b: nat): nat {
    if a < b then a else b
  }

  /** The bytes a request really moves: never more than asked for or than the device has. */
  function Moved(size: nat, wide: bool, r: Request, reply: IoReply): (n: nat)
    ensures n <= r.length
    ensures n > 0 ==> At(wide, r.offset) + n <= size
  {
    var at := At(wide, r.offset);
    if at >= size then 0 else Min(Min(reply.actual, r.length), size - at)
  }

  function Slice(s: seq<byte>, at: nat, n: nat): (r: seq<byte>)
    requires n > 0 ==> at + n <= |s|
    ensures |r| == n && forall i :: 0 <= i < n ==> r[i] == s[at + i]
  {
    if n == 0 then [] else s[at..at + n]
  }

  /** `s` with `data` copied over it from index `at` on. */
  function Overlay(s: seq<byte>, at: nat, data: seq<byte>): (r: seq<byte>)
    requires data != [] ==> at + |data| <= |s|
    ensures |r| == |s|
    ensures forall i :: 0 <= i < |s| ==> r[i] == if at <= i < at + |data| then data[i - at] else s[i]
  {
    if data == [] then s else s[..at] + data + s[at + |data|..]
  }

  class Device {
    const wide: bool                  // supports 64-bit commands
    const answers: nat -> IoReply     // the k-th request ever sent gets answers(k)
    var disk: seq<byte>
    var requests: seq<Request>

    constructor (wide: bool, answers: nat -> IoReply, disk: seq<byte>)
      ensures this.wide == wide && this.answers == answers && this.disk == disk && requests == []
    {
      this.wide, this.answers, this.disk, this.requests := wide, answers, disk, [];
    }

    /** One request between the device and data[at..at + length]; 0 means failure. */
    method Send(writing: bool, length: nat, offset: nat, data: array<byte>, at: nat) returns (actual: nat)
      requires at + length <= data.Length
      modifies this`disk, this`requests, data
      ensures requests == old(requests) + [Request(writing, offset, length)]
      ensures var r, reply := Request(writing, offset, length), answers(|old(requests)|);
        var n := Moved(|old(disk)|, wide, r, reply);
        && actual == (if reply.error then 0 else n)
        && disk == (if writing then Overlay(old(disk), At(wide, offset), old(data[..])[at..at + n]) else old(disk))
        && data[..] == (if writing then old(data[..])
          else Overlay(old(data[..]), at, Slice(old(disk), At(wide, offset), n)))
    {
      var r, reply := Request(writing, offset, length), answers(|requests|);
      var n := Moved(|disk|, wide, r, reply);
      requests := requests + [r];
      if writing {
        assert data[at..at + n] == data[..][at..at + n];
        disk := Overlay(disk, At(wide, offset), data[at..at + n]);
      } else {
        ghost var before := data[..];
        var bytes := Slice(disk, At(wide, offset), n);
        forall i | 0 <= i < n {
          data[at + i] := bytes[i];
        }
        assert data[..] == Overlay(before, at, bytes);
      }
      return if reply.error then 0 else n;
    }
  }
}
