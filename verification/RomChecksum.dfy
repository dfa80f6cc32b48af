/** The rotate-and-add checksum of the declaration ROM, stored twelve bytes before its end. */
module RomChecksum {
  import opened MacMemory
  import opened RomBytes

  const CRC_FROM_END: nat := 12

  function Rotate(crc: uint32): uint32 {
    Wrap(crc * 2) + crc / TWO31
  }

  function Mix(crc: uint32, b: byte): uint32 {
    Wrap(Rotate(crc) + b)
  }

  /** The sum over all bytes, first to last. */
  function Crc(s: Bytes): uint32 {
    if s == [] then 0 else Mix(Crc(s[..|s| - 1]), s[|s| - 1])
  }

  // ------------------------------------------------------------- the sum, bit by bit

  function Bit(x: nat, j: nat): nat {
    if j == 0 then x % 2 else Bit(x / 2, j - 1)
  }

  function Power(n: nat): (p: nat)
    ensures p > 0
  {
    if n == 0 then 1 else 2 * Power(n - 1)
  }

  /** A digit in front of n bits. */
  lemma {:induction false} FrontBit(y: nat, t: nat, n: nat, j: nat)
    requires y < Power(n) && t < 2 && j <= n
    ensures Bit(y + t * Power(n), j) == if j < n then Bit(y, j) else t
  {
    var x := y + t * Power(n);
    if n > 0 {
      var h := y / 2 + t * Power(n - 1);
      assert x == 2 * h + y % 2;
      assert x / 2 == h && x % 2 == y % 2;
      if j > 0 {
        FrontBit(y / 2, t, n - 1, j - 1);
      }
    }
  }

  lemma RotateMovesBits(x: uint32, j: nat)
    requires j < 32
    ensures Bit(Rotate(x), (j + 1) % 32) == Bit(x, j)
  {
    hide Bit, Power, Rotate;
    var y, t := RotateIs(x);
    PowersOfTwo();
    FrontBit(y, t, 31, j);
    LowBit(y, t, j);
    NextPlace(j);
  }

  lemma NextPlace(j: nat)
    requires j < 32
    ensures (j + 1) % 32 == if j == 31 then 0 else j + 1
  {
  }

  /** The highest bit and the rest. */
  lemma RotateIs(x: uint32) returns (y: nat, t: nat)
    ensures x == y + t * TWO31 && y < TWO31 && t < 2 && Rotate(x) == 2 * y + t
  {
    y, t := x % TWO31, x / TWO31;
    assert x == TWO31 * t + y;
  }

  lemma LowBit(y: nat, t: nat, j: nat)
    requires t < 2
    ensures Bit(2 * y + t, 0) == t && Bit(2 * y + t, j + 1) == Bit(y, j)
  {
    assert (2 * y + t) / 2 == y;
  }

  lemma PowersOfTwo()
    ensures Power(23) == 8_388_608 && Power(31) == TWO31
  {
    assert Power(4) == 16;
    assert Power(8) == 256;
    assert Power(12) == 4096;
    assert Power(16) == 65536;
    assert Power(20) == 1_048_576;
    assert Power(23) == 8_388_608;
    assert Power(27) == 134_217_728;
  }

  /** The sum of one more byte: the bits of the sum so far move up by one, the highest to the lowest
      place, and the byte is added modulo 2^32. */
  lemma CrcRotatesAndAdds(s: Bytes, b: byte, j: nat)
    requires j < 32
    ensures Crc([]) == 0
    ensures Bit(Crc(s + [0]), (j + 1) % 32) == Bit(Crc(s), j)
    ensures Crc(s + [b]) == Wrap(Crc(s + [0]) + b)
  {
    hide Rotate, Bit;
    assert (s + [0])[..|s|] == s && (s + [b])[..|s|] == s;
    RotateMovesBits(Crc(s), j);
    RotateFits(Crc(s));
  }

  lemma RotateFits(x: uint32)
    ensures 0 <= Rotate(x) < TWO32 && Wrap(Rotate(x)) == Rotate(x)
  {
  }

  lemma PlaceAfter(j: nat)
    ensures j % 32 < 32 && (j % 32 + 1) % 32 == (j + 1) % 32
  {
  }

  function Zeros(m: nat): Bytes {
    if m == 0 then [] else Zeros(m - 1) + [0]
  }

  /** m bytes of 0 rotate the sum by m places. */
  lemma {:induction false} ZerosRotate(s: Bytes, m: nat, j: nat)
    requires j < 32
    ensures Bit(Crc(s + Zeros(m)), (j + m) % 32) == Bit(Crc(s), j)
  {
    hide Bit, Crc;
    if m == 0 {
      assert s + [] == s && j % 32 == j;
    } else {
      ZerosRotate(s, m - 1, j);
      CrcRotatesAndAdds(s + Zeros(m - 1), 0, (j + m - 1) % 32);
      PlaceAfter(j + m - 1);
      assert s + Zeros(m) == s + Zeros(m - 1) + [0];
    }
  }

  /** Every byte counts twice the one behind it. */
  function Weighted(s: Bytes): nat {
    if s == [] then 0 else 2 * Weighted(s[..|s| - 1]) + s[|s| - 1]
  }

  /** As long as no bit leaves the top, the sum is that of the bytes times powers of two. */
  lemma {:induction false} CrcOfShortImage(s: Bytes)
    requires |s| <= 24
    ensures Crc(s) == Weighted(s) && Weighted(s) <= 255 * (Power(|s|) - 1)
  {
    hide Mix;
    if s != [] {
      var front, b := s[..|s| - 1], s[|s| - 1];
      CrcOfShortImage(front);
      PowerGrows(|front|, 23);
      PowersOfTwo();
      assert Power(|s|) == 2 * Power(|front|);
      MixSmall(Weighted(front), b);
    }
  }

  lemma MixSmall(w: nat, b: byte)
    requires w <= 255 * 8_388_607
    ensures w < TWO32 && Mix(w, b) == 2 * w + b
  {
    assert w < TWO31;
    assert Rotate(w) == 2 * w;
  }

  lemma {:induction false} PowerGrows(n: nat, m: nat)
    requires n <= m
    ensures Power(n) <= Power(m)
  {
    if n < m {
      PowerGrows(n, m - 1);
    }
  }

  // ------------------------------------------------------------- the checksum field

  /** s with its checksum field set to v. */
  function WithField(s: Bytes, v: uint32): (r: Bytes)
    requires |s| >= CRC_FROM_END
    ensures |r| == |s|
    ensures At(r, |s| - CRC_FROM_END, LongBytes(v))
    ensures forall i :: 0 <= i < |s| && !(|s| - CRC_FROM_END <= i < |s| - CRC_FROM_END + 4) ==> r[i] == s[i]
  {
    var f := |s| - CRC_FROM_END;
    s[..f] + LongBytes(v) + s[f + 4..]
  }

  /** s with its checksum calculated. */
  function Checksummed(s: Bytes): (r: Bytes)
    requires |s| >= CRC_FROM_END
    ensures |r| == |s|
  {
    WithField(s, Crc(WithField(s, 0)))
  }

  /** The stored checksum is that of the image with the field cleared. */
  predicate Verifies(s: Bytes) {
    |s| >= CRC_FROM_END && Get32(s, |s| - CRC_FROM_END) == Crc(WithField(s, 0))
  }

  lemma CrcStep(s: Bytes, i: nat)
    requires i < |s|
    ensures Crc(s[..i + 1]) == Mix(Crc(s[..i]), s[i])
  {
    assert s[..i + 1][..i] == s[..i];
  }

  lemma Spliced(s: Bytes, b: Bytes, f: nat)
    requires f + |b| <= |s|
    ensures var t := s[..f] + b + s[f + |b|..];
      |t| == |s| && t[..f] == s[..f] && t[f + |b|..] == s[f + |b|..]
  {
  }

  lemma FieldOverwritten(s: Bytes, v: uint32, w: uint32)
    requires |s| >= CRC_FROM_END
    ensures WithField(WithField(s, v), w) == WithField(s, w)
  {
    hide LongBytes, At;
    Spliced(s, LongBytes(v), |s| - CRC_FROM_END);
  }

  /** A calculated checksum verifies, and calculating it again changes nothing. */
  lemma ChecksumVerifies(s: Bytes)
    requires |s| >= CRC_FROM_END
    ensures Verifies(Checksummed(s))
    ensures Checksummed(Checksummed(s)) == Checksummed(s)
  {
    var crc := Crc(WithField(s, 0));
    FieldOverwritten(s, crc, 0);
    FieldOverwritten(s, crc, crc);
    LongReadsBack(Checksummed(s), |s| - CRC_FROM_END, crc);
  }

  /** Mixing is one-to-one in the sum so far, and in the byte. */
  lemma MixIsInjective(c: uint32, d: uint32, a: byte, b: byte)
    ensures Mix(c, a) == Mix(d, a) ==> c == d
    ensures Mix(c, a) == Mix(c, b) ==> a == b
  {
    hide Rotate;
    RotateIsInjective(c, d);
    WrapOnce(Rotate(c), a);
    WrapOnce(Rotate(d), a);
    WrapOnce(Rotate(c), b);
  }

  lemma WrapOnce(x: uint32, k: byte)
    ensures Wrap(x + k) == if x + k < TWO32 then x + k else x + k - TWO32
  {
  }

  lemma RotateIsInjective(c: uint32, d: uint32)
    ensures Rotate(c) == Rotate(d) ==> c == d
    ensures 0 <= Rotate(c) < TWO32
  {
    assert Wrap(c * 2) == c * 2 - c / TWO31 * TWO32;
    assert Wrap(d * 2) == d * 2 - d / TWO31 * TWO32;
  }

  /** Two images of equal length that differ in exactly one byte have different sums. */
  lemma {:induction false} OneByteChangesSum(s: Bytes, i: nat, b: byte)
    requires i < |s| && s[i] != b
    ensures Crc(s[i := b]) != Crc(s)
    decreases |s|
  {
    var n := |s| - 1;
    if i == n {
      assert s[i := b][..n] == s[..n];
      MixIsInjective(Crc(s[..n]), Crc(s[..n]), s[n], b);
    } else {
      assert s[i := b][..n] == s[..n][i := b];
      OneByteChangesSum(s[..n], i, b);
      MixIsInjective(Crc(s[..n]), Crc(s[..n][i := b]), s[n], s[n]);
    }
  }

  lemma GetIsInjective(s: Bytes, s': Bytes, at: nat)
    requires at + 4 <= |s| == |s'| && Get32(s, at) == Get32(s', at)
    ensures forall i :: at <= i < at + 4 ==> s[i] == s'[i]
  {
    FourDigits(s[at], s[at + 1], s[at + 2], s[at + 3], s'[at], s'[at + 1], s'[at + 2], s'[at + 3]);
  }

  lemma FourDigits(a: byte, b: byte, c: byte, d: byte, a': byte, b': byte, c': byte, d': byte)
    requires a * 0x100_0000 + b * 0x1_0000 + c * 0x100 + d == a' * 0x100_0000 + b' * 0x1_0000 + c' * 0x100 + d'
    ensures a == a' && b == b' && c == c' && d == d'
  {
    TopByte(a, b * 0x1_0000 + c * 0x100 + d, a', b' * 0x1_0000 + c' * 0x100 + d');
    SecondByte(b, c * 0x100 + d, b', c' * 0x100 + d');
  }

  lemma TopByte(x: int, r: int, x': int, r': int)
    requires 0 <= r < 0x100_0000 && 0 <= r' < 0x100_0000 && x * 0x100_0000 + r == x' * 0x100_0000 + r'
    ensures x == x' && r == r'
  {
  }

  lemma SecondByte(x: int, r: int, x': int, r': int)
    requires 0 <= r < 0x1_0000 && 0 <= r' < 0x1_0000 && x * 0x1_0000 + r == x' * 0x1_0000 + r'
    ensures x == x' && r == r'
  {
  }

  /** Clearing the field forgets a change inside it and keeps one outside it. */
  lemma ChangedInside(s: Bytes, i: nat, b: byte)
    requires |s| >= CRC_FROM_END && |s| - CRC_FROM_END <= i < |s| - CRC_FROM_END + 4
    ensures WithField(s[i := b], 0) == WithField(s, 0)
  {
    hide LongBytes, At;
    var f := |s| - CRC_FROM_END;
    assert s[i := b][..f] == s[..f] && s[i := b][f + 4..] == s[f + 4..];
  }

  lemma ChangedOutside(s: Bytes, i: nat, b: byte)
    requires |s| >= CRC_FROM_END && i < |s| && !(|s| - CRC_FROM_END <= i < |s| - CRC_FROM_END + 4)
    ensures WithField(s[i := b], 0) == WithField(s, 0)[i := b] && WithField(s, 0)[i] == s[i]
    ensures Get32(s[i := b], |s| - CRC_FROM_END) == Get32(s, |s| - CRC_FROM_END)
  {
    hide LongBytes, At;
    var f := |s| - CRC_FROM_END;
    var head, tail := s[..f], s[f + 4..];
    if i < f {
      assert s[i := b][..f] == head[i := b] && s[i := b][f + 4..] == tail;
    } else {
      assert s[i := b][..f] == head && s[i := b][f + 4..] == tail[i - f - 4 := b];
    }
  }

  /** An image that verifies stops verifying when any one of its bytes is changed, be it inside
      or outside the checksum field. */
  lemma EveryByteIsProtected(s: Bytes, i: nat, b: byte)
    requires Verifies(s) && i < |s| && s[i] != b
    ensures !Verifies(s[i := b])
  {
    hide Crc, WithField, Get32;
    var s', f := s[i := b], |s| - CRC_FROM_END;
    if f <= i < f + 4 {
      ChangedInside(s, i, b);
      if Get32(s', f) == Get32(s, f) {
        GetIsInjective(s, s', f);
      }
    } else {
      ChangedOutside(s, i, b);
      OneByteChangesSum(WithField(s, 0), i, b);
    }
  }
}
