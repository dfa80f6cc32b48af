/** What a scatter/gather table makes the back end move between Mac memory and the device. */
module ScsiTransfer {
  import opened MacMemory
  import opened ScatterGather

  /** The bytes of all ranges, in table order. */
  function Gather(m: Memory, t: Table): seq<byte> {
    if t == [] then [] else Gather(m, t[..|t| - 1]) + Peeks(m, t[|t| - 1].ptr, t[|t| - 1].len)
  }

  /** Distribute the front of `data` over the ranges, in table order. */
  function Scatter(m: Memory, t: Table, data: seq<byte>): Memory
    requires TotalLength(t) <= |data|
  {
    if t == [] then m else
    var front, last := t[..|t| - 1], t[|t| - 1];
    Pokes(Scatter(m, front, data), last.ptr, data[TotalLength(front)..TotalLength(t)])
  }

  // ------------------------------------------------------------- address by address

  function PeekAll(m: Memory, addrs: seq<int>): (s: seq<byte>)
    ensures |s| == |addrs|
  {
    seq<byte>(|addrs|, i requires 0 <= i < |addrs| => Peek(m, addrs[i]))
  }

  /** Store data[i] at addrs[i], for i = 0, 1, 2 and so on. */
  function WriteAll(m: Memory, addrs: seq<int>, data: seq<byte>): Memory
    requires |addrs| == |data|
    decreases |addrs|
  {
    if addrs == [] then m else WriteAll(m[addrs[0] := data[0]], addrs[1..], data[1..])
  }

  lemma {:induction false} WriteAllConcat(m: Memory, a: seq<int>, b: seq<int>, da: seq<byte>, db: seq<byte>)
    requires |a| == |da| && |b| == |db|
    ensures WriteAll(m, a + b, da + db) == WriteAll(WriteAll(m, a, da), b, db)
    decreases |a|
  {
    if a == [] {
      assert a + b == b && da + db == db;
    } else {
      assert (a + b)[1..] == a[1..] + b && (da + db)[1..] == da[1..] + db;
      WriteAllConcat(m[a[0] := da[0]], a[1..], b, da[1..], db);
    }
  }

  lemma {:induction false} PokesWritesSpan(m: Memory, a: int, data: seq<byte>)
    ensures Pokes(m, a, data) == WriteAll(m, Span(a, |data|), data)
    decreases |data|
  {
    if data != [] {
      assert Span(a, |data|)[1..] == Span(a + 1, |data| - 1);
      PokesWritesSpan(m[a := data[0]], a + 1, data[1..]);
    }
  }

  /** Gathering depends on a table only through the addresses it stands for. */
  lemma {:induction false} GatherReadsAddresses(m: Memory, t: Table)
    ensures Gather(m, t) == PeekAll(m, Expand(t))
    decreases |t|
  {
    if t != [] {
      GatherReadsAddresses(m, t[..|t| - 1]);
      assert Peeks(m, t[|t| - 1].ptr, t[|t| - 1].len) == PeekAll(m, Addresses(t[|t| - 1]));
    }
  }

  /** So does scattering. */
  lemma {:induction false} ScatterWritesAddresses(m: Memory, t: Table, data: seq<byte>)
    requires TotalLength(t) <= |data|
    ensures |Expand(t)| == TotalLength(t)
    ensures Scatter(m, t, data) == WriteAll(m, Expand(t), data[..TotalLength(t)])
    decreases |t|
  {
    ExpandLength(t);
    if t != [] {
      var front, last := t[..|t| - 1], t[|t| - 1];
      ExpandLength(front);
      ScatterWritesAddresses(m, front, data);
      var k, n := TotalLength(front), TotalLength(t);
      assert data[..n] == data[..k] + data[k..n];
      WriteAllConcat(m, Expand(front), Addresses(last), data[..k], data[k..n]);
      PokesWritesSpan(Scatter(m, front, data), last.ptr, data[k..n]);
    }
  }

  /** Data sent through a merged table is the data the TIB asked for, and data received lands
      where the TIB asked for it, as long as no back-to-back run of transfers reaches 4 GB. */
  lemma MergedTableMovesSameData(m: Memory, rs: seq<Range>, data: seq<byte>)
    requires AddAll([], rs).Some? && NoLongChain(rs) && TotalLength(rs) <= |data|
    ensures var t := AddAll([], rs).value;
      && TotalLength(t) == TotalLength(rs)
      && Gather(m, t) == Gather(m, rs)
      && Scatter(m, t, data) == Scatter(m, rs, data)
  {
    var t := AddAll([], rs).value;
    CompressionFromEmpty(rs);
    ExpandLength(t);
    ExpandLength(rs);
    GatherReadsAddresses(m, t);
    GatherReadsAddresses(m, rs);
    ScatterWritesAddresses(m, t, data);
    ScatterWritesAddresses(m, rs, data);
  }

  // ------------------------------------------------------------- read back

  /** Addresses named twice get the same byte both times. */
  predicate Consistent(addrs: seq<int>, data: seq<byte>)
    requires |addrs| == |data|
  {
    forall i, j :: 0 <= i < j < |addrs| && addrs[i] == addrs[j] ==> data[i] == data[j]
  }

  /** Memory after WriteAll: the last byte written to each address, the old byte elsewhere. */
  lemma {:induction false} WriteAllPeek(m: Memory, addrs: seq<int>, data: seq<byte>, a: int) returns (k: int)
    requires |addrs| == |data|
    ensures a !in addrs ==> Peek(WriteAll(m, addrs, data), a) == Peek(m, a)
    ensures a in addrs ==> 0 <= k < |addrs| && addrs[k] == a && Peek(WriteAll(m, addrs, data), a) == data[k]
                           && forall j :: k < j < |addrs| ==> addrs[j] != a
    decreases |addrs|
  {
    k := -1;
    if addrs != [] {
      var k' := WriteAllPeek(m[addrs[0] := data[0]], addrs[1..], data[1..], a);
      if a in addrs[1..] {
        k := k' + 1;
        assert forall j :: k < j < |addrs| ==> addrs[j] == addrs[1..][j - 1];
      } else if addrs[0] == a {
        k := 0;
        assert forall j :: 0 < j < |addrs| ==> addrs[j] in addrs[1..];
      }
    }
  }

  /** What was scattered is gathered again, exactly when no address is given two different bytes;
      every other address keeps its byte. */
  lemma ScatterThenGather(m: Memory, t: Table, data: seq<byte>)
    requires TotalLength(t) == |data|
    ensures |Expand(t)| == |data|
    ensures Gather(Scatter(m, t, data), t) == data <==> Consistent(Expand(t), data)
    ensures forall a :: a !in Expand(t) ==> Peek(Scatter(m, t, data), a) == Peek(m, a)
  {
    var addrs := Expand(t);
    ExpandLength(t);
    var m' := Scatter(m, t, data);
    GatherReadsAddresses(m', t);
    ScatterWritesAddresses(m, t, data);
    assert data[..|data|] == data;
    forall a | a !in addrs ensures Peek(m', a) == Peek(m, a) {
      var _ := WriteAllPeek(m, addrs, data, a);
    }
    if Consistent(addrs, data) {
      forall i | 0 <= i < |addrs| ensures Peek(m', addrs[i]) == data[i] {
        var k := WriteAllPeek(m, addrs, data, addrs[i]);
      }
      assert PeekAll(m', addrs) == data;
    } else {
      var i, j :| 0 <= i < j < |addrs| && addrs[i] == addrs[j] && data[i] != data[j];
      assert PeekAll(m', addrs)[i] == PeekAll(m', addrs)[j];
    }
  }

  predicate Disjoint(a: Range, b: Range) {
    a.ptr + a.len <= b.ptr || b.ptr + b.len <= a.ptr
  }

  predicate PairwiseDisjoint(t: Table) {
    forall i, j :: 0 <= i < j < |t| ==> Disjoint(t[i], t[j])
  }

  lemma {:induction false} AddressOrigin(t: Table, a: int) returns (k: nat)
    requires a in Expand(t)
    ensures k < |t| && t[k].ptr <= a < t[k].ptr + t[k].len
    decreases |t|
  {
    var last := t[|t| - 1];
    if a in Addresses(last) {
      k := |t| - 1;
    } else {
      k := AddressOrigin(t[..|t| - 1], a);
    }
  }

  lemma LastRangeApart(t: Table, i: nat, j: nat)
    requires t != [] && PairwiseDisjoint(t)
    requires i < |Expand(t[..|t| - 1])| <= j < |Expand(t)|
    ensures Expand(t)[i] != Expand(t)[j]
  {
    var front, last := t[..|t| - 1], t[|t| - 1];
    var k := AddressOrigin(front, Expand(t)[i]);
    assert Disjoint(t[k], last);
    assert last.ptr <= Expand(t)[j] < last.ptr + last.len;
  }

  /** Disjoint ranges never name an address twice, so every read into them can be gathered back. */
  lemma {:induction false} DisjointIsConsistent(t: Table, data: seq<byte>)
    requires PairwiseDisjoint(t) && |Expand(t)| == |data|
    ensures Consistent(Expand(t), data)
    decreases |t|
  {
    if t != [] {
      var front, last := t[..|t| - 1], t[|t| - 1];
      var n := |Expand(front)|;
      DisjointIsConsistent(front, data[..n]);
      forall i, j | 0 <= i < j < |Expand(t)| && Expand(t)[i] == Expand(t)[j]
        ensures data[i] == data[j]
      {
        if j < n {
          assert data[..n][i] == data[..n][j];
        } else if i < n {
          LastRangeApart(t, i, j);
        }
      }
    }
  }

  lemma ReadIntoDisjointRanges(m: Memory, t: Table, data: seq<byte>)
    requires PairwiseDisjoint(t) && TotalLength(t) == |data|
    ensures Gather(Scatter(m, t, data), t) == data
  {
    ExpandLength(t);
    DisjointIsConsistent(t, data);
    ScatterThenGather(m, t, data);
  }

  /** A one-entry table moves the same bytes whether the buffer is bypassed or not. */
  lemma DirectTransferIsBuffered(m: Memory, r: Range, data: seq<byte>)
    requires |data| == r.len
    ensures Gather(m, [r]) == Peeks(m, r.ptr, r.len)
    ensures TotalLength([r]) == r.len && Scatter(m, [r], data) == Pokes(m, r.ptr, data)
  {
    assert [r][..0] == [];
    assert data[0..r.len] == data;
    ExpandSnoc([], r);
    assert [] + [r] == [r];
  }
}
