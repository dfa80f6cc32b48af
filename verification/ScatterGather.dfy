/** The scatter/gather table: how single transfers are merged into it, and what it means. */
module ScatterGather {
  import opened Options
  import opened MacMemory

  const SG_TABLE_SIZE: nat := 1024

  /** `len` bytes starting at `ptr`: one table entry, or one transfer asked for by a TIB. */
  datatype Range = Range(ptr: uint32, len: uint32)

  type Table = seq<Range>

  // ------------------------------------------------------------- merging

  predicate Adjacent(t: Table, r: Range) {
    |t| > 0 && r.ptr == t[|t| - 1].ptr + t[|t| - 1].len
  }

  /** Add one transfer: extend the last entry when the ranges touch (its 32-bit length may
      wrap), otherwise open a new entry; None when a new entry is needed and none is left. */
  function AddRange(t: Table, r: Range): Option<Table> {
    if Adjacent(t, r) then
      Some(t[|t| - 1 := Range(t[|t| - 1].ptr, Wrap(t[|t| - 1].len + r.len))])
    else if |t| >= SG_TABLE_SIZE then
      None
    else
      Some(t + [r])
  }

  /** The table after a list of transfers, if all of them found room. */
  function AddAll(t: Table, rs: seq<Range>): Option<Table>
    decreases |rs|
  {
    if rs == [] then Some(t) else
    match AddRange(t, rs[0])
    case None => None
    case Some(t') => AddAll(t', rs[1..])
  }

  lemma {:induction false} AddAllConcat(t: Table, a: seq<Range>, b: seq<Range>)
    ensures AddAll(t, a + b) == match AddAll(t, a) case None => None case Some(t') => AddAll(t', b)
    decreases |a|
  {
    if a == [] {
      assert a + b == b;
    } else {
      assert (a + b)[1..] == a[1..] + b;
      if AddRange(t, a[0]).Some? {
        AddAllConcat(AddRange(t, a[0]).value, a[1..], b);
      }
    }
  }

  lemma {:induction false} AddAllSize(t: Table, rs: seq<Range>)
    requires |t| <= SG_TABLE_SIZE && AddAll(t, rs).Some?
    ensures |t| <= |AddAll(t, rs).value| <= SG_TABLE_SIZE
    decreases |rs|
  {
    if rs != [] {
      AddAllSize(AddRange(t, rs[0]).value, rs[1..]);
    }
  }

  // ------------------------------------------------------------- meaning

  function Span(a: int, len: nat): (s: seq<int>)
    ensures |s| == len
  {
    seq(len, i => a + i)
  }

  function Addresses(r: Range): (s: seq<int>)
    ensures |s| == r.len
  {
    Span(r.ptr, r.len)
  }

  /** The byte addresses a table stands for, in transfer order. */
  function Expand(t: Table): seq<int> {
    if t == [] then [] else Expand(t[..|t| - 1]) + Addresses(t[|t| - 1])
  }

  function TotalLength(t: Table): nat {
    if t == [] then 0 else TotalLength(t[..|t| - 1]) + t[|t| - 1].len
  }

  lemma {:induction false} ExpandLength(t: Table)
    ensures |Expand(t)| == TotalLength(t)
  {
    if t != [] {
      ExpandLength(t[..|t| - 1]);
    }
  }

  lemma ExpandSnoc(t: Table, r: Range)
    ensures Expand(t + [r]) == Expand(t) + Addresses(r)
    ensures TotalLength(t + [r]) == TotalLength(t) + r.len
  {
    assert (t + [r])[..|t|] == t;
  }

  lemma {:induction false} ExpandConcat(a: Table, b: Table)
    ensures Expand(a + b) == Expand(a) + Expand(b)
    ensures TotalLength(a + b) == TotalLength(a) + TotalLength(b)
    decreases |b|
  {
    if b == [] {
      assert a + b == a;
    } else {
      var b0 := b[..|b| - 1];
      assert a + b == (a + b0) + [b[|b| - 1]] && b == b0 + [b[|b| - 1]];
      ExpandSnoc(a + b0, b[|b| - 1]);
      ExpandConcat(a, b0);
      assert Expand(a + b) == Expand(a) + Expand(b);
    }
  }

  /** Two touching ranges name the same bytes as the merged one, unless its length wraps. */
  lemma AddressesMerge(a: Range, b: Range)
    requires b.ptr == a.ptr + a.len && a.len + b.len < TWO32
    ensures Addresses(a) + Addresses(b) == Addresses(Range(a.ptr, a.len + b.len))
  {
  }

  // ------------------------------------------------------------- compression

  /** The merge (if one happens) does not overflow the entry's 32-bit length. */
  predicate MergeFits(t: Table, r: Range) {
    Adjacent(t, r) ==> t[|t| - 1].len + r.len < TWO32
  }

  predicate MergesFit(t: Table, rs: seq<Range>)
    decreases |rs|
  {
    rs == [] ||
    (MergeFits(t, rs[0]) && (AddRange(t, rs[0]).Some? ==> MergesFit(AddRange(t, rs[0]).value, rs[1..])))
  }

  lemma AddRangeMeaning(t: Table, r: Range)
    requires AddRange(t, r).Some?
    ensures TotalLength(AddRange(t, r).value) == TotalLength(t) + r.len - (if MergeFits(t, r) then 0 else TWO32)
    ensures MergeFits(t, r) ==> Expand(AddRange(t, r).value) == Expand(t) + Addresses(r)
  {
    if Adjacent(t, r) {
      var last := t[|t| - 1];
      var merged := Range(last.ptr, Wrap(last.len + r.len));
      var t' := AddRange(t, r).value;
      assert t' == t[..|t| - 1] + [merged];
      ExpandSnoc(t[..|t| - 1], merged);
      assert t == t[..|t| - 1] + [last];
      ExpandSnoc(t[..|t| - 1], last);
      if MergeFits(t, r) {
        AddressesMerge(last, r);
      }
    } else {
      ExpandSnoc(t, r);
    }
  }

  /** Lengths are conserved up to multiples of 2^32, and a single lost multiple is never regained. */
  lemma {:induction false} AddAllLength(t: Table, rs: seq<Range>)
    requires AddAll(t, rs).Some?
    ensures TotalLength(AddAll(t, rs).value) <= TotalLength(t) + TotalLength(rs)
    ensures TotalLength(AddAll(t, rs).value) % TWO32 == (TotalLength(t) + TotalLength(rs)) % TWO32
    ensures !MergesFit(t, rs) ==> TotalLength(AddAll(t, rs).value) < TotalLength(t) + TotalLength(rs)
    decreases |rs|
  {
    hide Expand, Addresses, AddRange, MergeFits, TotalLength;
    if rs == [] {
      ExpandNothing();
    } else {
      var t' := AddRange(t, rs[0]).value;
      AddRangeMeaning(t, rs[0]);
      AddAllLength(t', rs[1..]);
      ExpandFront(rs);
      if !MergeFits(t, rs[0]) {
        OneLostMultiple(TotalLength(t') + TotalLength(rs[1..]));
      }
    }
  }

  lemma ExpandNothing()
    ensures Expand([]) == [] && TotalLength([]) == 0
  {
  }

  lemma OneLostMultiple(n: int)
    ensures n % TWO32 == (n + TWO32) % TWO32
  {
  }

  /** Compression preserves meaning: whatever was merged, the table names exactly the bytes of
      all the transfers, in order, if and only if no merge overflowed a 32-bit entry length. */
  lemma {:induction false} CompressionIsExact(t: Table, rs: seq<Range>)
    requires AddAll(t, rs).Some?
    ensures Expand(AddAll(t, rs).value) == Expand(t) + Expand(rs) <==> MergesFit(t, rs)
  {
    if MergesFit(t, rs) {
      CompressionKeepsAddresses(t, rs);
    } else {
      AddAllLength(t, rs);
      ExpandLength(AddAll(t, rs).value);
      ExpandLength(t);
      ExpandLength(rs);
    }
  }

  lemma {:induction false} CompressionKeepsAddresses(t: Table, rs: seq<Range>)
    requires AddAll(t, rs).Some? && MergesFit(t, rs)
    ensures Expand(AddAll(t, rs).value) == Expand(t) + Expand(rs)
    decreases |rs|
  {
    if rs != [] {
      var t' := AddRange(t, rs[0]).value;
      AddRangeMeaning(t, rs[0]);
      CompressionKeepsAddresses(t', rs[1..]);
      ExpandFront(rs);
      Associative(Expand(t), Addresses(rs[0]), Expand(rs[1..]));
    }
  }

  lemma Associative(a: seq<int>, b: seq<int>, c: seq<int>)
    ensures (a + b) + c == a + (b + c)
  {
  }

  lemma ExpandFront(rs: seq<Range>)
    requires rs != []
    ensures Expand(rs) == Addresses(rs[0]) + Expand(rs[1..])
    ensures TotalLength(rs) == rs[0].len + TotalLength(rs[1..])
  {
    assert rs == [rs[0]] + rs[1..];
    ExpandConcat([rs[0]], rs[1..]);
    ExpandSnoc([], rs[0]);
    assert [] + [rs[0]] == [rs[0]];
  }

  // ------------------------------------------------------------- when merges fit

  /** Transfer k starts where its predecessor ends. */
  predicate Follows(rs: seq<Range>, k: nat)
    requires 0 < k < |rs|
  {
    rs[k].ptr == rs[k - 1].ptr + rs[k - 1].len
  }

  predicate Chained(rs: seq<Range>, i: nat, j: nat)
    requires i <= j <= |rs|
  {
    forall k :: i < k < j ==> Follows(rs, k)
  }

  lemma ChainedPrefix(rs: seq<Range>, n: nat, i: nat, j: nat)
    requires i <= j <= n <= |rs|
    ensures Chained(rs[..n], i, j) <==> Chained(rs, i, j)
  {
    assert forall k :: i < k < j ==> Follows(rs[..n], k) == Follows(rs, k);
  }

  /** No run of back-to-back transfers is 4 GB or longer. */
  predicate NoLongChain(rs: seq<Range>) {
    forall i, j :: 0 <= i <= j <= |rs| && Chained(rs, i, j) ==> TotalLength(rs[i..j]) < TWO32
  }

  lemma {:induction false} MergesFitConcat(t: Table, a: seq<Range>, b: seq<Range>)
    requires AddAll(t, a).Some?
    ensures MergesFit(t, a + b) <==> MergesFit(t, a) && MergesFit(AddAll(t, a).value, b)
    decreases |a|
  {
    if a == [] {
      assert a + b == b;
    } else {
      assert (a + b)[1..] == a[1..] + b;
      MergesFitConcat(AddRange(t, a[0]).value, a[1..], b);
    }
  }

  /** The last table entry is the longest chain of transfers that ends the list. */
  ghost predicate LastEntryIsChain(t: Table, rs: seq<Range>, i: nat) {
    && i < |rs| && |t| > 0
    && Chained(rs, i, |rs|)
    && (i > 0 ==> !Follows(rs, i))
    && t[|t| - 1].ptr == rs[i].ptr && t[|t| - 1].len == TotalLength(rs[i..])
  }

  lemma {:induction false} ChainEnd(rs: seq<Range>, i: nat)
    requires i < |rs| && Chained(rs, i, |rs|)
    ensures rs[i].ptr + TotalLength(rs[i..]) == rs[|rs| - 1].ptr + rs[|rs| - 1].len
    decreases |rs|
  {
    var n := |rs| - 1;
    assert rs[i..] == rs[i..n] + [rs[n]];
    ExpandSnoc(rs[i..n], rs[n]);
    if i < n {
      assert rs[..n][i..] == rs[i..n];
      assert Follows(rs, n);
      ChainedPrefix(rs, n, i, n);
      ChainEnd(rs[..n], i);
    }
  }

  lemma TotalLengthSuffix(rs: seq<Range>, i: nat, j: nat)
    requires i <= j <= |rs|
    ensures TotalLength(rs[j..]) <= TotalLength(rs[i..])
  {
    assert rs[i..] == rs[i..j] + rs[j..];
    ExpandConcat(rs[i..j], rs[j..]);
  }

  /** While the merges fit, the last entry of a table built from nothing is the maximal final chain. */
  lemma {:induction false} LastEntry(rs: seq<Range>) returns (i: nat)
    requires rs != [] && AddAll([], rs).Some? && MergesFit([], rs)
    ensures LastEntryIsChain(AddAll([], rs).value, rs, i)
    decreases |rs|
  {
    hide LastEntryIsChain, AddRange, MergeFits, TotalLength, Expand;
    var n := |rs| - 1;
    var front, r := rs[..n], rs[n];
    assert rs == front + [r];
    AddAllConcat([], front, [r]);
    MergesFitConcat([], front, [r]);
    var t := AddAll([], front).value;
    assert AddAll([], rs) == AddRange(t, r) && MergeFits(t, r);
    if front == [] {
      i := 0;
      FirstEntry(r);
      assert rs == [r];
    } else {
      var i0 := LastEntry(front);
      i := NextLastEntry(t, front, r, i0);
    }
  }

  lemma FirstEntry(r: Range)
    ensures AddRange([], r).Some? && LastEntryIsChain(AddRange([], r).value, [r], 0)
  {
    assert [r][0..] == [] + [r];
    ExpandSnoc([], r);
  }

  lemma NextLastEntry(t: Table, front: seq<Range>, r: Range, i0: nat) returns (i: nat)
    requires LastEntryIsChain(t, front, i0) && MergeFits(t, r) && AddRange(t, r).Some?
    ensures LastEntryIsChain(AddRange(t, r).value, front + [r], i)
  {
    hide LastEntryIsChain, MergeFits, AddRange;
    if Adjacent(t, r) {
      ExtendLastEntry(t, front, r, i0);
      i := i0;
    } else {
      OpenLastEntry(t, front, r, i0);
      i := |front|;
    }
  }

  /** A touching transfer prolongs the chain and the entry. */
  lemma ExtendLastEntry(t: Table, front: seq<Range>, r: Range, i: nat)
    requires LastEntryIsChain(t, front, i) && MergeFits(t, r) && AddRange(t, r).Some? && Adjacent(t, r)
    ensures LastEntryIsChain(AddRange(t, r).value, front + [r], i)
  {
    hide TotalLength, Expand;
    var rs, n := front + [r], |front|;
    ChainEnd(front, i);
    assert rs[..n] == front;
    assert rs[i..] == front[i..] + [r];
    ExpandSnoc(front[i..], r);
    ChainedPrefix(rs, n, i, n);
    assert Follows(rs, n);
    assert i > 0 ==> Follows(front, i) == Follows(rs, i);
  }

  /** Any other transfer starts a new chain and a new entry. */
  lemma OpenLastEntry(t: Table, front: seq<Range>, r: Range, i0: nat)
    requires LastEntryIsChain(t, front, i0) && AddRange(t, r).Some? && !Adjacent(t, r)
    ensures LastEntryIsChain(AddRange(t, r).value, front + [r], |front|)
  {
    hide TotalLength, Expand;
    var rs, n := front + [r], |front|;
    ChainEnd(front, i0);
    assert !Follows(rs, n);
    assert rs[n..] == [] + [r];
    ExpandSnoc([], r);
    NothingToAdd();
  }

  lemma NothingToAdd()
    ensures TotalLength([]) == 0
  {
  }

  /** The merges of a table built from nothing fit exactly when no back-to-back run of the
      transfers reaches 4 GB: a condition on the transfers alone. */
  lemma {:induction false} MergesFitIffNoLongChain(rs: seq<Range>)
    requires AddAll([], rs).Some?
    ensures MergesFit([], rs) <==> NoLongChain(rs)
    decreases |rs|
  {
    if rs == [] {
      assert forall i, j :: 0 <= i <= j <= |rs| ==> rs[i..j] == [];
    } else {
      var n := |rs| - 1;
      var front, r := rs[..n], rs[n];
      assert rs == front + [r];
      AddAllConcat([], front, [r]);
      MergesFitConcat([], front, [r]);
      MergesFitIffNoLongChain(front);
      if NoLongChain(rs) {
        NoLongChainPrefix(rs, n);
      }
      if MergesFit([], front) {
        LastMergeFits(front, r);
      }
    }
  }

  lemma NoLongChainPrefix(rs: seq<Range>, n: nat)
    requires n <= |rs| && NoLongChain(rs)
    ensures NoLongChain(rs[..n])
  {
    forall i, j | 0 <= i <= j <= n && Chained(rs[..n], i, j)
      ensures TotalLength(rs[..n][i..j]) < TWO32
    {
      assert rs[..n][i..j] == rs[i..j];
      ChainedPrefix(rs, n, i, j);
    }
  }

  lemma LastMergeFits(front: seq<Range>, r: Range)
    requires AddAll([], front).Some? && MergesFit([], front) && NoLongChain(front)
    ensures MergeFits(AddAll([], front).value, r) <==> NoLongChain(front + [r])
  {
    var t, rs, n := AddAll([], front).value, front + [r], |front|;
    if front == [] {
      ShortChains([], r, 0);
    } else {
      var i := LastEntry(front);
      ChainEnd(front, i);
      assert rs[..n] == front;
      assert Adjacent(t, r) <==> Follows(rs, n);
      if MergeFits(t, r) {
        ShortChains(front, r, i);
      } else {
        ChainedPrefix(rs, n, i, n);
        assert Chained(rs, i, n + 1);
        assert rs[i..n + 1] == front[i..] + [r];
        ExpandSnoc(front[i..], r);
      }
    }
  }

  /** If the maximal final chain (from i) plus r stays short, so does every chain. */
  lemma ShortChains(front: seq<Range>, r: Range, i: nat)
    requires NoLongChain(front) && i <= |front|
    requires front != [] ==> i < |front| && (i > 0 ==> !Follows(front, i))
    requires front != [] && Follows(front + [r], |front|) ==> TotalLength(front[i..]) + r.len < TWO32
    ensures NoLongChain(front + [r])
  {
    var rs, n := front + [r], |front|;
    assert rs[..n] == front;
    forall a, b | 0 <= a <= b <= n + 1 && Chained(rs, a, b)
      ensures TotalLength(rs[a..b]) < TWO32
    {
      if b <= n {
        assert rs[a..b] == front[a..b];
        ChainedPrefix(rs, n, a, b);
      } else if a > n {
        assert rs[a..b] == [];
      } else {
        assert rs[a..b] == front[a..] + [r];
        ExpandSnoc(front[a..], r);
        if a < n {
          assert Follows(rs, n);
          assert i > 0 ==> !Follows(rs, i);
          TotalLengthSuffix(front, i, a);
        } else {
          assert front[a..] == [];
        }
      }
    }
  }

  /** The whole statement for a table flushed before the transfers. */
  lemma CompressionFromEmpty(rs: seq<Range>)
    requires AddAll([], rs).Some?
    ensures Expand(AddAll([], rs).value) == Expand(rs) <==> NoLongChain(rs)
  {
    CompressionIsExact([], rs);
    MergesFitIffNoLongChain(rs);
    assert [] + Expand(rs) == Expand(rs);
  }

  /** A 4 GB chain that the table forgets: the second transfer wraps the entry's length to zero. */
  lemma CompressionCanLoseBytes()
    ensures var rs := [Range(0, 0xffff_ffff), Range(0xffff_ffff, 1)];
      AddAll([], rs) == Some([Range(0, 0)]) && |Expand(rs)| == TWO32
  {
    var a, b := Range(0, 0xffff_ffff), Range(0xffff_ffff, 1);
    var rs := [a, b];
    assert rs[1..] == [b] && [b][1..] == [] && [] + [a] == [a];
    assert [a][0 := Range(0, 0)] == [Range(0, 0)];
    assert AddAll([a], [b]) == Some([Range(0, 0)]);
    assert rs == [a] + [b];
    ExpandSnoc([], a);
    ExpandSnoc([a], b);
    ExpandLength(rs);
  }
}
