/** The directory-count cache of one item: which count it reports, and when the answers are right. */
module CatalogueCache {
  // ------------------------------------------------------------- queries

  /** What the host reports about a path: modification time, kind, and directory entries. */
  datatype Stat = Stat(mtime: int, isDir: bool, entries: seq<string>)

  /** The item's cache fields. */
  datatype Cache = Cache(mtime: int, count: int)

  predicate Visible(name: string) {
    name == "" || name[0] != '.'
  }

  function CountVisible(entries: seq<string>): nat {
    if entries == [] then 0
    else CountVisible(entries[..|entries| - 1]) + if Visible(entries[|entries| - 1]) then 1 else 0
  }

  /** Positions of the entries whose names do not begin with a dot. */
  function Undotted(entries: seq<string>): set<nat> {
    set i: nat | i < |entries| && !("." <= entries[i])
  }

  /** The count is the number of those. */
  lemma {:induction false} CountsUndottedNames(entries: seq<string>)
    ensures CountVisible(entries) == |Undotted(entries)|
    decreases |entries|
  {
    if entries != [] {
      var n := |entries| - 1;
      var front := entries[..n];
      CountsUndottedNames(front);
      assert forall i :: 0 <= i < n ==> front[i] == entries[i];
      assert "." <= entries[n] <==> entries[n] != "" && entries[n][0] == '.';
      if "." <= entries[n] {
        assert Undotted(entries) == Undotted(front);
      } else {
        assert Undotted(entries) == Undotted(front) + {n};
      }
    }
  }

  /** One query: the entries are counted only if the modification time went up. */
  function Query(k: Cache, st: Stat): Cache {
    var cached := st.mtime <= k.mtime;
    Cache(if cached then k.mtime else st.mtime, if cached || !st.isDir then k.count else CountVisible(st.entries))
  }

  function QueryAll(k: Cache, trace: seq<Stat>): Cache {
    if trace == [] then k else Query(QueryAll(k, trace[..|trace| - 1]), trace[|trace| - 1])
  }

  // ------------------------------------------------------------- which count an answer repeats

  /** Query q is later, by its time stamp, than everything before it. */
  predicate Tops(start: int, trace: seq<Stat>, q: nat)
    requires q < |trace|
  {
    start < trace[q].mtime && forall i :: 0 <= i < q ==> trace[i].mtime < trace[q].mtime
  }

  /** Query q is the last one that made the program count. */
  predicate LastCount(start: int, trace: seq<Stat>, q: nat) {
    && q < |trace| && trace[q].isDir && Tops(start, trace, q)
    && forall r :: q < r < |trace| && trace[r].isDir ==> !Tops(start, trace, r)
  }

  function Greatest(start: int, trace: seq<Stat>): int {
    if trace == [] then start else
    var g, st := Greatest(start, trace[..|trace| - 1]), trace[|trace| - 1];
    if st.mtime > g then st.mtime else g
  }

  lemma {:induction false} GreatestBounds(start: int, trace: seq<Stat>, x: int)
    ensures Greatest(start, trace) < x <==> start < x && forall i :: 0 <= i < |trace| ==> trace[i].mtime < x
    decreases |trace|
  {
    if trace != [] {
      var n := |trace| - 1;
      GreatestBounds(start, trace[..n], x);
      assert forall i :: 0 <= i < n ==> trace[..n][i] == trace[i];
    }
  }

  lemma TopsInFront(start: int, trace: seq<Stat>, n: nat, q: nat)
    requires q < n <= |trace|
    ensures Tops(start, trace[..n], q) == Tops(start, trace, q)
  {
    assert forall i :: 0 <= i <= q ==> trace[..n][i] == trace[i];
  }

  /** Whatever the time stamps and kinds, an item that started with k reports the count of the last
      query that made the program count, and what it started with if there was none. */
  lemma {:induction false} AnswerRepeats(k: Cache, trace: seq<Stat>)
    ensures QueryAll(k, trace).mtime == Greatest(k.mtime, trace)
    ensures forall q: nat :: LastCount(k.mtime, trace, q) ==> QueryAll(k, trace).count == CountVisible(trace[q].entries)
    ensures (forall q :: 0 <= q < |trace| && trace[q].isDir ==> !Tops(k.mtime, trace, q)) ==>
      QueryAll(k, trace).count == k.count
    decreases |trace|
  {
    hide CountVisible, Tops;
    if trace != [] {
      var n := |trace| - 1;
      var front := trace[..n];
      AnswerRepeats(k, front);
      LastTops(k.mtime, trace);
      forall q | 0 <= q < n ensures front[q] == trace[q] && Tops(k.mtime, front, q) == Tops(k.mtime, trace, q) {
        TopsInFront(k.mtime, trace, n, q);
      }
      forall q: nat | LastCount(k.mtime, trace, q)
        ensures QueryAll(k, trace).count == CountVisible(trace[q].entries)
      {
        if q < n {
          assert LastCount(k.mtime, front, q);
        }
      }
    }
  }

  lemma LastTops(start: int, trace: seq<Stat>)
    requires trace != []
    ensures var n := |trace| - 1; Tops(start, trace, n) <==> Greatest(start, trace[..n]) < trace[n].mtime
  {
    var n := |trace| - 1;
    GreatestBounds(start, trace[..n], trace[n].mtime);
    assert forall i :: 0 <= i < n ==> trace[..n][i] == trace[i];
  }

  // ------------------------------------------------------------- when the answers are right

  /** The n-th query was answered with the directory's count at that moment. */
  predicate AnswerRight(k: Cache, trace: seq<Stat>, n: nat)
    requires 0 < n <= |trace|
  {
    QueryAll(k, trace[..n]).count == CountVisible(trace[n - 1].entries)
  }

  predicate AllAnswersRight(k: Cache, trace: seq<Stat>) {
    forall n :: 0 < n <= |trace| ==> AnswerRight(k, trace, n)
  }

  /** Query q is the first among the first n with their greatest time stamp. */
  predicate FirstGreatest(trace: seq<Stat>, n: nat, q: nat) {
    && q < n <= |trace|
    && (forall i :: 0 <= i < n ==> trace[i].mtime <= trace[q].mtime)
    && (forall i :: 0 <= i < q ==> trace[i].mtime < trace[q].mtime)
  }

  /** The first query with the greatest time stamp so far saw as many visible entries as the n-th. */
  ghost predicate StillTrue(trace: seq<Stat>, n: nat)
    requires 0 < n <= |trace|
  {
    forall q: nat :: FirstGreatest(trace, n, q) ==> CountVisible(trace[q].entries) == CountVisible(trace[n - 1].entries)
  }

  ghost predicate AlwaysStillTrue(trace: seq<Stat>) {
    forall n :: 0 < n <= |trace| ==> StillTrue(trace, n)
  }

  /** Queries of a directory, with time stamps later than the start. */
  predicate DirectoryTrace(start: int, trace: seq<Stat>) {
    forall i :: 0 <= i < |trace| ==> trace[i].isDir && trace[i].mtime > start
  }

  lemma {:induction false} SomeFirstGreatest(trace: seq<Stat>, n: nat) returns (q: nat)
    requires 0 < n <= |trace|
    ensures FirstGreatest(trace, n, q)
    decreases n
  {
    if n == 1 {
      q := 0;
    } else {
      q := SomeFirstGreatest(trace, n - 1);
      if trace[n - 1].mtime > trace[q].mtime {
        q := n - 1;
      }
    }
  }

  lemma OneFirstGreatest(trace: seq<Stat>, n: nat, p: nat, q: nat)
    requires FirstGreatest(trace, n, p) && FirstGreatest(trace, n, q)
    ensures p == q
  {
    assert trace[p].mtime <= trace[q].mtime <= trace[p].mtime;
  }

  lemma FirstGreatestCounts(start: int, trace: seq<Stat>, n: nat, q: nat)
    requires FirstGreatest(trace, n, q) && DirectoryTrace(start, trace)
    ensures LastCount(start, trace[..n], q)
  {
    var front := trace[..n];
    assert forall i :: 0 <= i < n ==> front[i] == trace[i];
    forall r | q < r < n ensures !Tops(start, front, r) {
      assert front[q].mtime >= front[r].mtime;
    }
  }

  lemma AnswerRightIff(k: Cache, trace: seq<Stat>, n: nat)
    requires DirectoryTrace(k.mtime, trace) && 0 < n <= |trace|
    ensures AnswerRight(k, trace, n) <==> StillTrue(trace, n)
  {
    hide CountVisible, QueryAll, FirstGreatest, LastCount;
    var q := SomeFirstGreatest(trace, n);
    FirstGreatestIsBefore(trace, n, q);
    FirstGreatestCounts(k.mtime, trace, n, q);
    AnswerRepeats(k, trace[..n]);
    assert trace[..n][q] == trace[q];
    forall p: nat | FirstGreatest(trace, n, p) ensures p == q {
      OneFirstGreatest(trace, n, p, q);
    }
  }

  lemma FirstGreatestIsBefore(trace: seq<Stat>, n: nat, q: nat)
    requires FirstGreatest(trace, n, q)
    ensures q < n <= |trace|
  {
  }

  /** Whatever a directory's time stamps do, as long as they are later than what the item started
      with, all answers are right if and only if at each query the first one with the greatest time
      stamp up to then saw the same count. */
  lemma AnswersRightIff(k: Cache, trace: seq<Stat>)
    requires DirectoryTrace(k.mtime, trace)
    ensures AllAnswersRight(k, trace) <==> AlwaysStillTrue(trace)
  {
    hide StillTrue, AnswerRight, DirectoryTrace;
    forall n | 0 < n <= |trace| ensures AnswerRight(k, trace, n) == StillTrue(trace, n) {
      AnswerRightIff(k, trace, n);
    }
  }

  // ------------------------------------------------------------- well-behaved hosts

  /** The host advances the modification time with every change of kind or visible entries. */
  predicate Advances(a: Stat, b: Stat) {
    && a.mtime <= b.mtime
    && (a.isDir != b.isDir || CountVisible(a.entries) != CountVisible(b.entries) ==> a.mtime < b.mtime)
  }

  predicate Faithful(trace: seq<Stat>) {
    && (forall i :: 0 <= i < |trace| ==> trace[i].mtime > 0)
    && (forall i, j :: 0 <= i < j < |trace| ==> Advances(trace[i], trace[j]))
  }

  /** On such a host a fresh item (time 0, count not yet set) always answers with the number of
      visible entries the directory has at that moment, through any sequence of queries. */
  lemma {:induction false} CacheAgreesWithRecount(unset: int, trace: seq<Stat>)
    requires trace != [] && Faithful(trace)
    ensures var k, now := QueryAll(Cache(0, unset), trace), trace[|trace| - 1];
      k.mtime == now.mtime && (now.isDir ==> k.count == CountVisible(now.entries))
    decreases |trace|
  {
    var front, now := trace[..|trace| - 1], trace[|trace| - 1];
    if front != [] {
      CacheAgreesWithRecount(unset, front);
      assert Advances(trace[|trace| - 2], now);
    }
  }

  /** The condition cannot be dropped: entries that change within one time stamp stay unseen. */
  lemma StaleCount()
    ensures QueryAll(Cache(0, 0), [Stat(1, true, ["a"]), Stat(1, true, ["a", "b"])]).count == 1
    ensures CountVisible(["a", "b"]) == 2
  {
    var s, t := Stat(1, true, ["a"]), Stat(1, true, ["a", "b"]);
    assert [s, t][..1] == [s] && [s][..0] == [];
    assert ["a", "b"][..1] == ["a"] && ["a"][..0] == [];
    assert QueryAll(Cache(0, 0), [s]) == Cache(1, 1);
  }

  /** The count changed between the n-th query and the next, but the time stamp did not. */
  predicate HiddenChange(trace: seq<Stat>, n: nat)
    requires 0 < n < |trace|
  {
    trace[n - 1].mtime == trace[n].mtime && CountVisible(trace[n - 1].entries) != CountVisible(trace[n].entries)
  }

  predicate NoHiddenChange(trace: seq<Stat>) {
    forall n :: 0 < n < |trace| ==> !HiddenChange(trace, n)
  }

  predicate SteadyTrace(start: int, trace: seq<Stat>) {
    && DirectoryTrace(start, trace)
    && (forall i, j :: 0 <= i < j < |trace| ==> trace[i].mtime <= trace[j].mtime)
  }

  /** While a directory's time stamps do not go back, that is when no change falls between two
      queries within one time stamp. */
  lemma {:induction false} SteadyAnswersRightIff(k: Cache, trace: seq<Stat>)
    requires SteadyTrace(k.mtime, trace)
    ensures AllAnswersRight(k, trace) <==> NoHiddenChange(trace)
    ensures trace != [] ==> QueryAll(k, trace).mtime == trace[|trace| - 1].mtime
    decreases |trace|
  {
    hide CountVisible, AllAnswersRight, NoHiddenChange;
    if trace == [] {
      NothingAsked(k);
    } else {
      var n := |trace| - 1;
      var front := trace[..n];
      SteadyAnswersRightIff(k, front);
      AnswersSplit(k, trace);
      ChangesSplit(trace);
      assert trace[..|trace|] == trace;
      if n > 0 {
        assert front[n - 1] == trace[n - 1] && front[..n] == front;
        assert AllAnswersRight(k, front) ==> AnswerRight(k, front, n) by { LastIsRight(k, front); }
      }
    }
  }

  lemma NothingAsked(k: Cache)
    ensures AllAnswersRight(k, []) && NoHiddenChange([])
  {
  }

  lemma LastIsRight(k: Cache, trace: seq<Stat>)
    requires trace != []
    ensures AllAnswersRight(k, trace) ==> AnswerRight(k, trace, |trace|)
  {
  }

  lemma AnswersSplit(k: Cache, trace: seq<Stat>)
    requires trace != []
    ensures var n := |trace| - 1;
      AllAnswersRight(k, trace) <==> AllAnswersRight(k, trace[..n]) && AnswerRight(k, trace, n + 1)
  {
    hide AnswerRight;
    var n := |trace| - 1;
    forall m | 0 < m <= n ensures AnswerRight(k, trace[..n], m) == AnswerRight(k, trace, m) {
      SameAnswerInFront(k, trace, n, m);
    }
  }

  lemma SameAnswerInFront(k: Cache, trace: seq<Stat>, n: nat, m: nat)
    requires 0 < m <= n <= |trace|
    ensures AnswerRight(k, trace[..n], m) == AnswerRight(k, trace, m)
  {
    hide QueryAll, CountVisible;
    assert trace[..n][..m] == trace[..m];
  }

  lemma ChangesSplit(trace: seq<Stat>)
    requires trace != []
    ensures var n := |trace| - 1;
      NoHiddenChange(trace) <==> NoHiddenChange(trace[..n]) && (n > 0 ==> !HiddenChange(trace, n))
  {
    hide CountVisible;
    var n := |trace| - 1;
    assert forall m {:trigger HiddenChange(trace, m)} {:trigger HiddenChange(trace[..n], m)} :: 0 < m < n ==>
      HiddenChange(trace[..n], m) == HiddenChange(trace, m);
  }
}
