/** Runs of lookups, renames, moves and count queries: every item reports from the stats of its own
    path, and when what it reports is true. */
module CatalogueCounts {
  import opened Options
  import opened Catalogue
  import opened CatalogueNames
  import opened CatalogueCache

  // ------------------------------------------------------------- items keep their paths

  lemma ResolveGrows(c: Cat, next: nat, dirId: nat, guest: string, pf: Platform)
    requires WellFormed(c, next)
    ensures Grows(c, Resolve(c, next, dirId, guest, pf).cat)
  {
    hide WellFormed, Resolve;
    ResolveKeepsWellFormed(c, next, dirId, guest, pf);
  }

  lemma ExchangeGrows(c: Cat, i: nat, j: nat)
    requires i < |c| && j < |c|
    ensures Grows(c, Exchange(c, i, j))
  {
  }

  lemma RenameGrows(c: Cat, next: nat, dirId: nat, oldName: string, newName: string, h: Host, failure: int,
                    pf: Platform)
    requires WellFormed(c, next)
    ensures Grows(c, Rename(c, next, dirId, oldName, newName, h, failure, pf).cat)
  {
    hide WellFormed, Grows, Resolve, Exchange, Path;
    ResolveGrows(c, next, dirId, oldName, pf);
    ResolveKeepsWellFormed(c, next, dirId, oldName, pf);
    var r1 := Resolve(c, next, dirId, oldName, pf);
    if r1.item.Some? {
      ResolveGrows(r1.cat, r1.next, dirId, newName, pf);
      ResolveKeepsWellFormed(r1.cat, r1.next, dirId, newName, pf);
      var r2 := Resolve(r1.cat, r1.next, dirId, newName, pf);
      GrowsTrans(c, r1.cat, r2.cat);
      if r2.item.Some? {
        PrefixLength(r1.cat, r2.cat);
        ExchangeGrows(r2.cat, r1.item.value, r2.item.value);
        GrowsTrans(c, r2.cat, Exchange(r2.cat, r1.item.value, r2.item.value));
      }
    }
  }

  lemma MoveGrows(c: Cat, next: nat, dirId: nat, oldName: string, newDirId: nat, newDirName: string,
                  h: Host, failure: int, pf: Platform)
    requires WellFormed(c, next)
    ensures Grows(c, CatMove(c, next, dirId, oldName, newDirId, newDirName, h, failure, pf).cat)
  {
    hide WellFormed, Grows, Resolve, Find, Exchange, Path;
    ResolveGrows(c, next, dirId, oldName, pf);
    ResolveKeepsWellFormed(c, next, dirId, oldName, pf);
    var r1 := Resolve(c, next, dirId, oldName, pf);
    if r1.item.Some? {
      ResolveGrows(r1.cat, r1.next, newDirId, newDirName, pf);
      ResolveKeepsWellFormed(r1.cat, r1.next, newDirId, newDirName, pf);
      var r2 := Resolve(r1.cat, r1.next, newDirId, newDirName, pf);
      GrowsTrans(c, r1.cat, r2.cat);
      if r2.item.Some? {
        PrefixLength(r1.cat, r2.cat);
        var i, d := r1.item.value, r2.item.value;
        var l := Find(r2.cat, r2.next, r2.cat[i].name, d, pf);
        FindGrows(r2.cat, r2.next, r2.cat[i].name, d, pf);
        ExchangeGrows(l.cat, i, l.pos);
        GrowsTrans(c, r2.cat, l.cat);
        GrowsTrans(c, l.cat, Exchange(l.cat, i, l.pos));
      }
    }
  }

  lemma FindGrows(c: Cat, next: nat, name: string, parent: nat, pf: Platform)
    requires parent < |c|
    ensures var l := Find(c, next, name, parent, pf); Grows(c, l.cat) && l.pos < |l.cat| && |c| <= |l.cat|
  {
  }

  lemma ApplyGrows(c: Cat, next: nat, op: Op, pf: Platform)
    requires WellFormed(c, next)
    ensures Grows(c, Apply(c, next, op, pf).0)
  {
    hide WellFormed, Grows, Resolve, Find, Rename, CatMove;
    match op
    case OpFind(name, parent) =>
      GrowsSelf(c);
      if parent < |c| {
        FindGrows(c, next, name, parent, pf);
      }
    case OpResolve(dirId, guest) => ResolveGrows(c, next, dirId, guest, pf);
    case OpRename(dirId, oldName, newName, host, failure) =>
      RenameGrows(c, next, dirId, oldName, newName, host, failure, pf);
    case OpMove(dirId, oldName, newDirId, newDirName, host, failure) =>
      MoveGrows(c, next, dirId, oldName, newDirId, newDirName, host, failure, pf);
  }

  /** Paths depend on names and parents only, apart from the first two items. */
  lemma {:induction false} GrowingKeepsPath(c: Cat, next: nat, c': Cat, next': nat, i: nat, pf: Platform)
    requires WellFormed(c, next) && WellFormed(c', next') && Grows(c, c') && i < |c|
    ensures Rooted(c) && Rooted(c') && i < |c'| && Path(c', i, pf) == Path(c, i, pf)
    decreases i
  {
    WellFormedIsRooted(c, next);
    WellFormedIsRooted(c', next');
    if i > ROOT {
      assert ParentOk(c, i) && ParentOk(c', i);
      assert c[i].id != c[ROOT].id && c[i].id != c[ROOT_PARENT].id;
      assert c'[i].id != c'[ROOT].id && c'[i].id != c'[ROOT_PARENT].id;
      GrowingKeepsPath(c, next, c', next', c[i].up, pf);
    }
  }

  // ------------------------------------------------------------- runs with count queries

  /** An operation on the catalogue, or a count query for an item, with what the host says at that
      moment about any path (nothing if it has none to report on). */
  datatype CountOp = Plain(op: Op) | Count(item: nat, stat: string -> Option<Stat>)

  /** The catalogue, the counter, and the cache fields of every item. */
  datatype Counted = Counted(cat: Cat, next: nat, caches: seq<Cache>)

  predicate CountedOk(s: Counted) {
    WellFormed(s.cat, s.next) && |s.caches| == |s.cat|
  }

  /** New items start with time stamp 0 and with a count that was never set. */
  function WithNew(caches: seq<Cache>, n: nat, unset: nat -> int): (r: seq<Cache>)
    ensures |r| == if n <= |caches| then |caches| else n
    ensures forall i :: 0 <= i < |r| ==> r[i] == if i < |caches| then caches[i] else Cache(0, unset(i))
  {
    if n <= |caches| then caches
    else caches + seq(n - |caches|, j requires 0 <= j => Cache(0, unset(|caches| + j)))
  }

  /** Old items keep their cache fields, new ones start with time stamp 0. */
  predicate CachesGrow(a: seq<Cache>, b: seq<Cache>) {
    && |a| <= |b|
    && (forall i :: 0 <= i < |a| ==> b[i] == a[i])
    && forall i :: |a| <= i < |b| ==> b[i].mtime == 0
  }

  lemma CachesGrowTrans(a: seq<Cache>, b: seq<Cache>, c: seq<Cache>)
    requires CachesGrow(a, b) && CachesGrow(b, c)
    ensures CachesGrow(a, c)
  {
  }

  lemma CachesGrowSelf(a: seq<Cache>)
    ensures CachesGrow(a, a)
  {
  }

  /** The counts found in the cache fields. */
  function CountsIn(caches: seq<Cache>): nat -> int {
    (i: nat) => if i < |caches| then caches[i].count else 0
  }

  function StepCounted(s: Counted, op: CountOp, pf: Platform, unset: nat -> int): Counted {
    if !CountedOk(s) then s else
    match op
    case Plain(o) =>
      var (c, next) := Apply(s.cat, s.next, o, pf);
      Counted(c, next, WithNew(s.caches, |c|, unset))
    case Count(i, stat) =>
      WellFormedIsRooted(s.cat, s.next);
      if i >= |s.cat| then s else
      match stat(Path(s.cat, i, pf))
      case None => s
      case Some(st) => s.(caches := s.caches[i := Query(s.caches[i], st)])
  }

  /** An operation that leaves the cache fields of the old items alone is such a step. */
  lemma PlainStepIs(s: Counted, o: Op, pf: Platform, caches: seq<Cache>, unset: nat -> int)
    requires CountedOk(s) && CachesGrow(s.caches, caches) && |caches| == |Apply(s.cat, s.next, o, pf).0|
    requires forall i :: |s.caches| <= i < |caches| ==> unset(i) == caches[i].count
    ensures var (c, next) := Apply(s.cat, s.next, o, pf);
      StepCounted(s, Plain(o), pf, unset) == Counted(c, next, caches)
  {
    hide WellFormed, Apply;
    assert WithNew(s.caches, |caches|, unset) == caches;
  }

  function AfterCounted(s: Counted, ops: seq<CountOp>, pf: Platform, unset: nat -> int): Counted {
    if ops == [] then s
    else StepCounted(AfterCounted(s, ops[..|ops| - 1], pf, unset), ops[|ops| - 1], pf, unset)
  }

  ghost predicate CountAllowed(s: Counted, op: CountOp, pf: Platform) {
    match op
    case Plain(o) => Allowed(s.cat, s.next, o, pf)
    case Count(i, _) => i < |s.cat|
  }

  ghost predicate AllowedCounts(s: Counted, ops: seq<CountOp>, pf: Platform, unset: nat -> int) {
    ops == [] ||
    var front := ops[..|ops| - 1];
    AllowedCounts(s, front, pf, unset) && CountAllowed(AfterCounted(s, front, pf, unset), ops[|ops| - 1], pf)
  }

  /** What the host said about a path in the queries for item k, in order. */
  function Asked(ops: seq<CountOp>, k: nat, path: string): seq<Stat> {
    if ops == [] then [] else
    Asked(ops[..|ops| - 1], k, path) +
    match ops[|ops| - 1]
    case Plain(_) => []
    case Count(i, stat) => if i == k && stat(path).Some? then [stat(path).value] else []
  }

  /** The cache an item starts with. */
  function StartOf(s: Counted, k: nat, unset: nat -> int): Cache {
    if k < |s.caches| then s.caches[k] else Cache(0, unset(k))
  }

  /** After every run each item's cache is what the queries of its own path make of it, and its path
      is the one it had all along. */
  ghost predicate FollowsOwnPath(s: Counted, r: Counted, ops: seq<CountOp>, pf: Platform, unset: nat -> int) {
    && CountedOk(s) && CountedOk(r) && Grows(s.cat, r.cat) && Rooted(r.cat)
    && (forall k :: 0 <= k < |r.cat| ==>
      r.caches[k] == QueryAll(StartOf(s, k, unset), Asked(ops, k, Path(r.cat, k, pf))))
    && (forall k: nat, path: string :: |r.cat| <= k ==> Asked(ops, k, path) == [])
  }

  lemma {:induction false} EveryRunFollowsOwnPath(s: Counted, ops: seq<CountOp>, pf: Platform, unset: nat -> int)
    requires CountedOk(s) && AllowedCounts(s, ops, pf, unset)
    ensures FollowsOwnPath(s, AfterCounted(s, ops, pf, unset), ops, pf, unset)
    decreases |ops|
  {
    hide WellFormed, Rooted, Path, Apply, Allowed, Grows, Query, QueryAll, StepCounted, FollowsOwnPath;
    if ops == [] {
      NoRun(s, pf, unset);
    } else {
      var front, op := ops[..|ops| - 1], ops[|ops| - 1];
      EveryRunFollowsOwnPath(s, front, pf, unset);
      var r := AfterCounted(s, front, pf, unset);
      match op
      case Plain(o) => PlainFollows(s, r, ops, o, pf, unset);
      case Count(i, stat) => CountFollows(s, r, ops, i, stat, pf, unset);
    }
  }

  lemma NoRun(s: Counted, pf: Platform, unset: nat -> int)
    requires CountedOk(s)
    ensures FollowsOwnPath(s, s, [], pf, unset)
  {
    hide WellFormed, Rooted, Path;
    WellFormedIsRooted(s.cat, s.next);
    GrowsSelf(s.cat);
  }

  lemma PlainFollows(s: Counted, r: Counted, ops: seq<CountOp>, o: Op, pf: Platform, unset: nat -> int)
    requires ops != [] && ops[|ops| - 1] == Plain(o)
    requires FollowsOwnPath(s, r, ops[..|ops| - 1], pf, unset) && Allowed(r.cat, r.next, o, pf)
    ensures FollowsOwnPath(s, StepCounted(r, Plain(o), pf, unset), ops, pf, unset)
  {
    hide WellFormed, Rooted, Path, Apply, Allowed, QueryAll;
    var front, r' := ops[..|ops| - 1], StepCounted(r, Plain(o), pf, unset);
    AllowedKeepsWellFormed(r.cat, r.next, o, pf);
    ApplyGrows(r.cat, r.next, o, pf);
    GrowsTrans(s.cat, r.cat, r'.cat);
    WellFormedIsRooted(r'.cat, r'.next);
    forall k, path ensures Asked(ops, k, path) == Asked(front, k, path) {
      assert Asked(front, k, path) + [] == Asked(front, k, path);
    }
    forall k | 0 <= k < |r'.cat|
      ensures r'.caches[k] == QueryAll(StartOf(s, k, unset), Asked(ops, k, Path(r'.cat, k, pf)))
    {
      if k < |r.cat| {
        GrowingKeepsPath(r.cat, r.next, r'.cat, r'.next, k, pf);
      } else {
        assert Asked(front, k, Path(r'.cat, k, pf)) == [];
        NoQuery(StartOf(s, k, unset));
      }
    }
  }

  lemma NoQuery(k: Cache)
    ensures QueryAll(k, []) == k
  {
  }

  lemma QuerySnoc(k: Cache, trace: seq<Stat>, st: Stat)
    ensures QueryAll(k, trace + [st]) == Query(QueryAll(k, trace), st)
  {
    assert (trace + [st])[..|trace|] == trace;
  }

  lemma CountFollows(s: Counted, r: Counted, ops: seq<CountOp>, i: nat, stat: string -> Option<Stat>, pf: Platform,
                     unset: nat -> int)
    requires ops != [] && ops[|ops| - 1] == Count(i, stat) && i < |r.cat|
    requires FollowsOwnPath(s, r, ops[..|ops| - 1], pf, unset)
    ensures FollowsOwnPath(s, StepCounted(r, Count(i, stat), pf, unset), ops, pf, unset)
  {
    hide WellFormed, Rooted, Path, Query, QueryAll;
    var front, r' := ops[..|ops| - 1], StepCounted(r, Count(i, stat), pf, unset);
    forall k: nat, path | k != i ensures Asked(ops, k, path) == Asked(front, k, path) {
      assert Asked(front, k, path) + [] == Asked(front, k, path);
    }
    var path := Path(r.cat, i, pf);
    if stat(path).Some? {
      QuerySnoc(StartOf(s, i, unset), Asked(front, i, path), stat(path).value);
    } else {
      assert Asked(front, i, path) + [] == Asked(front, i, path);
    }
  }

  // ------------------------------------------------------------- when the answers of a run are right

  /** If the run ends with a query for item k that the host answers, the program reports as many
      entries as the item's own path has at that moment. */
  ghost predicate LastAnswerRight(s: Counted, ops: seq<CountOp>, pf: Platform, unset: nat -> int, k: nat) {
    var r := AfterCounted(s, ops, pf, unset);
    ops != [] && ops[|ops| - 1].Count? && ops[|ops| - 1].item == k && CountedOk(r) && Rooted(r.cat) && k < |r.cat| ==>
      match ops[|ops| - 1].stat(Path(r.cat, k, pf))
      case None => true
      case Some(st) => r.caches[k].count == CountVisible(st.entries)
  }

  /** So do all queries for item k during the run. */
  ghost predicate AnswersOfItemRight(s: Counted, ops: seq<CountOp>, pf: Platform, unset: nat -> int, k: nat) {
    ops == [] || (AnswersOfItemRight(s, ops[..|ops| - 1], pf, unset, k) && LastAnswerRight(s, ops, pf, unset, k))
  }

  lemma {:induction false} AnswersAreOfTrace(s: Counted, ops: seq<CountOp>, pf: Platform, unset: nat -> int, k: nat,
                                             path: string)
    requires CountedOk(s) && AllowedCounts(s, ops, pf, unset)
    requires var r := AfterCounted(s, ops, pf, unset); Rooted(r.cat) && k < |r.cat| ==> path == Path(r.cat, k, pf)
    ensures AnswersOfItemRight(s, ops, pf, unset, k) <==> AllAnswersRight(StartOf(s, k, unset), Asked(ops, k, path))
    decreases |ops|
  {
    hide WellFormed, Rooted, Path, Apply, Allowed, Grows, Query, QueryAll, StepCounted, AllAnswersRight, CountVisible;
    var start := StartOf(s, k, unset);
    if ops == [] {
      NothingAsked(start);
    } else {
      var front := ops[..|ops| - 1];
      FrontPath(s, ops, pf, unset, k, path);
      AnswersAreOfTrace(s, front, pf, unset, k, path);
      EveryRunFollowsOwnPath(s, ops, pf, unset);
      var trace := Asked(ops, k, path);
      if ops[|ops| - 1].Count? && ops[|ops| - 1].item == k && ops[|ops| - 1].stat(path).Some? {
        var st := ops[|ops| - 1].stat(path).value;
        assert trace == Asked(front, k, path) + [st];
        AnswersSplit(start, trace);
        assert trace[..|trace| - 1] == Asked(front, k, path) && trace[..|trace|] == trace;
      } else {
        assert Asked(front, k, path) + [] == Asked(front, k, path);
      }
    }
  }

  /** An item that exists before the last operation has the same path after it. */
  lemma FrontPath(s: Counted, ops: seq<CountOp>, pf: Platform, unset: nat -> int, k: nat, path: string)
    requires CountedOk(s) && AllowedCounts(s, ops, pf, unset) && ops != []
    requires var r := AfterCounted(s, ops, pf, unset); Rooted(r.cat) && k < |r.cat| ==> path == Path(r.cat, k, pf)
    ensures var r := AfterCounted(s, ops[..|ops| - 1], pf, unset); Rooted(r.cat) && k < |r.cat| ==>
      path == Path(r.cat, k, pf)
    ensures k < |AfterCounted(s, ops, pf, unset).cat| || ops[|ops| - 1].Plain? || ops[|ops| - 1].item != k
  {
    hide WellFormed, Rooted, Path, Apply, Allowed, QueryAll, Query;
    var front := ops[..|ops| - 1];
    EveryRunFollowsOwnPath(s, front, pf, unset);
    EveryRunFollowsOwnPath(s, ops, pf, unset);
    var r0, r := AfterCounted(s, front, pf, unset), AfterCounted(s, ops, pf, unset);
    var op := ops[|ops| - 1];
    assert r == StepCounted(r0, op, pf, unset);
    if op.Plain? {
      ApplyGrows(r0.cat, r0.next, op.op, pf);
      assert r.cat == Apply(r0.cat, r0.next, op.op, pf).0;
    } else {
      GrowsSelf(r0.cat);
      assert r.cat == r0.cat;
    }
    if k < |r0.cat| {
      GrowingKeepsPath(r0.cat, r0.next, r.cat, r.next, k, pf);
    }
  }

  /** During any run of lookups, renames, moves and queries, all queries for a directory are answered
      with a recount of its item's own path if and only if at each of them the first one with the
      greatest time stamp up to then saw the same count. */
  lemma AnswersOfRunIff(s: Counted, ops: seq<CountOp>, pf: Platform, unset: nat -> int, k: nat)
    requires CountedOk(s) && AllowedCounts(s, ops, pf, unset)
    requires var r := AfterCounted(s, ops, pf, unset);
      k < |r.cat| && Rooted(r.cat) && DirectoryTrace(StartOf(s, k, unset).mtime, Asked(ops, k, Path(r.cat, k, pf)))
    ensures AnswersOfItemRight(s, ops, pf, unset, k) <==>
      AlwaysStillTrue(Asked(ops, k, Path(AfterCounted(s, ops, pf, unset).cat, k, pf)))
  {
    hide Rooted, AllowedCounts, AnswersOfItemRight, AfterCounted, AllAnswersRight, AlwaysStillTrue, DirectoryTrace,
      CountedOk;
    var path := Path(AfterCounted(s, ops, pf, unset).cat, k, pf);
    AnswersAreOfTrace(s, ops, pf, unset, k, path);
    AnswersRightIff(StartOf(s, k, unset), Asked(ops, k, path));
  }

  /** The state at the start; the cache fields of the first two items are whatever they were. */
  function Start(pf: Platform, volumeName: string, top: Cache, root: Cache): Counted {
    Counted(Initial(pf, volumeName), FIRST_USER_CNID, [top, root])
  }

  lemma StartIsOk(pf: Platform, volumeName: string, top: Cache, root: Cache)
    ensures CountedOk(Start(pf, volumeName, top, root))
  {
    InitialIsWellFormed(pf, volumeName);
  }

  /** From the start on, for every item but the first two and for positive time stamps. */
  lemma AnswersFromStartIff(ops: seq<CountOp>, pf: Platform, volumeName: string, top: Cache, root: Cache,
                            unset: nat -> int, k: nat)
    requires var s := Start(pf, volumeName, top, root); AllowedCounts(s, ops, pf, unset)
    requires var r := AfterCounted(Start(pf, volumeName, top, root), ops, pf, unset);
      ROOT < k < |r.cat| && Rooted(r.cat) && DirectoryTrace(0, Asked(ops, k, Path(r.cat, k, pf)))
    ensures var s := Start(pf, volumeName, top, root);
      var r := AfterCounted(s, ops, pf, unset);
      AnswersOfItemRight(s, ops, pf, unset, k) <==> AlwaysStillTrue(Asked(ops, k, Path(r.cat, k, pf)))
  {
    hide Rooted, AllowedCounts, AnswersOfItemRight, AfterCounted, AlwaysStillTrue, DirectoryTrace, Initial;
    StartIsOk(pf, volumeName, top, root);
    AnswersOfRunIff(Start(pf, volumeName, top, root), ops, pf, unset, k);
  }

  /** On a host that advances the item's path's time stamp with every change, whatever its kind, the
      item reports what its path has. */
  lemma FaithfulPathIsCounted(s: Counted, ops: seq<CountOp>, pf: Platform, unset: nat -> int, k: nat)
    requires CountedOk(s) && AllowedCounts(s, ops, pf, unset)
    requires var r := AfterCounted(s, ops, pf, unset);
      && k < |r.cat| && Rooted(r.cat) && StartOf(s, k, unset).mtime == 0
      && Asked(ops, k, Path(r.cat, k, pf)) != [] && Faithful(Asked(ops, k, Path(r.cat, k, pf)))
    ensures var r := AfterCounted(s, ops, pf, unset);
      var trace := Asked(ops, k, Path(r.cat, k, pf));
      k < |r.caches| && (trace[|trace| - 1].isDir ==> r.caches[k].count == CountVisible(trace[|trace| - 1].entries))
  {
    hide Rooted, AllowedCounts, AfterCounted, Faithful, WellFormed, Grows;
    EveryRunFollowsOwnPath(s, ops, pf, unset);
    var r := AfterCounted(s, ops, pf, unset);
    CacheAgreesWithRecount(StartOf(s, k, unset).count, Asked(ops, k, Path(r.cat, k, pf)));
  }

  // ------------------------------------------------------------- a name used again

  function HostAB(): Host {
    Host(p => p == "/r" || p == "/r/a", (a, b) => a == "/r/a" && b == "/r/b")
  }

  function HostCA(): Host {
    Host(p => p == "/r" || p == "/r/b" || p == "/r/c", (a, b) => a == "/r/c" && b == "/r/a")
  }

  function OneFileAtTen(): string -> Option<Stat> {
    p => if p == "/r/a" then Some(Stat(10, true, ["x"])) else None
  }

  function TwoFilesAtFive(): string -> Option<Stat> {
    p => if p == "/r/a" then Some(Stat(5, true, ["x", "y"])) else None
  }

  /** Directory a is asked, renamed to b, an older directory c is renamed to a, and a is asked again. */
  function NameUsedAgain(): seq<CountOp> {
    [Plain(OpFind("a", ROOT)), Count(2, OneFileAtTen()), Plain(OpRename(ROOT_ID, "a", "b", HostAB(), -1)),
     Plain(OpRename(ROOT_ID, "c", "a", HostCA(), -1)), Count(2, TwoFilesAtFive())]
  }

  const VOLUME_A: Cat := [Item(1, 0, -1, "", ""), Item(2, 1, 0, "v", "v"), Item(16, 2, 1, "a", "a")]
  const VOLUME_AB: Cat :=
    [Item(1, 0, -1, "", ""), Item(2, 1, 0, "v", "v"), Item(17, 2, 1, "a", "a"), Item(16, 2, 1, "b", "b")]
  const VOLUME_ABC: Cat :=
    [Item(1, 0, -1, "", ""), Item(2, 1, 0, "v", "v"), Item(18, 2, 1, "a", "a"), Item(16, 2, 1, "b", "b"),
      Item(17, 2, 1, "c", "c")]

  lemma RenameAToB()
    requires WellFormed(VOLUME_A, 17)
    ensures Rename(VOLUME_A, 17, ROOT_ID, "a", "b", HostAB(), -1, SmallPlatform()) == Outcome(VOLUME_AB, 18, NO_ERR)
  {
    hide WellFormed, Exchange;
    var pf, c := SmallPlatform(), VOLUME_A;
    var c1 := c + [Item(17, 2, 1, "b", "b")];
    WellFormedIsRooted(c, 17);
    assert FindIdFrom(c, ROOT_ID, 1) == Some(1);
    assert FindGuestFrom(c, "a", 1, 2) == Some(2) && FindGuestFrom(c, "a", 1, 1) == Some(2);
    assert Resolve(c, 17, ROOT_ID, "a", pf) == Resolved(c, 17, Some(2));
    assert FindGuestFrom(c, "b", 1, 0).None?;
    assert Resolve(c, 17, ROOT_ID, "b", pf) == Resolved(c1, 18, Some(3));
    assert Rooted(c1);
    assert Path(c, 1, pf) == "/r" && Path(c, 2, pf) == "/r" + "/" + "a" == "/r/a";
    assert Path(c1, 1, pf) == "/r" && Path(c1, 3, pf) == "/r" + "/" + "b" == "/r/b";
    ExchangedAB();
  }

  lemma ExchangedAB()
    ensures Exchange(VOLUME_A + [Item(17, 2, 1, "b", "b")], 2, 3) == VOLUME_AB
  {
  }

  lemma RenameCToA()
    requires WellFormed(VOLUME_AB, 18)
    ensures Rename(VOLUME_AB, 18, ROOT_ID, "c", "a", HostCA(), -1, SmallPlatform()) == Outcome(VOLUME_ABC, 19, NO_ERR)
  {
    hide WellFormed, Exchange;
    var pf, c := SmallPlatform(), VOLUME_AB;
    var c1 := c + [Item(18, 2, 1, "c", "c")];
    WellFormedIsRooted(c, 18);
    assert FindIdFrom(c, ROOT_ID, 1) == Some(1) && FindIdFrom(c1, ROOT_ID, 1) == Some(1);
    assert FindGuestFrom(c, "c", 1, 0).None?;
    assert Resolve(c, 18, ROOT_ID, "c", pf) == Resolved(c1, 19, Some(4));
    assert FindGuestFrom(c1, "a", 1, 2) == Some(2) && FindGuestFrom(c1, "a", 1, 1) == Some(2);
    assert Resolve(c1, 19, ROOT_ID, "a", pf) == Resolved(c1, 19, Some(2));
    assert Rooted(c1);
    assert Path(c1, 1, pf) == "/r" && Path(c1, 2, pf) == "/r" + "/" + "a" == "/r/a";
    assert Path(c1, 4, pf) == "/r" + "/" + "c" == "/r/c";
    ExchangedCA();
  }

  lemma ExchangedCA()
    ensures Exchange(VOLUME_AB + [Item(18, 2, 1, "c", "c")], 4, 2) == VOLUME_ABC
  {
  }

  lemma VolumesAreWellFormed()
    ensures WellFormed(Initial(SmallPlatform(), "v"), 16) && WellFormed(VOLUME_A, 17) && WellFormed(VOLUME_AB, 18)
    ensures WellFormed(VOLUME_ABC, 19)
  {
    hide Exchange;
    var start := Initial(SmallPlatform(), "v");
    InitialIsWellFormed(SmallPlatform(), "v");
    AppendKeepsWellFormed(start, 16, Item(16, 2, 1, "a", "a"));
    assert VOLUME_A == start + [Item(16, 2, 1, "a", "a")];
    AppendKeepsWellFormed(VOLUME_A, 17, Item(17, 2, 1, "b", "b"));
    ExchangedAB();
    ExchangeKeepsWellFormed(VOLUME_A + [Item(17, 2, 1, "b", "b")], 18, 2, 3);
    AppendKeepsWellFormed(VOLUME_AB, 18, Item(18, 2, 1, "c", "c"));
    ExchangedCA();
    ExchangeKeepsWellFormed(VOLUME_AB + [Item(18, 2, 1, "c", "c")], 19, 4, 2);
  }

  lemma HostsAreSane()
    ensures Sane(HostAB(), SmallPlatform()) && Sane(HostCA(), SmallPlatform())
  {
  }

  lemma RunSnoc(s: Counted, ops: seq<CountOp>, op: CountOp, pf: Platform, unset: nat -> int)
    ensures AfterCounted(s, ops + [op], pf, unset) == StepCounted(AfterCounted(s, ops, pf, unset), op, pf, unset)
    ensures AllowedCounts(s, ops + [op], pf, unset) <==>
      AllowedCounts(s, ops, pf, unset) && CountAllowed(AfterCounted(s, ops, pf, unset), op, pf)
  {
    hide StepCounted, CountAllowed;
    assert (ops + [op])[..|ops|] == ops;
  }

  lemma StepFindA(top: Cache, root: Cache, unset: nat -> int)
    ensures var pf, op := SmallPlatform(), Plain(OpFind("a", ROOT));
      && StepCounted(Start(pf, "v", top, root), op, pf, unset) == Counted(VOLUME_A, 17, [top, root, Cache(0, unset(2))])
      && CountAllowed(Start(pf, "v", top, root), op, pf)
  {
    hide WellFormed;
    var c := Initial(SmallPlatform(), "v");
    VolumesAreWellFormed();
    assert FindNameFrom(c, "a", ROOT, 0).None?;
    assert Find(c, 16, "a", ROOT, SmallPlatform()) == Lookup(VOLUME_A, 17, 2);
  }

  lemma StepCountA(caches: seq<Cache>)
    requires |caches| == 3 && caches[2].mtime == 0
    ensures var s := Counted(VOLUME_A, 17, caches);
      forall unset :: StepCounted(s, Count(2, OneFileAtTen()), SmallPlatform(), unset) ==
        s.(caches := caches[2 := Cache(10, 1)])
  {
    hide WellFormed;
    VolumesAreWellFormed();
    WellFormedIsRooted(VOLUME_A, 17);
    assert Path(VOLUME_A, 1, SmallPlatform()) == "/r" &&
      Path(VOLUME_A, 2, SmallPlatform()) == "/r" + "/" + "a" == "/r/a";
    assert ["x"][..0] == [];
    assert CountVisible(["x"]) == 1;
  }

  lemma StepFirstRename(caches: seq<Cache>, unset: nat -> int)
    requires |caches| == 3
    ensures var pf, op := SmallPlatform(), Plain(OpRename(ROOT_ID, "a", "b", HostAB(), -1));
      var s := Counted(VOLUME_A, 17, caches);
      && StepCounted(s, op, pf, unset) == Counted(VOLUME_AB, 18, caches + [Cache(0, unset(3))])
      && CountAllowed(s, op, pf)
  {
    hide WellFormed, Rename;
    VolumesAreWellFormed();
    HostsAreSane();
    RenameAToB();
  }

  lemma StepSecondRename(caches: seq<Cache>, unset: nat -> int)
    requires |caches| == 4
    ensures var pf, op := SmallPlatform(), Plain(OpRename(ROOT_ID, "c", "a", HostCA(), -1));
      var s := Counted(VOLUME_AB, 18, caches);
      && StepCounted(s, op, pf, unset) == Counted(VOLUME_ABC, 19, caches + [Cache(0, unset(4))])
      && CountAllowed(s, op, pf)
  {
    hide WellFormed, Rename;
    VolumesAreWellFormed();
    HostsAreSane();
    RenameCToA();
  }

  lemma StepCountAgain(caches: seq<Cache>)
    requires |caches| == 5 && caches[2] == Cache(10, 1)
    ensures var s := Counted(VOLUME_ABC, 19, caches);
      && CountedOk(s) && Rooted(s.cat) && Path(s.cat, 2, SmallPlatform()) == "/r/a"
      && forall unset :: StepCounted(s, Count(2, TwoFilesAtFive()), SmallPlatform(), unset) == s
  {
    hide WellFormed;
    VolumesAreWellFormed();
    WellFormedIsRooted(VOLUME_ABC, 19);
    assert Path(VOLUME_ABC, 1, SmallPlatform()) == "/r" &&
      Path(VOLUME_ABC, 2, SmallPlatform()) == "/r" + "/" + "a" == "/r/a";
    assert caches[2 := Cache(10, 1)] == caches;
  }

  lemma AskedTwice()
    ensures Asked(NameUsedAgain(), 2, "/r/a") == [Stat(10, true, ["x"]), Stat(5, true, ["x", "y"])]
    ensures CountVisible(["x", "y"]) == 2
  {
    var ops := NameUsedAgain();
    assert ops[..4][..3] == ops[..3] && ops[..3][..2] == ops[..2] && ops[..2][..1] == ops[..1] && ops[..1][..0] == [];
    var st := Stat(10, true, ["x"]);
    assert OneFileAtTen()("/r/a") == Some(st) && ops[..2][1] == ops[1] && ops[..1][0] == ops[0];
    assert Asked(ops[..1], 2, "/r/a") == [];
    assert Asked(ops[..2], 2, "/r/a") == [] + [st] == [st];
    assert ops[..3][2] == ops[2] && ops[..4][3] == ops[3];
    assert Asked(ops[..3], 2, "/r/a") == [st] + [] == [st];
    assert Asked(ops[..4], 2, "/r/a") == [st] + [] == [st];
    assert ["x", "y"][..1] == ["x"] && ["x"][..0] == [];
  }

  /** The item named a is found again for the new directory a, whose time stamp is older: it reports
      the old directory's one file, not the two there are. */
  lemma ReusedNameIsStale(top: Cache, root: Cache, unset: nat -> int)
    ensures var s := Start(SmallPlatform(), "v", top, root);
      var r := AfterCounted(s, NameUsedAgain(), SmallPlatform(), unset);
      && AllowedCounts(s, NameUsedAgain(), SmallPlatform(), unset)
      && CountedOk(r) && Rooted(r.cat) && |r.cat| == 5 && Path(r.cat, 2, SmallPlatform()) == "/r/a"
      && Asked(NameUsedAgain(), 2, "/r/a") == [Stat(10, true, ["x"]), Stat(5, true, ["x", "y"])]
      && r.caches[2].count == 1 && CountVisible(["x", "y"]) == 2
  {
    hide StepCounted, CountAllowed, AfterCounted, AllowedCounts, CountedOk, Rooted, Path, Start, Asked;
    var pf, s, ops := SmallPlatform(), Start(SmallPlatform(), "v", top, root), NameUsedAgain();
    var c1 := [top, root, Cache(0, unset(2))];
    var c2 := c1[2 := Cache(10, 1)];
    var c4 := c2 + [Cache(0, unset(3))] + [Cache(0, unset(4))];
    AskedTwice();
    StepFindA(top, root, unset);
    StepCountA(c1);
    StepFirstRename(c2, unset);
    StepSecondRename(c2 + [Cache(0, unset(3))], unset);
    StepCountAgain(c4);
    NothingDone(s, pf, unset);
    RunSnoc(s, [], ops[0], pf, unset);
    RunSnoc(s, [] + [ops[0]], ops[1], pf, unset);
    CountIsAllowed(Counted(VOLUME_A, 17, c1), 2, OneFileAtTen(), pf);
    RunSnoc(s, [] + [ops[0]] + [ops[1]], ops[2], pf, unset);
    RunSnoc(s, [] + [ops[0]] + [ops[1]] + [ops[2]], ops[3], pf, unset);
    RunSnoc(s, [] + [ops[0]] + [ops[1]] + [ops[2]] + [ops[3]], ops[4], pf, unset);
    CountIsAllowed(Counted(VOLUME_ABC, 19, c4), 2, TwoFilesAtFive(), pf);
    assert [] + [ops[0]] + [ops[1]] + [ops[2]] + [ops[3]] + [ops[4]] == ops;
  }

  lemma NothingDone(s: Counted, pf: Platform, unset: nat -> int)
    ensures AfterCounted(s, [], pf, unset) == s && AllowedCounts(s, [], pf, unset)
  {
  }

  lemma CountIsAllowed(s: Counted, i: nat, stat: string -> Option<Stat>, pf: Platform)
    requires i < |s.cat|
    ensures CountAllowed(s, Count(i, stat), pf)
  {
  }
}
