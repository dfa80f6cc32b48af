/** The two lookup keys of the catalogue, host name and guest name. */
module CatalogueNames {
  import opened Catalogue

  // ------------------------------------------------------------- two keys, one item

  /** The two name encodings undo each other. */
  ghost predicate Inverse(pf: Platform) {
    && (forall n :: pf.decode(pf.encode(n)) == n)
    && (forall g :: pf.encode(pf.decode(g)) == g)
  }

  /** Each item's guest name is the encoding of its host name, and no two items of one directory
      share a host name. */
  predicate Coherent(c: Cat, pf: Platform) {
    && (forall i :: 0 < i < |c| ==> c[i].guestName == pf.encode(c[i].name))
    && (forall i, j :: 0 < i < j < |c| && c[i].up == c[j].up ==> c[i].name != c[j].name)
  }

  /** Then they do not share a guest name either. */
  lemma GuestNamesUnique(c: Cat, pf: Platform, i: nat, j: nat)
    requires Inverse(pf) && Coherent(c, pf) && 0 < i < j < |c| && c[i].up == c[j].up
    ensures c[i].guestName != c[j].guestName
  {
    assert pf.decode(c[i].guestName) == c[i].name && pf.decode(c[j].guestName) == c[j].name;
  }

  /** Looking up a host name and looking up its encoding are the same operation: they find, or
      create, the same item. */
  lemma LookupsAgree(c: Cat, next: nat, name: string, parent: nat, pf: Platform)
    requires WellFormed(c, next) && Inverse(pf) && Coherent(c, pf) && parent < |c|
    ensures Find(c, next, name, parent, pf) == FindGuest(c, next, pf.encode(name), parent, pf)
  {
    var a, b := FindNameFrom(c, name, parent, 0), FindGuestFrom(c, pf.encode(name), parent, 0);
    assert c[ROOT_PARENT].up != parent;
    if b.Some? {
      assert pf.decode(c[b.value].guestName) == c[b.value].name;
    }
  }

  lemma FindKeepsCoherent(c: Cat, next: nat, name: string, parent: nat, pf: Platform)
    requires WellFormed(c, next) && Inverse(pf) && Coherent(c, pf) && parent < |c|
    requires |pf.encode(name)| <= MAX_GUEST_NAME
    ensures Coherent(Find(c, next, name, parent, pf).cat, pf)
    ensures Coherent(FindGuest(c, next, pf.encode(name), parent, pf).cat, pf)
  {
    LookupsAgree(c, next, name, parent, pf);
  }

  /** Whichever key created the item, either key finds it again without growing the list. */
  lemma EitherKeyFindsAgain(c: Cat, next: nat, name: string, parent: nat, pf: Platform)
    requires WellFormed(c, next) && Inverse(pf) && Coherent(c, pf) && parent < |c|
    requires |pf.encode(name)| <= MAX_GUEST_NAME
    ensures var l := Find(c, next, name, parent, pf);
      && Find(l.cat, l.next, name, parent, pf) == l
      && FindGuest(l.cat, l.next, pf.encode(name), parent, pf) == l
    ensures var g := FindGuest(c, next, pf.encode(name), parent, pf);
      && Find(g.cat, g.next, name, parent, pf) == g
      && FindGuest(g.cat, g.next, pf.encode(name), parent, pf) == g
  {
    var l := Find(c, next, name, parent, pf);
    LookupsAgree(c, next, name, parent, pf);
    LookupsKeepWellFormed(c, next, name, parent, pf);
    FindKeepsCoherent(c, next, name, parent, pf);
    LookupsAgree(l.cat, l.next, name, parent, pf);
    FindFindsFirst(l.cat, l.next, name, parent, l.pos, pf);
  }

  lemma FindFindsFirst(c: Cat, next: nat, name: string, parent: nat, i: nat, pf: Platform)
    requires WellFormed(c, next) && Coherent(c, pf) && parent < |c|
    requires i < |c| && c[i].up == parent && c[i].name == name
    ensures Find(c, next, name, parent, pf) == Lookup(c, next, i)
  {
    assert c[ROOT_PARENT].up != parent;
  }

  /** Exchanging IDs concerns neither names nor parents. */
  lemma ExchangeKeepsCoherent(c: Cat, i: nat, j: nat, pf: Platform)
    requires Coherent(c, pf) && i < |c| && j < |c|
    ensures Coherent(Exchange(c, i, j), pf)
  {
  }

  /** Guest names are stored in 31 characters. A guest lookup finds its item again exactly when
      the name fits; a longer name makes a new item every time. */
  lemma GuestLookupRepeatsIff(c: Cat, next: nat, guest: string, parent: nat, pf: Platform)
    requires WellFormed(c, next) && parent < |c|
    requires forall i :: 0 <= i < |c| ==> |c[i].guestName| <= MAX_GUEST_NAME
    ensures var l := FindGuest(c, next, guest, parent, pf);
      FindGuest(l.cat, l.next, guest, parent, pf) == Lookup(l.cat, l.next, l.pos) <==> |guest| <= MAX_GUEST_NAME
  {
    var l := FindGuest(c, next, guest, parent, pf);
    assert c[ROOT_PARENT].up != parent;
    if |guest| > MAX_GUEST_NAME {
      assert FindGuestFrom(c, guest, parent, 0).None?;
      assert FindGuestFrom(l.cat, guest, parent, 0).None?;
    } else {
      var again := FindGuestFrom(l.cat, guest, parent, 0);
      assert l.cat[l.pos].up == parent && l.cat[l.pos].guestName == guest;
    }
  }

  // ------------------------------------------------------------- coherence over runs

  /** Stored guest names have at most 31 characters. */
  predicate GuestNamesFit(c: Cat) {
    forall i :: 0 <= i < |c| ==> |c[i].guestName| <= MAX_GUEST_NAME
  }

  /** The names an operation mentions fit. */
  predicate NamesFit(op: Op, pf: Platform) {
    match op
    case OpFind(name, _) => |pf.encode(name)| <= MAX_GUEST_NAME
    case OpResolve(_, guest) => |guest| <= MAX_GUEST_NAME
    case OpRename(_, oldName, newName, _, _) => |oldName| <= MAX_GUEST_NAME && |newName| <= MAX_GUEST_NAME
    case OpMove(_, oldName, _, newDirName, _, _) => |oldName| <= MAX_GUEST_NAME && |newDirName| <= MAX_GUEST_NAME
  }

  /** Items keep their places, names and parents; new ones come behind. */
  predicate Grows(c: Cat, c': Cat) {
    |c| <= |c'| && forall i :: 0 <= i < |c| ==>
      c'[i].up == c[i].up && c'[i].name == c[i].name && c'[i].guestName == c[i].guestName
  }

  /** What an operation keeps for the two keys. */
  ghost predicate Keeps(c: Cat, c': Cat, pf: Platform) {
    Grows(c, c') && Coherent(c', pf) && GuestNamesFit(c')
  }

  lemma FindKeeps(c: Cat, next: nat, name: string, parent: nat, pf: Platform)
    requires WellFormed(c, next) && Inverse(pf) && Coherent(c, pf) && GuestNamesFit(c) && parent < |c|
    requires |pf.encode(name)| <= MAX_GUEST_NAME
    ensures Keeps(c, Find(c, next, name, parent, pf).cat, pf)
  {
    FindKeepsCoherent(c, next, name, parent, pf);
  }

  lemma ResolveKeeps(c: Cat, next: nat, dirId: nat, guest: string, pf: Platform)
    requires WellFormed(c, next) && Inverse(pf) && Coherent(c, pf) && GuestNamesFit(c) && |guest| <= MAX_GUEST_NAME
    ensures Keeps(c, Resolve(c, next, dirId, guest, pf).cat, pf)
  {
    hide Coherent, WellFormed;
    match FindId(c, dirId)
    case None =>
    case Some(p) =>
      if guest != "" {
        assert pf.encode(pf.decode(guest)) == guest;
        LookupsAgree(c, next, pf.decode(guest), p, pf);
        FindKeeps(c, next, pf.decode(guest), p, pf);
      }
  }

  lemma ExchangeKeeps(c: Cat, i: nat, j: nat, pf: Platform)
    requires Coherent(c, pf) && GuestNamesFit(c) && i < |c| && j < |c|
    ensures Keeps(c, Exchange(c, i, j), pf)
  {
    ExchangeKeepsCoherent(c, i, j, pf);
  }

  lemma GrowsTrans(a: Cat, b: Cat, c: Cat)
    requires Grows(a, b) && Grows(b, c)
    ensures Grows(a, c)
  {
  }

  lemma RenameKeeps(c: Cat, next: nat, dirId: nat, oldName: string, newName: string, h: Host, failure: int,
                    pf: Platform)
    requires WellFormed(c, next) && Inverse(pf) && Coherent(c, pf) && GuestNamesFit(c)
    requires |oldName| <= MAX_GUEST_NAME && |newName| <= MAX_GUEST_NAME
    ensures Keeps(c, Rename(c, next, dirId, oldName, newName, h, failure, pf).cat, pf)
  {
    hide WellFormed, Coherent, GuestNamesFit, Grows, Resolve, Exchange, Path, Inverse;
    ResolveKeeps(c, next, dirId, oldName, pf);
    ResolveKeepsWellFormed(c, next, dirId, oldName, pf);
    var r1 := Resolve(c, next, dirId, oldName, pf);
    if r1.item.Some? {
      ResolveKeeps(r1.cat, r1.next, dirId, newName, pf);
      ResolveKeepsWellFormed(r1.cat, r1.next, dirId, newName, pf);
      var r2 := Resolve(r1.cat, r1.next, dirId, newName, pf);
      GrowsTrans(c, r1.cat, r2.cat);
      if r2.item.Some? {
        PrefixLength(r1.cat, r2.cat);
        ExchangeKeeps(r2.cat, r1.item.value, r2.item.value, pf);
        GrowsTrans(c, r2.cat, Exchange(r2.cat, r1.item.value, r2.item.value));
      }
    }
  }

  lemma PrefixLength(a: Cat, b: Cat)
    requires a <= b
    ensures |a| <= |b|
  {
  }

  lemma MoveKeeps(c: Cat, next: nat, dirId: nat, oldName: string, newDirId: nat, newDirName: string,
                  h: Host, failure: int, pf: Platform)
    requires WellFormed(c, next) && Inverse(pf) && Coherent(c, pf) && GuestNamesFit(c) && Sane(h, pf)
    requires |oldName| <= MAX_GUEST_NAME && |newDirName| <= MAX_GUEST_NAME
    ensures Keeps(c, CatMove(c, next, dirId, oldName, newDirId, newDirName, h, failure, pf).cat, pf)
  {
    hide WellFormed, Coherent, GuestNamesFit, Grows, Resolve, Find, Exchange, Path, Inverse;
    ResolveKeeps(c, next, dirId, oldName, pf);
    ResolveKeepsWellFormed(c, next, dirId, oldName, pf);
    var r1 := Resolve(c, next, dirId, oldName, pf);
    if r1.item.Some? {
      ResolveKeeps(r1.cat, r1.next, newDirId, newDirName, pf);
      ResolveKeepsWellFormed(r1.cat, r1.next, newDirId, newDirName, pf);
      var r2 := Resolve(r1.cat, r1.next, newDirId, newDirName, pf);
      GrowsTrans(c, r1.cat, r2.cat);
      if r2.item.Some? {
        var i, d := r1.item.value, r2.item.value;
        var newPath := pf.join(Path(r2.cat, d, pf), r2.cat[i].name);
        if !h.present(newPath) && h.rename(Path(r1.cat, i, pf), newPath) {
          MovedIsOrdinary(r1.cat, i, newPath, h, pf);
          StoredNameFits(r2.cat, i, pf);
          var l := Find(r2.cat, r2.next, r2.cat[i].name, d, pf);
          FindKeeps(r2.cat, r2.next, r2.cat[i].name, d, pf);
          LookupsKeepWellFormed(r2.cat, r2.next, r2.cat[i].name, d, pf);
          PrefixLength(r2.cat, l.cat);
          ExchangeKeeps(l.cat, i, l.pos, pf);
          GrowsTrans(c, r2.cat, l.cat);
          GrowsTrans(c, l.cat, Exchange(l.cat, i, l.pos));
        }
      }
    }
  }

  lemma MovedIsOrdinary(c: Cat, i: nat, newPath: string, h: Host, pf: Platform)
    requires Rooted(c) && i < |c| && Sane(h, pf) && h.rename(Path(c, i, pf), newPath)
    ensures i > 0
  {
  }

  lemma StoredNameFits(c: Cat, i: nat, pf: Platform)
    requires Coherent(c, pf) && GuestNamesFit(c) && 0 < i < |c|
    ensures |pf.encode(c[i].name)| <= MAX_GUEST_NAME
  {
  }

  lemma ApplyKeeps(c: Cat, next: nat, op: Op, pf: Platform)
    requires WellFormed(c, next) && Inverse(pf) && Coherent(c, pf) && GuestNamesFit(c)
    requires Allowed(c, next, op, pf) && NamesFit(op, pf)
    ensures Keeps(c, Apply(c, next, op, pf).0, pf)
  {
    hide WellFormed, Coherent, GuestNamesFit, Grows, Resolve, Find, Rename, CatMove, OntoRoot, Inverse;
    match op
    case OpFind(name, parent) => FindKeeps(c, next, name, parent, pf);
    case OpResolve(dirId, guest) => ResolveKeeps(c, next, dirId, guest, pf);
    case OpRename(dirId, oldName, newName, host, failure) =>
      RenameKeeps(c, next, dirId, oldName, newName, host, failure, pf);
    case OpMove(dirId, oldName, newDirId, newDirName, host, failure) =>
      MoveKeeps(c, next, dirId, oldName, newDirId, newDirName, host, failure, pf);
  }

  /** Every run of allowed operations with names that fit keeps the two keys coherent, and every
      item in its place with its names. */
  lemma {:induction false} EveryRunKeepsCoherent(c: Cat, next: nat, ops: seq<Op>, pf: Platform)
    requires WellFormed(c, next) && Inverse(pf) && Coherent(c, pf) && GuestNamesFit(c)
    requires AllowedRun(c, next, ops, pf) && forall op :: op in ops ==> NamesFit(op, pf)
    ensures Keeps(c, After(c, next, ops, pf).0, pf)
    decreases |ops|
  {
    hide WellFormed, Coherent, GuestNamesFit, Grows, Allowed, Apply, NamesFit, Inverse;
    if ops == [] {
      GrowsSelf(c);
    } else {
      var front := ops[..|ops| - 1];
      EveryRunKeepsCoherent(c, next, front, pf);
      EveryRunKeepsInvariant(c, next, front, pf);
      var s := After(c, next, front, pf);
      ApplyKeeps(s.0, s.1, ops[|ops| - 1], pf);
      GrowsTrans(c, s.0, Apply(s.0, s.1, ops[|ops| - 1], pf).0);
    }
  }

  lemma GrowsSelf(c: Cat)
    ensures Grows(c, c)
  {
  }

  lemma InitialIsCoherent(pf: Platform, volumeName: string)
    requires |pf.encode(volumeName)| <= MAX_GUEST_NAME
    ensures Coherent(Initial(pf, volumeName), pf) && GuestNamesFit(Initial(pf, volumeName))
  {
  }

  /** In every state a run from the start leads to, both keys are unique within a directory. */
  lemma ReachableIsCoherent(ops: seq<Op>, pf: Platform, volumeName: string)
    requires Inverse(pf) && |pf.encode(volumeName)| <= MAX_GUEST_NAME
    requires AllowedRun(Initial(pf, volumeName), FIRST_USER_CNID, ops, pf)
    requires forall op :: op in ops ==> NamesFit(op, pf)
    ensures var c := After(Initial(pf, volumeName), FIRST_USER_CNID, ops, pf).0;
      && Coherent(c, pf)
      && forall i, j :: 0 < i < j < |c| && c[i].up == c[j].up ==>
        c[i].name != c[j].name && c[i].guestName != c[j].guestName
  {
    hide Initial, After, AllowedRun, NamesFit, Inverse;
    InitialIsWellFormed(pf, volumeName);
    InitialIsCoherent(pf, volumeName);
    EveryRunKeepsCoherent(Initial(pf, volumeName), FIRST_USER_CNID, ops, pf);
    var c := After(Initial(pf, volumeName), FIRST_USER_CNID, ops, pf).0;
    forall i, j | 0 < i < j < |c| && c[i].up == c[j].up ensures c[i].guestName != c[j].guestName {
      GuestNamesUnique(c, pf, i, j);
    }
  }

  /** An item that was found once, under either key, is found again under either key after any
      allowed operations in between, and finding it does not grow the list. */
  lemma FoundAgainAfterRun(c: Cat, next: nat, name: string, parent: nat, ops: seq<Op>, pf: Platform)
    requires WellFormed(c, next) && Inverse(pf) && Coherent(c, pf) && GuestNamesFit(c) && parent < |c|
    requires |pf.encode(name)| <= MAX_GUEST_NAME && forall op :: op in ops ==> NamesFit(op, pf)
    requires var l := Find(c, next, name, parent, pf); AllowedRun(l.cat, l.next, ops, pf)
    ensures var l := Find(c, next, name, parent, pf);
      var (c', next') := After(l.cat, l.next, ops, pf);
      && l == FindGuest(c, next, pf.encode(name), parent, pf)
      && parent < |c'|
      && Find(c', next', name, parent, pf) == Lookup(c', next', l.pos)
      && FindGuest(c', next', pf.encode(name), parent, pf) == Lookup(c', next', l.pos)
  {
    hide WellFormed, Coherent, GuestNamesFit, AllowedRun, After, NamesFit, Inverse;
    var l := Find(c, next, name, parent, pf);
    LookupsAgree(c, next, name, parent, pf);
    LookupsKeepWellFormed(c, next, name, parent, pf);
    FindKeeps(c, next, name, parent, pf);
    EveryRunKeepsInvariant(l.cat, l.next, ops, pf);
    EveryRunKeepsCoherent(l.cat, l.next, ops, pf);
    var (c', next') := After(l.cat, l.next, ops, pf);
    FindFindsFirst(c', next', name, parent, l.pos, pf);
    LookupsAgree(c', next', name, parent, pf);
  }
}
