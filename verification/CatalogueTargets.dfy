/** Which object a directory ID and a guest name stand for, and what renaming and moving do to that
    object, in terms of the catalogue before the call. */
module CatalogueTargets {
  import opened Options
  import opened Catalogue
  import opened CatalogueNames

  /** Item k is the object: the directory itself for an empty name, otherwise the entry of that name
      whose recorded parent is the directory. */
  predicate Stands(c: Cat, k: int, dirId: nat, guest: string, pf: Platform) {
    && 0 <= k < |c|
    && if guest == "" then c[k].id == dirId else k > 0 && c[k].parentId == dirId && c[k].name == pf.decode(guest)
  }

  /** The path of the object; the volume's own name below the root's parent is the root. */
  function TargetPath(c: Cat, dirId: nat, guest: string, pf: Platform): Option<string>
    requires Rooted(c) && |c| > ROOT
  {
    match PathOfId(c, dirId, pf)
    case None => None
    case Some(dir) => Some(
      if guest == "" then dir
      else if dirId == ROOT_PARENT_ID && pf.decode(guest) == c[ROOT].name then pf.rootPath
      else pf.join(dir, pf.decode(guest)))
  }

  /** A catalogue whose two keys agree. */
  ghost predicate Sound(c: Cat, next: nat, pf: Platform) {
    WellFormed(c, next) && Coherent(c, pf)
  }

  lemma ParentIsDirectory(c: Cat, next: nat, k: nat, p: nat)
    requires WellFormed(c, next) && 0 < k < |c| && p < |c|
    ensures c[k].parentId == c[p].id <==> c[k].up == p
  {
    assert ParentOk(c, k);
  }

  /** No two items stand for the same name. */
  lemma StandsUnique(c: Cat, next: nat, i: nat, k: nat, dirId: nat, guest: string, pf: Platform)
    requires Sound(c, next, pf) && Stands(c, i, dirId, guest, pf) && Stands(c, k, dirId, guest, pf)
    ensures i == k
  {
    if guest != "" {
      assert ParentOk(c, i) && ParentOk(c, k);
      ParentIsDirectory(c, next, k, c[i].up);
    }
  }

  lemma StandsInFront(c: Cat, c': Cat, k: nat, dirId: nat, guest: string, pf: Platform)
    requires c <= c' && k < |c|
    ensures Stands(c', k, dirId, guest, pf) == Stands(c, k, dirId, guest, pf)
  {
  }

  /** The path of the item that stands for a name. */
  lemma StandsPath(c: Cat, next: nat, i: nat, dirId: nat, guest: string, pf: Platform)
    requires Sound(c, next, pf) && Rooted(c) && Stands(c, i, dirId, guest, pf)
    ensures TargetPath(c, dirId, guest, pf) == Some(Path(c, i, pf))
  {
    hide Path;
    if guest == "" {
      IdIsUnique(c, next, i);
    } else if i > ROOT {
      ParentIdNamesDirectory(c, next, i, pf);
      ParentIsDirectory(c, next, i, ROOT_PARENT);
      ParentIsDirectory(c, next, ROOT, ROOT_PARENT);
    } else {
      assert ParentOk(c, ROOT);
      IdIsUnique(c, next, ROOT_PARENT);
      RootPath(c, pf);
    }
  }

  lemma RootPath(c: Cat, pf: Platform)
    requires Rooted(c) && |c| > ROOT && c[ROOT].id == ROOT_ID
    ensures Path(c, ROOT, pf) == pf.rootPath
  {
  }

  lemma TargetPathExtends(c: Cat, next: nat, c': Cat, next': nat, dirId: nat, guest: string, pf: Platform)
    requires WellFormed(c, next) && WellFormed(c', next') && c <= c' && FindId(c, dirId).Some?
    ensures Rooted(c) && Rooted(c') && TargetPath(c', dirId, guest, pf) == TargetPath(c, dirId, guest, pf)
  {
    hide Path;
    ExtensionKeepsIds(c, next, c', next', dirId, pf);
  }

  /** Every allowed run with names that fit leads from the initial volume to such a catalogue. */
  lemma ReachableIsSound(ops: seq<Op>, pf: Platform, volumeName: string)
    requires Inverse(pf) && |pf.encode(volumeName)| <= MAX_GUEST_NAME
    requires AllowedRun(Initial(pf, volumeName), FIRST_USER_CNID, ops, pf)
    requires forall op :: op in ops ==> NamesFit(op, pf)
    ensures var (c, next) := After(Initial(pf, volumeName), FIRST_USER_CNID, ops, pf); Sound(c, next, pf)
  {
    hide WellFormed, Coherent, Initial, After, AllowedRun, NamesFit, Inverse;
    InitialIsWellFormed(pf, volumeName);
    EveryRunKeepsInvariant(Initial(pf, volumeName), FIRST_USER_CNID, ops, pf);
    ReachableIsCoherent(ops, pf, volumeName);
  }

  // ------------------------------------------------------------- lookups

  /** A lookup finds the object the directory ID and the name stand for, with the path the catalogue
      before the call gives to it; it fails only for an unknown directory ID. */
  lemma ResolveFindsTarget(c: Cat, next: nat, dirId: nat, guest: string, pf: Platform)
    requires Sound(c, next, pf) && Inverse(pf) && |guest| <= MAX_GUEST_NAME
    ensures var r := Resolve(c, next, dirId, guest, pf);
      && Sound(r.cat, r.next, pf) && c <= r.cat && Rooted(c) && Rooted(r.cat) && |c| > ROOT
      && (r.item.None? <==> forall k :: 0 <= k < |c| ==> c[k].id != dirId)
      && match r.item
         case None => r.cat == c && TargetPath(c, dirId, guest, pf) == None
         case Some(i) => i < |r.cat| && Stands(r.cat, i, dirId, guest, pf)
                         && TargetPath(c, dirId, guest, pf) == Some(Path(r.cat, i, pf))
  {
    hide Path, Rooted;
    WellFormedIsRooted(c, next);
    ResolveKeepsWellFormed(c, next, dirId, guest, pf);
    var r := Resolve(c, next, dirId, guest, pf);
    if FindId(c, dirId).Some? {
      var p := FindId(c, dirId).value;
      if guest != "" {
        FindKeepsCoherent(c, next, pf.decode(guest), p, pf);
        FoundByGuest(c, next, guest, p, pf);
        ParentIsDirectory(r.cat, r.next, r.item.value, p);
      }
      StandsPath(r.cat, r.next, r.item.value, dirId, guest, pf);
      TargetPathExtends(c, next, r.cat, r.next, dirId, guest, pf);
    }
  }

  lemma FoundByGuest(c: Cat, next: nat, guest: string, parent: nat, pf: Platform)
    requires WellFormed(c, next) && Coherent(c, pf) && Inverse(pf) && parent < |c|
    ensures var l := FindGuest(c, next, guest, parent, pf);
      0 < l.pos < |l.cat| && l.cat[l.pos].up == parent && l.cat[l.pos].name == pf.decode(guest)
  {
    assert c[ROOT_PARENT].up != parent;
  }

  // ------------------------------------------------------------- renaming

  /** The code of an operation that asks the host to rename one path to another. */
  function CodeFor(from: Option<string>, to: Option<string>, h: Host, failure: int): int {
    if from.None? || to.None? then DIR_NF_ERR
    else if h.present(to.value) then DUP_FN_ERR
    else if !h.rename(from.value, to.value) then failure
    else NO_ERR
  }

  /** What a rename does, told by the catalogue before it: the host is asked for exactly the two
      names' paths below the directory, and when it agrees the CNID of the object with the old name
      resolves to the new path, that of an object with the new name (gone from the host) to the old
      one, and every other known CNID to what it did. */
  lemma RenameConcernsTarget(c: Cat, next: nat, dirId: nat, oldName: string, newName: string, h: Host, failure: int,
                             pf: Platform)
    requires Sound(c, next, pf) && Inverse(pf) && Sane(h, pf) && failure != NO_ERR
    requires |oldName| <= MAX_GUEST_NAME && |newName| <= MAX_GUEST_NAME
    ensures var o := Rename(c, next, dirId, oldName, newName, h, failure, pf);
      && Rooted(c) && Rooted(o.cat)
      && var (from, to) := (TargetPath(c, dirId, oldName, pf), TargetPath(c, dirId, newName, pf));
         && o.code == CodeFor(from, to, h, failure)
         && (o.code == NO_ERR ==>
               && (exists id :: PathOfId(o.cat, id, pf) == to)
               && forall k :: 0 <= k < |c| ==>
                    && PathOfId(o.cat, c[k].id, pf) ==
                       if Stands(c, k, dirId, oldName, pf) then to
                       else if Stands(c, k, dirId, newName, pf) then from
                       else Some(Path(c, k, pf)))
  {
    hide WellFormed, Coherent, Rooted, Resolve, Path, PathOfId, Exchange, Transposed, TargetPath, Stands, Sane;
    var o := Rename(c, next, dirId, oldName, newName, h, failure, pf);
    RenameTransposes(c, next, dirId, oldName, newName, h, failure, pf);
    WellFormedIsRooted(c, next);
    WellFormedIsRooted(o.cat, o.next);
    ResolveFindsTarget(c, next, dirId, oldName, pf);
    var r1 := Resolve(c, next, dirId, oldName, pf);
    if r1.item.Some? {
      ResolveFindsTarget(r1.cat, r1.next, dirId, newName, pf);
      var r2 := Resolve(r1.cat, r1.next, dirId, newName, pf);
      SameDirectory(c, next, r1.cat, r1.next, dirId, newName, pf);
      var i, j := r1.item.value, r2.item.value;
      ExtensionKeepsPath(r1.cat, r2.cat, i, pf);
      StandsInFront(r1.cat, r2.cat, i, dirId, oldName, pf);
      if o.code == NO_ERR {
        SwappedIds(c, next, r2.cat, r2.next, i, j, o.cat, pf);
        forall k | 0 <= k < |c|
          ensures k == i <==> Stands(c, k, dirId, oldName, pf)
          ensures k == j <==> Stands(c, k, dirId, newName, pf)
        {
          OnlyItem(c, r2.cat, r2.next, k, i, dirId, oldName, pf);
          OnlyItem(c, r2.cat, r2.next, k, j, dirId, newName, pf);
        }
      }
    }
  }

  lemma SameDirectory(c: Cat, next: nat, c': Cat, next': nat, dirId: nat, guest: string, pf: Platform)
    requires WellFormed(c, next) && WellFormed(c', next') && c <= c' && exists k :: 0 <= k < |c| && c[k].id == dirId
    ensures exists k :: 0 <= k < |c'| && c'[k].id == dirId
    ensures Rooted(c) && Rooted(c') && TargetPath(c', dirId, guest, pf) == TargetPath(c, dirId, guest, pf)
  {
    hide WellFormed, TargetPath;
    var k :| 0 <= k < |c| && c[k].id == dirId;
    assert c'[k].id == dirId;
    assert FindId(c, dirId).Some?;
    TargetPathExtends(c, next, c', next', dirId, guest, pf);
  }

  /** The item found for a name is the one that stood for it, if there was one. */
  lemma OnlyItem(c: Cat, c': Cat, next': nat, k: nat, i: nat, dirId: nat, guest: string, pf: Platform)
    requires c <= c' && Sound(c', next', pf) && k < |c| && i < |c'| && Stands(c', i, dirId, guest, pf)
    ensures k == i <==> Stands(c, k, dirId, guest, pf)
  {
    hide WellFormed, Coherent, Stands;
    StandsInFront(c, c', k, dirId, guest, pf);
    if Stands(c, k, dirId, guest, pf) {
      StandsUnique(c', next', i, k, dirId, guest, pf);
    }
  }

  /** A transposition seen from the CNIDs known before. */
  lemma SwappedIds(c: Cat, next: nat, c1: Cat, next1: nat, i: nat, j: nat, c2: Cat, pf: Platform)
    requires WellFormed(c, next) && WellFormed(c1, next1) && c <= c1 && Transposed(c1, i, j, c2, pf)
    ensures Rooted(c) && Rooted(c1) && Rooted(c2) && i < |c1| && j < |c1|
    ensures exists id :: PathOfId(c2, id, pf) == Some(Path(c1, j, pf))
    ensures forall k :: 0 <= k < |c| ==>
      PathOfId(c2, c[k].id, pf) ==
      Some(if k == i then Path(c1, j, pf) else if k == j then Path(c1, i, pf) else Path(c, k, pf))
  {
    hide WellFormed, Rooted, Path, PathOfId;
    WellFormedIsRooted(c, next);
    forall k | 0 <= k < |c|
      ensures PathOfId(c2, c[k].id, pf) ==
        Some(if k == i then Path(c1, j, pf) else if k == j then Path(c1, i, pf) else Path(c, k, pf))
    {
      assert c1[k] == c[k];
      KnownPath(c1, next1, k, pf);
      ExtensionKeepsPath(c, c1, k, pf);
      DistinctIds(c1, next1, k, i);
      DistinctIds(c1, next1, k, j);
    }
  }

  lemma KnownPath(c: Cat, next: nat, k: nat, pf: Platform)
    requires WellFormed(c, next) && Rooted(c) && k < |c|
    ensures PathOfId(c, c[k].id, pf) == Some(Path(c, k, pf))
  {
    hide Path;
    IdIsUnique(c, next, k);
  }

  lemma DistinctIds(c: Cat, next: nat, i: nat, j: nat)
    requires WellFormed(c, next) && i < |c| && j < |c|
    ensures c[i].id == c[j].id <==> i == j
  {
  }

  // ------------------------------------------------------------- moving

  /** The name an object keeps when it is moved. */
  function ObjectName(c: Cat, dirId: nat, guest: string, pf: Platform): string {
    if guest != "" then pf.decode(guest)
    else match FindId(c, dirId) case None => "" case Some(i) => c[i].name
  }

  /** Item k has the given name in the directory that a directory ID and a guest name stand for. */
  predicate LiesIn(c: Cat, k: nat, dirId: nat, guest: string, name: string, pf: Platform) {
    0 < k < |c| && c[k].name == name && Stands(c, c[k].up, dirId, guest, pf)
  }

  /** The move goes into the root's parent, under the volume's own name. */
  predicate IntoRootParent(c: Cat, newDirId: nat, newDirName: string, name: string)
    requires |c| > ROOT
  {
    newDirId == ROOT_PARENT_ID && newDirName == "" && name == c[ROOT].name
  }

  /** The lookup of the object hands out at most one new CNID. */
  lemma KnownDirectory(c: Cat, next: nat, dirId: nat, oldName: string, newDirId: nat, newDirName: string, pf: Platform)
    requires WellFormed(c, next) && newDirId != next
    ensures var c1 := Resolve(c, next, dirId, oldName, pf).cat;
      Rooted(c) && Rooted(c1) && |c1| > ROOT &&
      TargetPath(c1, newDirId, newDirName, pf) == TargetPath(c, newDirId, newDirName, pf)
  {
    hide Path;
    ResolveKeepsWellFormed(c, next, dirId, oldName, pf);
    WellFormedIsRooted(c, next);
    var r := Resolve(c, next, dirId, oldName, pf);
    if FindId(c, newDirId).Some? {
      TargetPathExtends(c, next, r.cat, r.next, newDirId, newDirName, pf);
    } else {
      assert r.cat == c || r.cat == c + [r.cat[|c|]];
      assert FindId(r.cat, newDirId).None?;
    }
  }

  lemma SameName(c: Cat, next: nat, c1: Cat, next1: nat, i: nat, dirId: nat, guest: string, pf: Platform)
    requires WellFormed(c, next) && WellFormed(c1, next1) && c <= c1 && Stands(c1, i, dirId, guest, pf)
    requires exists k :: 0 <= k < |c| && c[k].id == dirId
    ensures c1[i].name == ObjectName(c, dirId, guest, pf)
  {
    var k :| 0 <= k < |c| && c[k].id == dirId;
    IdIsUnique(c, next, k);
    DistinctIds(c1, next1, k, i);
    assert c1[k] == c[k];
  }

  lemma NotOntoRoot(c: Cat, next: nat, c2: Cat, next2: nat, d: nat, newDirId: nat, newDirName: string, name: string,
                    pf: Platform)
    requires WellFormed(c, next) && WellFormed(c2, next2) && c <= c2 && Stands(c2, d, newDirId, newDirName, pf)
    requires !IntoRootParent(c, newDirId, newDirName, name)
    ensures !OntoRoot(c2, d, name)
  {
    assert c2[ROOT] == c[ROOT];
  }

  /** The moved object's new place. */
  lemma NewPlace(c1: Cat, c2: Cat, next2: nat, d: nat, newDirId: nat, newDirName: string, name: string, pf: Platform)
    requires Sound(c2, next2, pf) && Rooted(c2) && c1 <= c2 && Stands(c2, d, newDirId, newDirName, pf)
    requires !OntoRoot(c2, d, name)
    ensures var l := Find(c2, next2, name, d, pf);
      && WellFormed(l.cat, l.next) && Rooted(l.cat) && c2 <= l.cat && l.pos < |l.cat|
      && Path(l.cat, l.pos, pf) == pf.join(Path(c2, d, pf), name)
      && forall k :: 0 <= k < |c1| ==> (k == l.pos <==> LiesIn(c1, k, newDirId, newDirName, name, pf))
  {
    hide Path;
    var l := Find(c2, next2, name, d, pf);
    LookupsKeepWellFormed(c2, next2, name, d, pf);
    WellFormedIsRooted(l.cat, l.next);
    FoundByName(c2, next2, name, d, pf);
    ChildPath(l.cat, l.next, l.pos, pf);
    ExtensionKeepsPath(c2, l.cat, d, pf);
    forall k | 0 <= k < |c1| ensures k == l.pos <==> LiesIn(c1, k, newDirId, newDirName, name, pf) {
      assert c2[k] == c1[k] == l.cat[k];
      if k == l.pos {
        assert ParentOk(c2, k);
        StandsInFront(c1, c2, d, newDirId, newDirName, pf);
      }
      if LiesIn(c1, k, newDirId, newDirName, name, pf) {
        StandsInFront(c1, c2, c1[k].up, newDirId, newDirName, pf);
        StandsUnique(c2, next2, c1[k].up, d, newDirId, newDirName, pf);
        FindFindsFirst(c2, next2, name, d, k, pf);
      }
    }
  }

  lemma FoundByName(c: Cat, next: nat, name: string, parent: nat, pf: Platform)
    requires WellFormed(c, next) && parent < |c| && !OntoRoot(c, parent, name)
    ensures var l := Find(c, next, name, parent, pf);
      ROOT < l.pos < |l.cat| && l.cat[l.pos].up == parent && l.cat[l.pos].name == name
  {
    assert c[ROOT_PARENT].up != parent;
  }

  lemma ChildPath(c: Cat, next: nat, i: nat, pf: Platform)
    requires WellFormed(c, next) && Rooted(c) && ROOT < i < |c|
    ensures Path(c, i, pf) == pf.join(Path(c, c[i].up, pf), c[i].name)
  {
    DistinctIds(c, next, i, ROOT);
    DistinctIds(c, next, i, ROOT_PARENT);
  }

  /** What a move does, told by the catalogue after the lookup of the object: the host is asked for
      the object's path and the path of its name below the new directory, and when it agrees (and the
      move does not go onto the root item) the CNID of the object resolves to the new path, that of an
      object of that name in the new directory (gone from the host) to the old one, and every other
      known CNID to what it did. */
  lemma MoveConcernsTarget(c: Cat, next: nat, dirId: nat, oldName: string, newDirId: nat, newDirName: string,
                           h: Host, failure: int, pf: Platform)
    requires Sound(c, next, pf) && Inverse(pf) && Sane(h, pf) && failure != NO_ERR
    requires |oldName| <= MAX_GUEST_NAME && |newDirName| <= MAX_GUEST_NAME
    ensures var o := CatMove(c, next, dirId, oldName, newDirId, newDirName, h, failure, pf);
      var c1 := Resolve(c, next, dirId, oldName, pf).cat;
      && c <= c1 && Rooted(c) && Rooted(c1)
      && (newDirId != next ==> TargetPath(c1, newDirId, newDirName, pf) == TargetPath(c, newDirId, newDirName, pf))
      && var (from, dir) := (TargetPath(c, dirId, oldName, pf), TargetPath(c1, newDirId, newDirName, pf));
         var name := ObjectName(c, dirId, oldName, pf);
         var to := if dir.None? then None else Some(pf.join(dir.value, name));
         && o.code == CodeFor(from, to, h, failure)
         && (o.code == NO_ERR && !IntoRootParent(c, newDirId, newDirName, name) ==>
               && Rooted(o.cat) && (exists id :: PathOfId(o.cat, id, pf) == to)
               && forall k :: 0 <= k < |c1| ==>
                    && PathOfId(o.cat, c1[k].id, pf) ==
                       if Stands(c1, k, dirId, oldName, pf) then to
                       else if LiesIn(c1, k, newDirId, newDirName, name, pf) then from
                       else Some(Path(c1, k, pf)))
  {
    hide WellFormed, Coherent, Rooted, Resolve, Path, PathOfId, Exchange, Transposed, TargetPath, Stands, Sane;
    hide Find, LiesIn, ObjectName, IntoRootParent;
    var o := CatMove(c, next, dirId, oldName, newDirId, newDirName, h, failure, pf);
    MoveTransposesIff(c, next, dirId, oldName, newDirId, newDirName, h, failure, pf);
    WellFormedIsRooted(c, next);
    ResolveFindsTarget(c, next, dirId, oldName, pf);
    var r1 := Resolve(c, next, dirId, oldName, pf);
    if newDirId != next {
      KnownDirectory(c, next, dirId, oldName, newDirId, newDirName, pf);
    }
    if r1.item.Some? {
      ResolveFindsTarget(r1.cat, r1.next, newDirId, newDirName, pf);
      var r2 := Resolve(r1.cat, r1.next, newDirId, newDirName, pf);
      if r2.item.Some? {
        var i, d := r1.item.value, r2.item.value;
        var name := ObjectName(c, dirId, oldName, pf);
        ExtensionKeepsPath(r1.cat, r2.cat, i, pf);
        SameName(c, next, r1.cat, r1.next, i, dirId, oldName, pf);
        assert r2.cat[i].name == r1.cat[i].name == name;
        if o.code == NO_ERR && !IntoRootParent(c, newDirId, newDirName, name) {
          NotOntoRoot(c, next, r2.cat, r2.next, d, newDirId, newDirName, name, pf);
          NewPlace(r1.cat, r2.cat, r2.next, d, newDirId, newDirName, name, pf);
          var l := Find(r2.cat, r2.next, name, d, pf);
          SwappedIds(r1.cat, r1.next, l.cat, l.next, i, l.pos, o.cat, pf);
          ExtensionKeepsPath(r2.cat, l.cat, i, pf);
          forall k | 0 <= k < |r1.cat| ensures k == i <==> Stands(r1.cat, k, dirId, oldName, pf) {
            OnlyItem(r1.cat, r1.cat, r1.next, k, i, dirId, oldName, pf);
          }
        }
      }
    }
  }
}
