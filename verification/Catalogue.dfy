/** The ExtFS catalogue as a value: the list of file system items that maps catalogue IDs (CNIDs)
    to host paths, and what renaming and moving do to that map. */
module Catalogue {
  import opened Options

  const ROOT_PARENT_ID: nat := 1
  const ROOT_ID: nat := 2
  const FIRST_USER_CNID: nat := 16
  const MAX_GUEST_NAME: nat := 31

  /** The list positions of the two items that are there from the start. */
  const ROOT_PARENT: nat := 0
  const ROOT: nat := 1

  /** One list element; `up` is the list position its parent pointer leads to (-1 for none). */
  datatype Item = Item(id: nat, parentId: nat, up: int, name: string, guestName: string)

  type Cat = seq<Item>

  /** What the platform supplies: the conversions between host and guest names, the operation that
      appends a component to a path, and the path of the root directory. */
  datatype Platform = Platform(
    encode: string -> string, decode: string -> string, join: (string, string) -> string, rootPath: string)

  predicate ParentOk(c: Cat, i: nat)
    requires 0 < i < |c|
  {
    0 <= c[i].up < i && c[i].parentId == c[c[i].up].id
  }

  /** The catalogue invariant: IDs are distinct and handed out in order, every item but the first
      has its parent before it in the list and records that parent's ID, and the first two items
      are the root's parent and the root. */
  predicate WellFormed(c: Cat, nextCnid: nat) {
    && |c| >= 2 && nextCnid >= FIRST_USER_CNID
    && c[ROOT_PARENT].id == ROOT_PARENT_ID && c[ROOT_PARENT].parentId == 0 && c[ROOT_PARENT].up == -1
    && c[ROOT].id == ROOT_ID && c[ROOT].up == ROOT_PARENT
    && (forall i :: 0 <= i < |c| ==> 0 < c[i].id < nextCnid)
    && (forall i, j :: 0 <= i < j < |c| ==> c[i].id != c[j].id)
    && (forall i :: 0 < i < |c| ==> ParentOk(c, i))
  }

  /** What get_path_for_fsitem needs in order to stop: the root's parent ends every chain. */
  predicate Rooted(c: Cat) {
    && |c| > 0 && c[0].id == ROOT_PARENT_ID
    && forall i :: 0 < i < |c| ==> 0 <= c[i].up < i
  }

  function Path(c: Cat, i: nat, pf: Platform): string
    requires Rooted(c) && i < |c|
  {
    if c[i].id == ROOT_PARENT_ID then ""
    else if c[i].id == ROOT_ID then pf.rootPath
    else pf.join(Path(c, c[i].up, pf), c[i].name)
  }

  // ------------------------------------------------------------- lookups

  /** Position of the first item, from k on, with the given CNID. */
  function FindIdFrom(c: Cat, cnid: nat, k: nat): (r: Option<nat>)
    ensures r.Some? ==> k <= r.value < |c| && c[r.value].id == cnid
    ensures r.Some? ==> forall i :: k <= i < r.value ==> c[i].id != cnid
    ensures r.None? ==> forall i :: k <= i < |c| ==> c[i].id != cnid
    decreases |c| - k
  {
    if k >= |c| then None else if c[k].id == cnid then Some(k) else FindIdFrom(c, cnid, k + 1)
  }

  function FindId(c: Cat, cnid: nat): Option<nat> {
    FindIdFrom(c, cnid, 0)
  }

  /** The path a CNID resolves to. */
  function PathOfId(c: Cat, cnid: nat, pf: Platform): Option<string>
    requires Rooted(c)
  {
    match FindId(c, cnid)
    case None => None
    case Some(i) => Some(Path(c, i, pf))
  }

  function FindNameFrom(c: Cat, name: string, parent: nat, k: nat): (r: Option<nat>)
    ensures r.Some? ==> k <= r.value < |c| && c[r.value].up == parent && c[r.value].name == name
    ensures r.Some? ==> forall i :: k <= i < r.value ==> !(c[i].up == parent && c[i].name == name)
    ensures r.None? ==> forall i :: k <= i < |c| ==> !(c[i].up == parent && c[i].name == name)
    decreases |c| - k
  {
    if k >= |c| then None
    else if c[k].up == parent && c[k].name == name then Some(k)
    else FindNameFrom(c, name, parent, k + 1)
  }

  function FindGuestFrom(c: Cat, guest: string, parent: nat, k: nat): (r: Option<nat>)
    ensures r.Some? ==> k <= r.value < |c| && c[r.value].up == parent && c[r.value].guestName == guest
    ensures r.Some? ==> forall i :: k <= i < r.value ==> !(c[i].up == parent && c[i].guestName == guest)
    ensures r.None? ==> forall i :: k <= i < |c| ==> !(c[i].up == parent && c[i].guestName == guest)
    decreases |c| - k
  {
    if k >= |c| then None
    else if c[k].up == parent && c[k].guestName == guest then Some(k)
    else FindGuestFrom(c, guest, parent, k + 1)
  }

  function Truncate(guest: string): (r: string)
    ensures |r| <= MAX_GUEST_NAME
    ensures |guest| <= MAX_GUEST_NAME ==> r == guest
  {
    if |guest| <= MAX_GUEST_NAME then guest else guest[..MAX_GUEST_NAME]
  }

  function NewItem(c: Cat, nextCnid: nat, name: string, guest: string, parent: nat): Item
    requires parent < |c|
  {
    Item(nextCnid, c[parent].id, parent, name, Truncate(guest))
  }

  /** Result of a lookup that may append an item: the catalogue, the counter, the position found. */
  datatype Lookup = Lookup(cat: Cat, next: nat, pos: nat)

  function Find(c: Cat, next: nat, name: string, parent: nat, pf: Platform): Lookup
    requires parent < |c|
  {
    match FindNameFrom(c, name, parent, 0)
    case Some(i) => Lookup(c, next, i)
    case None => Lookup(c + [NewItem(c, next, name, pf.encode(name), parent)], next + 1, |c|)
  }

  function FindGuest(c: Cat, next: nat, guest: string, parent: nat, pf: Platform): Lookup
    requires parent < |c|
  {
    match FindGuestFrom(c, guest, parent, 0)
    case Some(i) => Lookup(c, next, i)
    case None => Lookup(c + [NewItem(c, next, pf.decode(guest), guest, parent)], next + 1, |c|)
  }

  lemma AppendKeepsWellFormed(c: Cat, next: nat, item: Item)
    requires WellFormed(c, next)
    requires item.id == next && 0 <= item.up < |c| && item.parentId == c[item.up].id
    ensures WellFormed(c + [item], next + 1)
  {
    var c' := c + [item];
    forall i | 0 < i < |c'| ensures ParentOk(c', i) {
      if i < |c| {
        assert ParentOk(c, i);
      }
    }
  }

  /** Appending never changes the path of an item that was there. */
  lemma {:induction false} AppendKeepsPath(c: Cat, item: Item, i: nat, pf: Platform)
    requires Rooted(c) && i < |c| && 0 <= item.up < |c|
    ensures Rooted(c + [item]) && Path(c + [item], i, pf) == Path(c, i, pf)
    decreases i
  {
    if c[i].id != ROOT_PARENT_ID && c[i].id != ROOT_ID {
      AppendKeepsPath(c, item, c[i].up, pf);
    }
  }

  /** Looking an item up, under either name, keeps the invariant and every existing path. */
  lemma LookupsKeepWellFormed(c: Cat, next: nat, name: string, parent: nat, pf: Platform)
    requires WellFormed(c, next) && parent < |c|
    ensures var l := Find(c, next, name, parent, pf); WellFormed(l.cat, l.next) && c <= l.cat && l.pos < |l.cat|
    ensures var l := FindGuest(c, next, name, parent, pf); WellFormed(l.cat, l.next) && c <= l.cat && l.pos < |l.cat|
  {
    AppendKeepsWellFormed(c, next, NewItem(c, next, name, pf.encode(name), parent));
    AppendKeepsWellFormed(c, next, NewItem(c, next, pf.decode(name), name, parent));
  }

  /** The recorded parent ID always names the item whose path is the directory part. */
  lemma ParentIdNamesDirectory(c: Cat, next: nat, i: nat, pf: Platform)
    requires WellFormed(c, next) && ROOT < i < |c|
    ensures Rooted(c)
    ensures PathOfId(c, c[i].parentId, pf).Some?
    ensures Path(c, i, pf) == pf.join(PathOfId(c, c[i].parentId, pf).value, c[i].name)
  {
    assert ParentOk(c, i);
    WellFormedIsRooted(c, next);
    IdIsUnique(c, next, c[i].up);
    assert c[ROOT].id != c[i].id && c[ROOT_PARENT].id != c[i].id;
  }

  lemma WellFormedIsRooted(c: Cat, next: nat)
    requires WellFormed(c, next)
    ensures Rooted(c)
  {
    forall i | 0 < i < |c| ensures 0 <= c[i].up < i {
      assert ParentOk(c, i);
    }
  }

  lemma IdIsUnique(c: Cat, next: nat, i: nat)
    requires WellFormed(c, next) && i < |c|
    ensures FindId(c, c[i].id) == Some(i)
  {
  }

  // ------------------------------------------------------------- exchanging two IDs

  function SwapId(x: nat, a: nat, b: nat): nat {
    if x == a then b else if x == b then a else x
  }

  /** swap_parent_ids followed by the exchange of the two items' own IDs. */
  function Exchange(c: Cat, i: nat, j: nat): (r: Cat)
    requires i < |c| && j < |c|
    ensures |r| == |c|
  {
    seq(|c|, k requires 0 <= k < |c| =>
      c[k].(id := if k == i then c[j].id else if k == j then c[i].id else c[k].id,
            parentId := SwapId(c[k].parentId, c[i].id, c[j].id)))
  }

  lemma ExchangeKeepsWellFormed(c: Cat, next: nat, i: nat, j: nat)
    requires WellFormed(c, next) && ROOT < i < |c| && ROOT < j < |c|
    ensures WellFormed(Exchange(c, i, j), next)
  {
    var c' := Exchange(c, i, j);
    forall k | 0 < k < |c| ensures ParentOk(c', k) {
      assert ParentOk(c, k);
    }
  }

  /** The items keep their paths; only the IDs move. */
  lemma {:induction false} ExchangeKeepsItemPaths(c: Cat, next: nat, i: nat, j: nat, k: nat, pf: Platform)
    requires WellFormed(c, next) && ROOT < i < |c| && ROOT < j < |c| && k < |c|
    ensures Rooted(c) && Rooted(Exchange(c, i, j))
    ensures Path(Exchange(c, i, j), k, pf) == Path(c, k, pf)
    decreases k
  {
    WellFormedIsRooted(c, next);
    ExchangeKeepsWellFormed(c, next, i, j);
    WellFormedIsRooted(Exchange(c, i, j), next);
    if k > ROOT {
      assert ParentOk(c, k);
      assert c[k].id != c[ROOT].id && c[k].id != c[ROOT_PARENT].id;
      ExchangeKeepsItemPaths(c, next, i, j, c[k].up, pf);
    }
  }

  /** The exchange is an exact transposition of the map from CNIDs to paths: each of the two IDs
      resolves to the other's old path, every other ID to what it did. */
  lemma ExchangeTransposesPaths(c: Cat, next: nat, i: nat, j: nat, cnid: nat, pf: Platform)
    requires WellFormed(c, next) && ROOT < i < |c| && ROOT < j < |c|
    ensures Rooted(c) && Rooted(Exchange(c, i, j))
    ensures PathOfId(Exchange(c, i, j), cnid, pf) == PathOfId(c, SwapId(cnid, c[i].id, c[j].id), pf)
  {
    var c', other := Exchange(c, i, j), SwapId(cnid, c[i].id, c[j].id);
    ExchangeKeepsWellFormed(c, next, i, j);
    WellFormedIsRooted(c, next);
    WellFormedIsRooted(c', next);
    match FindId(c, other)
    case None =>
      assert forall k :: 0 <= k < |c| ==> c'[k].id != cnid;
    case Some(k) =>
      assert c'[k].id == cnid;
      IdIsUnique(c', next, k);
      ExchangeKeepsItemPaths(c, next, i, j, k, pf);
  }

  // ------------------------------------------------------------- rename and move

  const NO_ERR: int := 0
  const DUP_FN_ERR: int := -48
  const DIR_NF_ERR: int := -120

  /** The host file system as an oracle: which paths exist and which renames it would perform. */
  datatype Host = Host(present: string -> bool, rename: (string, string) -> bool)

  /** A host only renames something that exists, other than the shared root directory, to a
      nonempty path that does not exist yet. */
  ghost predicate Sane(h: Host, pf: Platform) {
    && h.present(pf.rootPath)
    && forall a, b :: h.rename(a, b) ==> h.present(a) && !h.present(b) && a != pf.rootPath && a != "" && b != ""
  }

  datatype Resolved = Resolved(cat: Cat, next: nat, item: Option<nat>)

  /** The item a directory ID and a guest name stand for; an empty name is the directory itself. */
  function Resolve(c: Cat, next: nat, dirId: nat, guest: string, pf: Platform): Resolved {
    match FindId(c, dirId)
    case None => Resolved(c, next, None)
    case Some(p) =>
      if guest == "" then Resolved(c, next, Some(p)) else
      var l := FindGuest(c, next, guest, p, pf);
      Resolved(l.cat, l.next, Some(l.pos))
  }

  datatype Outcome = Outcome(cat: Cat, next: nat, code: int)

  lemma ResolveKeepsWellFormed(c: Cat, next: nat, dirId: nat, guest: string, pf: Platform)
    requires WellFormed(c, next)
    ensures var r := Resolve(c, next, dirId, guest, pf);
      WellFormed(r.cat, r.next) && Rooted(r.cat) && c <= r.cat && (r.item.Some? ==> r.item.value < |r.cat|)
  {
    hide WellFormed, Rooted;
    match FindId(c, dirId)
    case None =>
      WellFormedIsRooted(c, next);
    case Some(p) =>
      LookupsKeepWellFormed(c, next, guest, p, pf);
      var r := Resolve(c, next, dirId, guest, pf);
      WellFormedIsRooted(r.cat, r.next);
  }

  /** fs_rename: both names are looked up in the same directory. `failure` is the code for a
      rename the host refuses. */
  function Rename(c: Cat, next: nat, dirId: nat, oldName: string, newName: string, h: Host, failure: int,
                  pf: Platform): Outcome
    requires WellFormed(c, next)
  {
    ResolveKeepsWellFormed(c, next, dirId, oldName, pf);
    var r1 := Resolve(c, next, dirId, oldName, pf);
    if r1.item.None? then Outcome(r1.cat, r1.next, DIR_NF_ERR) else
    ResolveKeepsWellFormed(r1.cat, r1.next, dirId, newName, pf);
    var r2 := Resolve(r1.cat, r1.next, dirId, newName, pf);
    if r2.item.None? then Outcome(r2.cat, r2.next, DIR_NF_ERR) else
    var i, j := r1.item.value, r2.item.value;
    var oldPath, newPath := Path(r1.cat, i, pf), Path(r2.cat, j, pf);
    if h.present(newPath) then Outcome(r2.cat, r2.next, DUP_FN_ERR)
    else if !h.rename(oldPath, newPath) then Outcome(r2.cat, r2.next, failure)
    else Outcome(Exchange(r2.cat, i, j), r2.next, NO_ERR)
  }

  /** fs_cat_move: the item keeps its name and goes into the directory found second; its new
      catalogue item is looked up only after the host has moved it. */
  function CatMove(c: Cat, next: nat, dirId: nat, oldName: string, newDirId: nat, newDirName: string,
                   h: Host, failure: int, pf: Platform): Outcome
    requires WellFormed(c, next)
  {
    ResolveKeepsWellFormed(c, next, dirId, oldName, pf);
    var r1 := Resolve(c, next, dirId, oldName, pf);
    if r1.item.None? then Outcome(r1.cat, r1.next, DIR_NF_ERR) else
    ResolveKeepsWellFormed(r1.cat, r1.next, newDirId, newDirName, pf);
    var r2 := Resolve(r1.cat, r1.next, newDirId, newDirName, pf);
    if r2.item.None? then Outcome(r2.cat, r2.next, DIR_NF_ERR) else
    var i, d := r1.item.value, r2.item.value;
    var name := r2.cat[i].name;
    var oldPath, newPath := Path(r1.cat, i, pf), pf.join(Path(r2.cat, d, pf), name);
    if h.present(newPath) then Outcome(r2.cat, r2.next, DUP_FN_ERR)
    else if !h.rename(oldPath, newPath) then Outcome(r2.cat, r2.next, failure)
    else
      var l := Find(r2.cat, r2.next, name, d, pf);
      Outcome(Exchange(l.cat, i, l.pos), l.next, NO_ERR)
  }

  /** An extension of a catalogue resolves every old item, and every old CNID, as before. */
  lemma {:induction false} ExtensionKeepsPath(c: Cat, c': Cat, i: nat, pf: Platform)
    requires Rooted(c) && Rooted(c') && c <= c' && i < |c|
    ensures Path(c', i, pf) == Path(c, i, pf)
    decreases i
  {
    if c[i].id != ROOT_PARENT_ID && c[i].id != ROOT_ID {
      ExtensionKeepsPath(c, c', c[i].up, pf);
    }
  }

  lemma ExtensionKeepsIds(c: Cat, next: nat, c': Cat, next': nat, cnid: nat, pf: Platform)
    requires WellFormed(c, next) && WellFormed(c', next') && c <= c' && FindId(c, cnid).Some?
    ensures Rooted(c) && Rooted(c') && PathOfId(c', cnid, pf) == PathOfId(c, cnid, pf)
  {
    WellFormedIsRooted(c, next);
    WellFormedIsRooted(c', next');
    var i := FindId(c, cnid).value;
    IdIsUnique(c', next', i);
    ExtensionKeepsPath(c, c', i, pf);
  }

  /** The path of an ordinary item differs from neither special path unless the host allows it, so
      a rename that the host performs concerns two different ordinary items. */
  lemma RenamedAreOrdinary(c: Cat, next: nat, i: nat, j: nat, h: Host, pf: Platform)
    requires WellFormed(c, next) && Rooted(c) && i < |c| && j < |c| && Sane(h, pf)
    requires !h.present(Path(c, j, pf)) && h.rename(Path(c, i, pf), Path(c, j, pf))
    ensures ROOT < i && ROOT < j && i != j
  {
    assert Path(c, ROOT_PARENT, pf) == "" && Path(c, ROOT, pf) == pf.rootPath;
  }

  /** The map from CNIDs to paths went from c's to c''s by exchanging the paths of items i and j. */
  ghost predicate Transposed(c: Cat, i: nat, j: nat, c': Cat, pf: Platform) {
    && Rooted(c) && Rooted(c') && i < |c| && j < |c| && c[i].id != c[j].id
    && PathOfId(c', c[i].id, pf) == Some(Path(c, j, pf))
    && PathOfId(c', c[j].id, pf) == Some(Path(c, i, pf))
    && forall cnid :: cnid != c[i].id && cnid != c[j].id ==> PathOfId(c', cnid, pf) == PathOfId(c, cnid, pf)
  }

  /** fs_rename keeps the catalogue invariant, whatever the outcome. When it succeeds, the map from
      CNIDs to paths is transposed: the CNID of the renamed object resolves to the new path, the
      one that had been looked up for the new name to the old path, all others as before. */
  lemma RenameTransposes(c: Cat, next: nat, dirId: nat, oldName: string, newName: string, h: Host, failure: int,
                         pf: Platform)
    requires WellFormed(c, next) && Sane(h, pf) && failure != NO_ERR
    ensures var o := Rename(c, next, dirId, oldName, newName, h, failure, pf);
      var r1 := Resolve(c, next, dirId, oldName, pf);
      var r2 := Resolve(r1.cat, r1.next, dirId, newName, pf);
      && WellFormed(o.cat, o.next)
      && (o.code != NO_ERR ==> c <= o.cat)
      && (o.code == NO_ERR ==>
            && c <= r2.cat && r1.item.Some? && r2.item.Some?
            && Transposed(r2.cat, r1.item.value, r2.item.value, o.cat, pf)
            && h.rename(Path(r2.cat, r1.item.value, pf), Path(r2.cat, r2.item.value, pf)))
  {
    hide WellFormed, Rooted, Resolve, Exchange, Path, Transposed;
    ResolveKeepsWellFormed(c, next, dirId, oldName, pf);
    var r1 := Resolve(c, next, dirId, oldName, pf);
    if r1.item.Some? {
      ResolveKeepsWellFormed(r1.cat, r1.next, dirId, newName, pf);
      var r2 := Resolve(r1.cat, r1.next, dirId, newName, pf);
      if r2.item.Some? {
        var i, j := r1.item.value, r2.item.value;
        ExtensionKeepsPath(r1.cat, r2.cat, i, pf);
        if !h.present(Path(r2.cat, j, pf)) && h.rename(Path(r1.cat, i, pf), Path(r2.cat, j, pf)) {
          RenamedAreOrdinary(r2.cat, r2.next, i, j, h, pf);
          ExchangedPair(r2.cat, r2.next, i, j, pf);
        }
      }
    }
  }

  /** The one move that goes wrong: into the root's parent, of an object named like the volume. */
  predicate OntoRoot(c: Cat, d: nat, name: string)
    requires |c| > ROOT
  {
    d == ROOT_PARENT && name == c[ROOT].name
  }

  /** When fs_cat_move succeeds, it transposes the map from CNIDs to paths like a rename, and keeps
      the catalogue invariant, if and only if the object did not go into the root's parent under
      the volume's name; there the lookup of the moved object finds the root item itself. */
  lemma MoveTransposesIff(c: Cat, next: nat, dirId: nat, oldName: string, newDirId: nat, newDirName: string,
                          h: Host, failure: int, pf: Platform)
    requires WellFormed(c, next) && Sane(h, pf) && failure != NO_ERR
    ensures var o := CatMove(c, next, dirId, oldName, newDirId, newDirName, h, failure, pf);
      var r1 := Resolve(c, next, dirId, oldName, pf);
      var r2 := Resolve(r1.cat, r1.next, newDirId, newDirName, pf);
      && (o.code != NO_ERR ==> WellFormed(o.cat, o.next) && c <= o.cat)
      && (o.code == NO_ERR ==>
            && c <= r2.cat && WellFormed(r2.cat, r2.next) && r1.item.Some? && r2.item.Some?
            && var (i, d) := (r1.item.value, r2.item.value);
               && i < |r2.cat| && d < |r2.cat| && Rooted(r2.cat)
               && var l := Find(r2.cat, r2.next, r2.cat[i].name, d, pf);
                  && (WellFormed(o.cat, o.next) <==> !OntoRoot(r2.cat, d, r2.cat[i].name))
                  && (Transposed(l.cat, i, l.pos, o.cat, pf) <==> !OntoRoot(r2.cat, d, r2.cat[i].name))
                  && (!OntoRoot(r2.cat, d, r2.cat[i].name) ==> h.rename(Path(l.cat, i, pf), Path(l.cat, l.pos, pf))))
  {
    hide WellFormed, Rooted, Resolve, Exchange, Path, Transposed, Find, OntoRoot;
    ResolveKeepsWellFormed(c, next, dirId, oldName, pf);
    var r1 := Resolve(c, next, dirId, oldName, pf);
    if r1.item.Some? {
      ResolveKeepsWellFormed(r1.cat, r1.next, newDirId, newDirName, pf);
      var r2 := Resolve(r1.cat, r1.next, newDirId, newDirName, pf);
      if r2.item.Some? {
        var i, d := r1.item.value, r2.item.value;
        var newPath := pf.join(Path(r2.cat, d, pf), r2.cat[i].name);
        ExtensionKeepsPath(r1.cat, r2.cat, i, pf);
        if !h.present(newPath) && h.rename(Path(r1.cat, i, pf), newPath) {
          MovedPair(r2.cat, r2.next, i, d, h, pf);
        }
      }
    }
  }

  lemma MovedPair(c: Cat, next: nat, i: nat, d: nat, h: Host, pf: Platform)
    requires WellFormed(c, next) && Rooted(c) && i < |c| && d < |c| && Sane(h, pf)
    requires var newPath := pf.join(Path(c, d, pf), c[i].name); !h.present(newPath) && h.rename(Path(c, i, pf), newPath)
    ensures var l := Find(c, next, c[i].name, d, pf);
      && l.pos < |l.cat| && i < |l.cat| && |c| > ROOT
      && (WellFormed(Exchange(l.cat, i, l.pos), l.next) <==> !OntoRoot(c, d, c[i].name))
      && (Transposed(l.cat, i, l.pos, Exchange(l.cat, i, l.pos), pf) <==> !OntoRoot(c, d, c[i].name))
      && (!OntoRoot(c, d, c[i].name) ==> Rooted(l.cat) && h.rename(Path(l.cat, i, pf), Path(l.cat, l.pos, pf)))
  {
    var name := c[i].name;
    var l := Find(c, next, name, d, pf);
    LookupsKeepWellFormed(c, next, name, d, pf);
    WellFormedIsRooted(l.cat, l.next);
    ExtensionKeepsPath(c, l.cat, i, pf);
    ExtensionKeepsPath(c, l.cat, d, pf);
    assert Path(c, ROOT_PARENT, pf) == "" && Path(c, ROOT, pf) == pf.rootPath;
    assert ROOT < i;
    assert l.cat[l.pos].up == d && l.cat[l.pos].name == name;
    if OntoRoot(c, d, name) {
      assert l.pos == ROOT;
      assert Exchange(l.cat, i, ROOT)[ROOT].id == l.cat[i].id != l.cat[ROOT].id;
      RootIsLost(l.cat, l.next, i, pf);
    } else {
      assert ROOT < l.pos;
      assert l.cat[l.pos].id != l.cat[ROOT].id && l.cat[l.pos].id != l.cat[ROOT_PARENT].id;
      ExchangedPair(l.cat, l.next, i, l.pos, pf);
    }
  }

  /** After an exchange with the root item, the other item's CNID resolves to the volume's name
      below the root's parent, not to the root path. */
  lemma RootIsLost(c: Cat, next: nat, i: nat, pf: Platform)
    requires WellFormed(c, next) && Rooted(c) && ROOT < i < |c|
    requires pf.join("", c[ROOT].name) != pf.rootPath
    ensures !Transposed(c, i, ROOT, Exchange(c, i, ROOT), pf)
  {
    var c' := Exchange(c, i, ROOT);
    assert c[i].id != c[ROOT].id && c[i].id != c[ROOT_PARENT].id;
    if Rooted(c') {
      assert FindIdFrom(c', c[i].id, 1) == Some(ROOT);
      assert Path(c', ROOT_PARENT, pf) == "" && Path(c', ROOT, pf) == pf.join("", c[ROOT].name);
      assert Path(c, ROOT, pf) == pf.rootPath;
    }
  }

  function SmallPlatform(): Platform {
    Platform(x => x, x => x, (a, b) => a + "/" + b, "/r")
  }

  /** A volume "v" at /r that holds an object v (CNID 16) and an object a (CNID 17). */
  function SmallVolume(): Cat {
    [Item(1, 0, -1, "", ""), Item(2, 1, 0, "v", "v"), Item(16, 2, 1, "v", "v"), Item(17, 2, 1, "a", "a")]
  }

  /** A host that has them and moves /r/v to /v. */
  function SmallHost(): Host {
    Host(p => p == "/r" || p == "/r/v" || p == "/r/a", (a, b) => a == "/r/v" && b == "/v")
  }

  /** Moving v into the root's parent succeeds and finds the root item; afterwards CNID 17 no longer
      resolves to /r/a, although nothing happened to that object. */
  lemma MoveOntoRootLosesPaths(failure: int)
    ensures var pf, c := SmallPlatform(), SmallVolume();
      && WellFormed(c, 18) && Sane(SmallHost(), pf)
      && var o := CatMove(c, 18, ROOT_ID, "v", ROOT_PARENT_ID, "", SmallHost(), failure, pf);
         && o == Outcome(Exchange(c, 2, 1), 18, NO_ERR)
         && Rooted(c) && PathOfId(c, 17, pf) == Some("/r/a")
         && Rooted(o.cat) && PathOfId(o.cat, 17, pf) == Some("/v/a")
  {
    hide CatMove;
    var pf, c := SmallPlatform(), SmallVolume();
    SmallVolumeIsWellFormed();
    SmallMove(failure);
    var c' := Exchange(c, 2, 1);
    assert c' == [Item(1, 0, -1, "", ""), Item(16, 1, 0, "v", "v"), Item(2, 16, 1, "v", "v"),
      Item(17, 16, 1, "a", "a")];
    assert Rooted(c) && Rooted(c');
    assert Path(c, 1, pf) == "/r" && Path(c, 3, pf) == "/r" + "/" + "a" == "/r/a";
    assert Path(c', 0, pf) == "" && Path(c', 1, pf) == "" + "/" + "v" == "/v";
    assert Path(c', 3, pf) == "/v" + "/" + "a" == "/v/a";
    assert FindIdFrom(c, 17, 3) == Some(3) && FindIdFrom(c', 17, 3) == Some(3);
    assert FindIdFrom(c, 17, 2) == Some(3) && FindIdFrom(c', 17, 2) == Some(3);
  }

  lemma SmallVolumeIsWellFormed()
    ensures WellFormed(SmallVolume(), 18) && Rooted(SmallVolume()) && Sane(SmallHost(), SmallPlatform())
  {
    var pf := SmallPlatform();
    InitialIsWellFormed(pf, "v");
    var c1, c := Initial(pf, "v") + [Item(16, 2, 1, "v", "v")], SmallVolume();
    AppendKeepsWellFormed(Initial(pf, "v"), 16, Item(16, 2, 1, "v", "v"));
    assert c == c1 + [Item(17, 2, 1, "a", "a")];
    AppendKeepsWellFormed(c1, 17, Item(17, 2, 1, "a", "a"));
    WellFormedIsRooted(c, 18);
    SmallHostIsSane();
  }

  lemma SmallHostIsSane()
    ensures Sane(SmallHost(), SmallPlatform())
  {
  }

  lemma SmallMove(failure: int)
    requires WellFormed(SmallVolume(), 18)
    ensures CatMove(SmallVolume(), 18, ROOT_ID, "v", ROOT_PARENT_ID, "", SmallHost(), failure, SmallPlatform()) ==
      Outcome(Exchange(SmallVolume(), 2, 1), 18, NO_ERR)
  {
    hide Exchange, WellFormed;
    var pf, c := SmallPlatform(), SmallVolume();
    SmallVolumeIsWellFormed();
    assert FindIdFrom(c, ROOT_ID, 1) == Some(1);
    assert FindGuestFrom(c, "v", 1, 2) == Some(2) && FindGuestFrom(c, "v", 1, 1) == Some(2);
    assert Resolve(c, 18, ROOT_ID, "v", pf) == Resolved(c, 18, Some(2));
    assert Resolve(c, 18, ROOT_PARENT_ID, "", pf) == Resolved(c, 18, Some(0));
    assert Path(c, 0, pf) == "" && Path(c, 1, pf) == "/r" && Path(c, 2, pf) == "/r" + "/" + "v" == "/r/v";
    assert pf.join("", "v") == "" + "/" + "v" == "/v";
    assert FindNameFrom(c, "v", 0, 1) == Some(1);
    assert Find(c, 18, "v", 0, pf) == Lookup(c, 18, 1);
  }

  lemma ExchangedPair(c: Cat, next: nat, i: nat, j: nat, pf: Platform)
    requires WellFormed(c, next) && ROOT < i < |c| && ROOT < j < |c| && i != j
    ensures WellFormed(Exchange(c, i, j), next)
    ensures Transposed(c, i, j, Exchange(c, i, j), pf)
  {
    hide Path, PathOfId, Exchange;
    ExchangeKeepsWellFormed(c, next, i, j);
    ExchangeTransposesPaths(c, next, i, j, c[i].id, pf);
    ExchangeTransposesPaths(c, next, i, j, c[j].id, pf);
    forall cnid | cnid != c[i].id && cnid != c[j].id
      ensures PathOfId(Exchange(c, i, j), cnid, pf) == PathOfId(c, cnid, pf)
    {
      ExchangeTransposesPaths(c, next, i, j, cnid, pf);
    }
    ItemPath(c, next, i, pf);
    ItemPath(c, next, j, pf);
    assert c[i].id != c[j].id;
  }

  lemma ItemPath(c: Cat, next: nat, i: nat, pf: Platform)
    requires WellFormed(c, next) && Rooted(c) && i < |c|
    ensures PathOfId(c, c[i].id, pf) == Some(Path(c, i, pf))
  {
    IdIsUnique(c, next, i);
  }

  // ------------------------------------------------------------- runs

  function Initial(pf: Platform, volumeName: string): Cat {
    [Item(ROOT_PARENT_ID, 0, -1, "", ""),
     Item(ROOT_ID, ROOT_PARENT_ID, ROOT_PARENT, volumeName, Truncate(pf.encode(volumeName)))]
  }

  /** One operation on the catalogue, with the host as it is at that moment. */
  datatype Op =
    | OpFind(name: string, parent: nat)
    | OpResolve(dirId: nat, guest: string)
    | OpRename(dirId: nat, oldName: string, newName: string, host: Host, failure: int)
    | OpMove(dirId: nat, oldName: string, newDirId: nat, newDirName: string, host: Host, failure: int)

  /** The operation can be made here, by a host that behaves, and is not a move onto the root item. */
  ghost predicate Allowed(c: Cat, next: nat, op: Op, pf: Platform) {
    match op
    case OpFind(_, parent) => parent < |c|
    case OpResolve(_, _) => true
    case OpRename(_, _, _, host, failure) => Sane(host, pf) && failure != NO_ERR
    case OpMove(dirId, oldName, newDirId, newDirName, host, failure) =>
      && Sane(host, pf) && failure != NO_ERR
      && var r1 := Resolve(c, next, dirId, oldName, pf);
         var r2 := Resolve(r1.cat, r1.next, newDirId, newDirName, pf);
         (r1.item.Some? && r2.item.Some? && r1.item.value < |r2.cat| && |r2.cat| > ROOT ==>
            !OntoRoot(r2.cat, r2.item.value, r2.cat[r1.item.value].name))
  }

  function Apply(c: Cat, next: nat, op: Op, pf: Platform): (Cat, nat)
    requires WellFormed(c, next)
  {
    match op
    case OpFind(name, parent) =>
      if parent < |c| then var l := Find(c, next, name, parent, pf); (l.cat, l.next) else (c, next)
    case OpResolve(dirId, guest) =>
      var r := Resolve(c, next, dirId, guest, pf); (r.cat, r.next)
    case OpRename(dirId, oldName, newName, host, failure) =>
      var o := Rename(c, next, dirId, oldName, newName, host, failure, pf); (o.cat, o.next)
    case OpMove(dirId, oldName, newDirId, newDirName, host, failure) =>
      var o := CatMove(c, next, dirId, oldName, newDirId, newDirName, host, failure, pf); (o.cat, o.next)
  }

  /** The catalogue and the counter after a run from a given state. (Operations are defined on
      well-formed catalogues only; EveryRunKeepsInvariant shows that a run never meets another.) */
  function After(c: Cat, next: nat, ops: seq<Op>, pf: Platform): (Cat, nat)
  {
    if ops == [] then (c, next) else
    var s := After(c, next, ops[..|ops| - 1], pf);
    if WellFormed(s.0, s.1) then Apply(s.0, s.1, ops[|ops| - 1], pf) else s
  }

  /** Every operation of the run is allowed where it is made. */
  ghost predicate AllowedRun(c: Cat, next: nat, ops: seq<Op>, pf: Platform) {
    ops == [] ||
    var s := After(c, next, ops[..|ops| - 1], pf);
    AllowedRun(c, next, ops[..|ops| - 1], pf) && Allowed(s.0, s.1, ops[|ops| - 1], pf)
  }

  /** Every run of allowed operations keeps the catalogue invariant. */
  lemma {:induction false} EveryRunKeepsInvariant(c: Cat, next: nat, ops: seq<Op>, pf: Platform)
    requires WellFormed(c, next) && AllowedRun(c, next, ops, pf)
    ensures WellFormed(After(c, next, ops, pf).0, After(c, next, ops, pf).1)
    decreases |ops|
  {
    hide WellFormed, Allowed, Apply;
    if ops != [] {
      EveryRunKeepsInvariant(c, next, ops[..|ops| - 1], pf);
      var s := After(c, next, ops[..|ops| - 1], pf);
      AllowedKeepsWellFormed(s.0, s.1, ops[|ops| - 1], pf);
    }
  }

  lemma InitialIsWellFormed(pf: Platform, volumeName: string)
    ensures WellFormed(Initial(pf, volumeName), FIRST_USER_CNID)
  {
    assert ParentOk(Initial(pf, volumeName), 1);
  }

  /** The volume of the failing move is one the program arrives at, by looking its objects up. */
  lemma SmallVolumeIsReachable()
    ensures After(Initial(SmallPlatform(), "v"), FIRST_USER_CNID, [OpFind("v", ROOT), OpFind("a", ROOT)],
                  SmallPlatform()) == (SmallVolume(), 18)
  {
    hide WellFormed;
    var pf, start := SmallPlatform(), Initial(SmallPlatform(), "v");
    var ops := [OpFind("v", ROOT), OpFind("a", ROOT)];
    assert ops[..1] == [ops[0]] && [ops[0]][..0] == [];
    InitialIsWellFormed(pf, "v");
    var c1 := start + [Item(16, 2, 1, "v", "v")];
    assert Find(start, 16, "v", ROOT, pf) == Lookup(c1, 17, 2);
    AppendKeepsWellFormed(start, 16, Item(16, 2, 1, "v", "v"));
    assert After(start, 16, [ops[0]], pf) == (c1, 17);
    assert FindNameFrom(c1, "a", ROOT, 0).None?;
    assert Find(c1, 17, "a", ROOT, pf) == Lookup(SmallVolume(), 18, 3);
  }

  /** So in every state a run from the start leads to, the recorded parent ID of every item names
      the directory part of its path. */
  lemma ReachableIsWellFormed(ops: seq<Op>, pf: Platform, volumeName: string)
    requires AllowedRun(Initial(pf, volumeName), FIRST_USER_CNID, ops, pf)
    ensures var (c, next) := After(Initial(pf, volumeName), FIRST_USER_CNID, ops, pf);
      && WellFormed(c, next) && Rooted(c)
      && forall i :: ROOT < i < |c| ==>
           var dir := PathOfId(c, c[i].parentId, pf);
           dir.Some? && Path(c, i, pf) == pf.join(dir.value, c[i].name)
  {
    hide Path, PathOfId, Rooted, AllowedRun, After, Initial;
    InitialIsWellFormed(pf, volumeName);
    EveryRunKeepsInvariant(Initial(pf, volumeName), FIRST_USER_CNID, ops, pf);
    var (c, next) := After(Initial(pf, volumeName), FIRST_USER_CNID, ops, pf);
    WellFormedIsRooted(c, next);
    forall i | ROOT < i < |c|
      ensures var dir := PathOfId(c, c[i].parentId, pf);
        dir.Some? && Path(c, i, pf) == pf.join(dir.value, c[i].name)
    {
      ParentIdNamesDirectory(c, next, i, pf);
    }
  }

  lemma AllowedKeepsWellFormed(c: Cat, next: nat, op: Op, pf: Platform)
    requires WellFormed(c, next) && Allowed(c, next, op, pf)
    ensures WellFormed(Apply(c, next, op, pf).0, Apply(c, next, op, pf).1)
  {
    hide Rename, CatMove, Resolve, Find, OntoRoot, Transposed, Rooted, ParentOk;
    match op
    case OpFind(name, parent) =>
      LookupsKeepWellFormed(c, next, name, parent, pf);
    case OpResolve(dirId, guest) =>
      ResolveKeepsWellFormed(c, next, dirId, guest, pf);
    case OpRename(dirId, oldName, newName, host, failure) =>
      RenameTransposes(c, next, dirId, oldName, newName, host, failure, pf);
    case OpMove(dirId, oldName, newDirId, newDirName, host, failure) =>
      MoveTransposesIff(c, next, dirId, oldName, newDirId, newDirName, host, failure, pf);
  }
}
