/** The ExtFS catalogue as the program keeps it: a linked list of mutable items. */
module ExtFs {
  import opened Options
  import opened Catalogue
  import opened CatalogueCache
  import opened CatalogueCounts

  class FSItem {
    var next: FSItem?
    var id: nat
    var parentId: nat
    var parent: FSItem?
    var name: string
    var guestName: string
    var mtime: int
    var cacheDircount: int
    ghost var pos: nat          // position in the list

    constructor (id: nat, parentId: nat, parent: FSItem?, name: string, guestName: string, ghost pos: nat)
      ensures next == null && this.id == id && this.parentId == parentId && this.parent == parent
      ensures this.name == name && this.guestName == guestName && mtime == 0 && this.pos == pos
    {
      this.next, this.id, this.parentId, this.parent := null, id, parentId, parent;
      this.name, this.guestName, this.mtime, this.cacheDircount, this.pos := name, guestName, 0, 0, pos;
    }

    /** The item's own fields are those of the list element `it`. */
    ghost predicate Is(it: Item)
      reads this
    {
      id == it.id && parentId == it.parentId && name == it.name && guestName == it.guestName
    }
  }

  class Volume {
    const pf: Platform
    var firstItem: FSItem?
    var lastItem: FSItem?
    var nextCnid: nat
    var fullPath: string
    ghost var items: seq<FSItem>
    ghost var view: Cat

    /** The list is the sequence `items`, and `view` is its value. */
    ghost predicate Linked()
      reads `firstItem, `lastItem, `items, `view, items
    {
      && |items| == |view| > 0
      && firstItem == items[0] && lastItem == items[|items| - 1]
      && (forall i :: 0 <= i < |items| ==> ItemOk(items, view, i))
    }

    /** Element i knows its position and its neighbours and carries the fields of view[i]. */
    static ghost predicate ItemOk(items: seq<FSItem>, view: Cat, i: nat)
      requires |items| == |view| && i < |items|
      reads items[i]
    {
      && items[i].pos == i
      && items[i].next == (if i + 1 < |items| then items[i + 1] else null)
      && -1 <= view[i].up < |items|
      && items[i].parent == (if view[i].up == -1 then null else items[view[i].up])
      && items[i].Is(view[i])
    }

    /** p is one of the list's elements. */
    ghost predicate Has(p: FSItem)
      reads `items, p
    {
      p.pos < |items| && items[p.pos] == p
    }

    static ghost function CachesOf(items: seq<FSItem>): (r: seq<Cache>)
      reads items
      ensures |r| == |items| && forall i :: 0 <= i < |r| ==> r[i] == Cache(items[i].mtime, items[i].cacheDircount)
    {
      if items == [] then [] else
      var n := |items| - 1;
      CachesOf(items[..n]) + [Cache(items[n].mtime, items[n].cacheDircount)]
    }

    /** The cache fields of all items. */
    ghost function Caches(): (r: seq<Cache>)
      reads `items, items
      ensures |r| == |items| && forall i :: 0 <= i < |r| ==> r[i] == Cache(items[i].mtime, items[i].cacheDircount)
    {
      CachesOf(items)
    }

    /** The catalogue with the cache fields. */
    ghost function State(): Counted
      reads this, items
    {
      Counted(view, nextCnid, Caches())
    }

    method FindById(cnid: nat) returns (p: FSItem?)
      requires Linked()
      ensures match FindId(view, cnid)
              case None => p == null
              case Some(i) => i < |items| && p == items[i]
    {
      p := firstItem;
      ghost var i := 0;
      while p != null
        invariant i <= |items|
        invariant p == if i < |items| then items[i] else null
        invariant FindId(view, cnid) == FindIdFrom(view, cnid, i)
        decreases |items| - i
      {
        assert ItemOk(items, view, i);
        if p.id == cnid {
          return;
        }
        p := p.next;
        i := i + 1;
      }
    }

    lemma Element(i: nat)
      requires Linked() && i < |items|
      ensures ItemOk(items, view, i)
    {
    }

    method CreateItem(name: string, guestName: string, parent: FSItem) returns (p: FSItem)
      requires Linked() && Has(parent)
      modifies this, items
      ensures Linked() && fresh(p) && items == old(items) + [p] && nextCnid == old(nextCnid) + 1
      ensures view == old(view) + [NewItem(old(view), old(nextCnid), name, guestName, old(parent.pos))]
      ensures fullPath == old(fullPath) && CachesGrow(old(Caches()), Caches())
    {
      hide Volume.Caches, Volume.CachesOf;
      var stored := if |guestName| <= MAX_GUEST_NAME then guestName else guestName[..MAX_GUEST_NAME];
      assert ItemOk(items, view, parent.pos);
      p := new FSItem(nextCnid, parent.id, parent, name, stored, |items|);
      assert forall i :: 0 <= i < |items| ==> old(ItemOk(items, view, i)) ==> ItemOk(items, view, i);
      ghost var it := NewItem(view, nextCnid, name, guestName, parent.pos);
      nextCnid := nextCnid + 1;
      Append(p, it);
    }

    /** Link a new item behind the last one. */
    method Append(p: FSItem, ghost it: Item)
      requires Linked() && p.pos == |items| && p.next == null && p.Is(it)
      requires -1 <= it.up < |items| && p.parent == if it.up == -1 then null else items[it.up]
      modifies this`lastItem, this`items, this`view, lastItem`next
      ensures Linked() && items == old(items) + [p] && view == old(view) + [it]
      ensures Caches() == old(Caches()) + [Cache(p.mtime, p.cacheDircount)]
    {
      hide Volume.Caches, Volume.CachesOf;
      ghost var n, its, v := |items|, items, view;
      assert forall i :: 0 <= i < n ==> ItemOk(its, v, i);
      lastItem.next := p;
      lastItem := p;
      view := view + [it];
      items := items + [p];
      assert old(ItemOk(its, v, n - 1));
      forall i | 0 <= i <= n ensures ItemOk(items, view, i) {
        if i < n {
          assert old(ItemOk(its, v, i));
          assert items[i] == its[i] && view[i] == v[i];
        }
      }
    }

    /** Two initial items: the root's parent and the root. */
    constructor (pf: Platform, volumeName: string)
      ensures Linked() && this.pf == pf && nextCnid == FIRST_USER_CNID && fresh(items)
      ensures view == Initial(pf, volumeName) && WellFormed(view, nextCnid)
    {
      var top := new FSItem(ROOT_PARENT_ID, 0, null, "", "", 0);
      var root := new FSItem(ROOT_ID, ROOT_PARENT_ID, top, volumeName, Truncate(pf.encode(volumeName)), 1);
      this.pf := pf;
      firstItem, lastItem, nextCnid, fullPath := top, root, FIRST_USER_CNID, "";
      items, view := [top, root], Initial(pf, volumeName);
      new;
      top.next := root;
      assert ItemOk(items, view, 0) && ItemOk(items, view, 1);
      assert ParentOk(view, 1);
    }

    method Find(name: string, parent: FSItem) returns (p: FSItem)
      requires Linked() && Has(parent)
      modifies this, items
      ensures Linked() && Has(p) && |old(items)| <= |items|
      ensures forall k :: 0 <= k < |items| ==> if k < |old(items)| then items[k] == old(items)[k] else fresh(items[k])
      ensures old(parent.pos) < |old(view)|
      ensures Lookup(view, nextCnid, p.pos) == Catalogue.Find(old(view), old(nextCnid), name, old(parent.pos), pf)
      ensures fullPath == old(fullPath) && CachesGrow(old(Caches()), Caches())
    {
      hide Volume.Caches, Volume.CachesOf;
      assert ItemOk(items, view, parent.pos);
      var q := firstItem;
      ghost var i := 0;
      while q != null
        invariant i <= |items|
        invariant q == if i < |items| then items[i] else null
        invariant FindNameFrom(view, name, parent.pos, 0) == FindNameFrom(view, name, parent.pos, i)
        modifies {}
        decreases |items| - i
      {
        PointerIsPosition(i, parent);
        if q.parent == parent && q.name == name {
          return q;
        }
        q := q.next;
        i := i + 1;
      }
      p := CreateItem(name, pf.encode(name), parent);
      assert ItemOk(items, view, |items| - 1);
    }

    method FindGuest(guestName: string, parent: FSItem) returns (p: FSItem)
      requires Linked() && Has(parent)
      modifies this, items
      ensures Linked() && Has(p) && |old(items)| <= |items|
      ensures forall k :: 0 <= k < |items| ==> if k < |old(items)| then items[k] == old(items)[k] else fresh(items[k])
      ensures old(parent.pos) < |old(view)|
      ensures Lookup(view, nextCnid, p.pos) ==
        Catalogue.FindGuest(old(view), old(nextCnid), guestName, old(parent.pos), pf)
      ensures fullPath == old(fullPath) && CachesGrow(old(Caches()), Caches())
    {
      hide Volume.Caches, Volume.CachesOf;
      assert ItemOk(items, view, parent.pos);
      var q := firstItem;
      ghost var i := 0;
      while q != null
        invariant i <= |items|
        invariant q == if i < |items| then items[i] else null
        invariant FindGuestFrom(view, guestName, parent.pos, 0) == FindGuestFrom(view, guestName, parent.pos, i)
        modifies {}
        decreases |items| - i
      {
        PointerIsPosition(i, parent);
        if q.parent == parent && q.guestName == guestName {
          return q;
        }
        q := q.next;
        i := i + 1;
      }
      p := CreateItem(pf.decode(guestName), guestName, parent);
      assert ItemOk(items, view, |items| - 1);
    }

    /** Pointer equality with `parent` is equality of list positions. */
    lemma PointerIsPosition(i: nat, parent: FSItem)
      requires Linked() && Has(parent) && i < |items|
      ensures ItemOk(items, view, i)
      ensures items[i].parent == parent <==> view[i].up == parent.pos
    {
      assert ItemOk(items, view, i);
      if view[i].up != -1 {
        assert ItemOk(items, view, view[i].up);
      }
    }

    /** Follow the parent pointers up to the root and append the names on the way back. */
    method GetPath(p: FSItem)
      requires Linked() && Has(p) && Rooted(view)
      modifies this`fullPath
      ensures Linked() && p.pos < |view| && fullPath == Path(view, p.pos, pf)
      decreases p.pos
    {
      assert ItemOk(items, view, p.pos);
      if p.id == ROOT_PARENT_ID {
        fullPath := "";
      } else if p.id == ROOT_ID {
        fullPath := pf.rootPath;
      } else {
        assert ItemOk(items, view, view[p.pos].up);
        GetPath(p.parent);
        fullPath := pf.join(fullPath, p.name);
      }
    }

    method SetParentId(p: FSItem, newId: nat, ghost i: nat)
      requires Linked() && i < |items| && p == items[i]
      modifies this`view, p`parentId
      ensures Linked() && view == old(view)[i := old(view)[i].(parentId := newId)] && Caches() == old(Caches())
    {
      hide Volume.Caches, Volume.CachesOf;
      ghost var v := view;
      assert forall k :: 0 <= k < |items| ==> ItemOk(items, v, k);
      p.parentId := newId;
      view := view[i := view[i].(parentId := newId)];
      forall k | 0 <= k < |items| ensures ItemOk(items, view, k) {
        assert old(ItemOk(items, v, k)) && old(ItemOk(items, v, i));
      }
    }

    /** Exchange two parent IDs in all items. */
    method SwapParentIds(parent1: nat, parent2: nat)
      requires Linked()
      modifies this`view, items
      ensures Linked() && |view| == |old(view)|
      ensures forall i :: 0 <= i < |view| ==>
        view[i] == old(view)[i].(parentId := SwapId(old(view)[i].parentId, parent1, parent2))
      ensures forall i :: 0 <= i < |items| ==> items[i].id == old(items[i].id)
      ensures Caches() == old(Caches())
    {
      hide Volume.Caches, Volume.CachesOf;
      var p := firstItem;
      ghost var i := 0;
      while p != null
        invariant Linked() && i <= |items| && Caches() == old(Caches())
        invariant p == if i < |items| then items[i] else null
        invariant forall k :: 0 <= k < |items| ==> items[k].id == old(items[k].id)
        invariant forall k :: 0 <= k < |view| ==>
          view[k] == if k < i then old(view)[k].(parentId := SwapId(old(view)[k].parentId, parent1, parent2))
            else old(view)[k]
        decreases |items| - i
      {
        assert ItemOk(items, view, i);
        if p.parentId == parent1 {
          SetParentId(p, parent2, i);
        } else if p.parentId == parent2 {
          SetParentId(p, parent1, i);
        }
        assert ItemOk(items, view, i);
        p := p.next;
        i := i + 1;
      }
    }

    /** Give each of two items the other's CNID, in its own field and in its children's. */
    method ExchangeIds(p: FSItem, q: FSItem)
      requires Linked() && Has(p) && Has(q)
      modifies this`view, items
      ensures Linked() && old(p.pos) < |old(view)| && old(q.pos) < |old(view)|
      ensures view == Exchange(old(view), old(p.pos), old(q.pos)) && Caches() == old(Caches())
    {
      hide Volume.Caches, Volume.CachesOf, Exchange;
      assert ItemOk(items, view, p.pos) && ItemOk(items, view, q.pos);
      ghost var i, j, v0 := p.pos, q.pos, view;
      SwapParentIds(p.id, q.id);
      SwapOwnIds(p, q, v0, i, j);
    }

    /** The second half of the exchange. */
    method SwapOwnIds(p: FSItem, q: FSItem, ghost v0: Cat, ghost i: nat, ghost j: nat)
      requires Linked() && |v0| == |view| && i < |v0| && j < |v0| && items[i] == p && items[j] == q
      requires p.id == v0[i].id && q.id == v0[j].id
      requires forall k :: 0 <= k < |view| ==> view[k] == v0[k].(parentId := SwapId(v0[k].parentId, v0[i].id, v0[j].id))
      modifies this`view, p`id, q`id
      ensures Linked() && view == Exchange(v0, i, j) && Caches() == old(Caches())
    {
      hide Volume.Caches, Volume.CachesOf;
      ghost var v := view;
      assert forall k :: 0 <= k < |items| ==> ItemOk(items, v, k);
      var t := p.id;
      p.id := q.id;
      q.id := t;
      view := Exchange(v0, i, j);
      forall k | 0 <= k < |items| ensures ItemOk(items, view, k) {
        assert old(ItemOk(items, v, k)) && old(ItemOk(items, v, i)) && old(ItemOk(items, v, j));
      }
    }

    /** The item for a directory ID and a guest name (null if there is no such directory); its
        path is left in the shared buffer. */
    method Resolve(dirId: nat, guestName: string) returns (p: FSItem?)
      requires Linked() && WellFormed(view, nextCnid)
      modifies this, items
      ensures Linked() && |old(items)| <= |items| && CachesGrow(old(Caches()), Caches())
      ensures forall k :: 0 <= k < |items| ==> if k < |old(items)| then items[k] == old(items)[k] else fresh(items[k])
      ensures var r := Catalogue.Resolve(old(view), old(nextCnid), dirId, guestName, pf);
        && view == r.cat && nextCnid == r.next && WellFormed(view, nextCnid) && Rooted(view)
        && (p == null <==> r.item.None?)
        && (p != null ==> Has(p) && r.item == Some(p.pos) && p.pos < |view| && fullPath == Path(view, p.pos, pf))
    {
      hide WellFormed, Rooted, Path, CachesGrow, Catalogue.Find, Catalogue.FindGuest, Volume.Caches, Volume.CachesOf;
      ResolveKeepsWellFormed(view, nextCnid, dirId, guestName, pf);
      CachesGrowSelf(Caches());
      p := FindById(dirId);
      if p == null {
        return;
      }
      assert ItemOk(items, view, FindId(view, dirId).value);
      if guestName != "" {
        p := FindGuest(guestName, p);
      }
      GetPath(p);
    }

    method Rename(dirId: nat, oldName: string, newName: string, host: Host, failure: int) returns (code: int)
      requires Linked() && WellFormed(view, nextCnid)
      modifies this, items
      ensures Linked() && CachesGrow(old(Caches()), Caches())
      ensures Outcome(view, nextCnid, code) ==
              Catalogue.Rename(old(view), old(nextCnid), dirId, oldName, newName, host, failure, pf)
    {
      hide WellFormed, Rooted, Catalogue.Resolve, Path, Exchange, CachesGrow, Volume.Linked, Volume.Caches,
        Volume.CachesOf;
      ghost var caches := Caches();
      var fsItem := Resolve(dirId, oldName);
      if fsItem == null {
        return DIR_NF_ERR;
      }
      var oldPath := fullPath;
      ghost var i, before, caches1 := fsItem.pos, items, Caches();
      var newItem := Resolve(dirId, newName);
      CachesGrowTrans(caches, caches1, Caches());
      if newItem == null {
        return DIR_NF_ERR;
      }
      assert items[i] == before[i] == fsItem;
      Element(i);
      if host.present(fullPath) {
        return DUP_FN_ERR;
      }
      if !host.rename(oldPath, fullPath) {
        return failure;
      }
      ExchangeIds(fsItem, newItem);
      return NO_ERR;
    }

    method CatMove(dirId: nat, oldName: string, newDirId: nat, newDirName: string, host: Host,
                   failure: int) returns (code: int)
      requires Linked() && WellFormed(view, nextCnid)
      modifies this, items
      ensures Linked() && CachesGrow(old(Caches()), Caches())
      ensures Outcome(view, nextCnid, code) ==
              Catalogue.CatMove(old(view), old(nextCnid), dirId, oldName, newDirId, newDirName, host, failure, pf)
    {
      hide WellFormed, Rooted, Catalogue.Resolve, Path, Exchange, Catalogue.Find, CachesGrow, Volume.Linked,
        Volume.Caches, Volume.CachesOf;
      ghost var caches := Caches();
      var fsItem := Resolve(dirId, oldName);
      if fsItem == null {
        return DIR_NF_ERR;
      }
      var oldPath := fullPath;
      ghost var i, before, caches1 := fsItem.pos, items, Caches();
      var newDirItem := Resolve(newDirId, newDirName);
      CachesGrowTrans(caches, caches1, Caches());
      if newDirItem == null {
        return DIR_NF_ERR;
      }
      assert items[i] == before[i] == fsItem;
      Element(i);
      fullPath := pf.join(fullPath, fsItem.name);
      if host.present(fullPath) {
        return DUP_FN_ERR;
      }
      if !host.rename(oldPath, fullPath) {
        return failure;
      }
      before, caches1 := items, Caches();
      var newItem := Find(fsItem.name, newDirItem);
      CachesGrowTrans(caches, caches1, Caches());
      assert items[i] == before[i] == fsItem;
      Element(i);
      ExchangeIds(fsItem, newItem);
      return NO_ERR;
    }

    /** The number of files fs_get_cat_info reports for an item, if the host knows its path and says
        it is a directory: from the item's cache or from the entries at hand. */
    method DirCount(p: FSItem, stat: string -> Option<Stat>) returns (count: Option<int>)
      requires Linked() && Has(p) && WellFormed(view, nextCnid)
      modifies this`fullPath, p`mtime, p`cacheDircount
      ensures Linked() && Has(p) && p.pos < |view| && Rooted(view)
      ensures State() == StepCounted(old(State()), Count(p.pos, stat), pf, CountsIn(Caches()))
      ensures match stat(Path(view, p.pos, pf))
              case None => count == None
              case Some(st) => count == if st.isDir then Some(Caches()[p.pos].count) else None
    {
      hide WellFormed, Rooted, Path, Query, Volume.Caches, Volume.CachesOf;
      WellFormedIsRooted(view, nextCnid);
      assert ItemOk(items, view, p.pos);
      GetPath(p);
      var answer := stat(fullPath);
      if answer == None {
        return None;
      }
      var st := answer.value;
      var n := QueryItem(p, st);
      return if st.isDir then Some(n) else None;
    }

    /** One query of an item's cache. */
    method QueryItem(p: FSItem, st: Stat) returns (count: int)
      requires Linked() && Has(p)
      modifies p`mtime, p`cacheDircount
      ensures Linked() && Has(p)
      ensures Caches() == old(Caches())[p.pos := Query(old(Caches())[p.pos], st)]
      ensures st.isDir ==> count == Caches()[p.pos].count
    {
      hide Volume.Linked, Volume.Caches, Volume.CachesOf;
      ghost var caches := Caches();
      var cached := true;
      if st.mtime > p.mtime {
        StoreMtime(p, st.mtime);
        cached := false;
      }
      count := p.cacheDircount;
      if st.isDir && !cached {
        count := CountEntries(st.entries);
        StoreCount(p, count);
      }
      assert Caches()[p.pos] == Query(caches[p.pos], st);
      assert Caches() == caches[p.pos := Query(caches[p.pos], st)];
    }

    method StoreMtime(p: FSItem, mtime: int)
      requires Linked() && Has(p)
      modifies p`mtime
      ensures Linked() && Has(p)
      ensures Caches() == old(Caches())[p.pos := old(Caches())[p.pos].(mtime := mtime)]
    {
      hide Volume.Caches, Volume.CachesOf;
      p.mtime := mtime;
      forall k | 0 <= k < |items| ensures ItemOk(items, view, k) && (k != p.pos ==> items[k] != p) {
        assert old(ItemOk(items, view, k));
      }
    }

    method StoreCount(p: FSItem, count: int)
      requires Linked() && Has(p)
      modifies p`cacheDircount
      ensures Linked() && Has(p)
      ensures Caches() == old(Caches())[p.pos := old(Caches())[p.pos].(count := count)]
    {
      hide Volume.Caches, Volume.CachesOf;
      p.cacheDircount := count;
      forall k | 0 <= k < |items| ensures ItemOk(items, view, k) && (k != p.pos ==> items[k] != p) {
        assert old(ItemOk(items, view, k));
      }
    }
  }

  /** Count the entries that do not start with a dot. */
  method CountEntries(entries: seq<string>) returns (count: nat)
    ensures count == CountVisible(entries)
  {
    count := 0;
    assert entries[..|entries|] == entries;
    for i := 0 to |entries|
      invariant count == CountVisible(entries[..i])
    {
      assert entries[..i + 1][..i] == entries[..i];
      if Visible(entries[i]) {
        count := count + 1;
      }
    }
  }
}
