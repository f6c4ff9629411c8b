/** Every file-system step keeps the invariant. */
module FileSysProtocol {
  import opened Prelude
  import opened Bitmap
  import opened Inode
  import opened Directory
  import opened FileSys

  // ------------------------------------------------------------- ownership

  /** A free sector is nobody's inode. */
  lemma FreeSector(used: seq<bool>, inodes: map<nat, Extent>, owner: seq<Owner>, k: nat)
    requires Ownership(used, inodes, owner) && k < |used| && !used[k]
    ensures k !in inodes
  {
    assert k in inodes ==> Holds(owner, k, inodes[k]);
  }

  /** Sector k and the data sectors of x, free before, become those of inode k. */
  lemma OwnNew(used: seq<bool>, inodes: map<nat, Extent>, owner: seq<Owner>, k: nat, x: Extent, used1: seq<bool>, owner1: seq<Owner>)
    requires Ownership(used, inodes, owner) && k < |used| && !used[k]
    requires x.start + Sectors(x) <= |used| && !InExtent(x, k)
    requires forall j :: 0 <= j < |used| && InExtent(x, j) ==> !used[j]
    requires |used1| == |owner1| == |used|
    requires forall j :: 0 <= j < |used| ==> used1[j] == (used[j] || j == k || InExtent(x, j))
    requires forall j :: 0 <= j < |used| ==> owner1[j] == if j == k || InExtent(x, j) then Of(k) else owner[j]
    ensures Ownership(used1, inodes[k := x], owner1)
  {
    hide Sectors;
    var inodes1 := inodes[k := x];
    forall i | i in inodes1 ensures Holds(owner1, i, inodes1[i]) {
      if i != k {
        assert Holds(owner, i, inodes[i]) && used[i];
        forall j | InExtent(inodes[i], j) ensures owner1[j] == Of(i) {
          assert owner[j] == Of(i) && used[j];
        }
      }
    }
    forall j | 0 <= j < |used1| && owner1[j].Of?
      ensures owner1[j].inode in inodes1 && (j == owner1[j].inode || InExtent(inodes1[owner1[j].inode], j))
    {
      if !(j == k || InExtent(x, j)) {
        assert owner[j].inode in inodes && owner[j].inode != k;
      }
    }
  }

  /** Data sectors of x, free before, become nobody's. */
  lemma OwnLeak(used: seq<bool>, inodes: map<nat, Extent>, owner: seq<Owner>, x: Extent, used1: seq<bool>, owner1: seq<Owner>)
    requires Ownership(used, inodes, owner)
    requires forall j :: 0 <= j < |used| && InExtent(x, j) ==> !used[j]
    requires |used1| == |owner1| == |used|
    requires forall j :: 0 <= j < |used| ==> used1[j] == (used[j] || InExtent(x, j))
    requires forall j :: 0 <= j < |used| ==> owner1[j] == if InExtent(x, j) then Leaked else owner[j]
    ensures Ownership(used1, inodes, owner1)
  {
    hide Sectors;
    forall i | i in inodes ensures Holds(owner1, i, inodes[i]) {
      assert Holds(owner, i, inodes[i]) && used[i];
      forall j | InExtent(inodes[i], j) ensures owner1[j] == Of(i) {
        assert owner[j] == Of(i) && used[j];
      }
    }
  }

  /** All sectors of inode i become free. */
  lemma OwnRelease(used: seq<bool>, inodes: map<nat, Extent>, owner: seq<Owner>, i: nat, used1: seq<bool>, owner1: seq<Owner>)
    requires Ownership(used, inodes, owner) && i in inodes
    requires |used1| == |owner1| == |used|
    requires forall j :: 0 <= j < |used| ==> used1[j] == (used[j] && !(j == i || InExtent(inodes[i], j)))
    requires forall j :: 0 <= j < |used| ==> owner1[j] == if j == i || InExtent(inodes[i], j) then Free else owner[j]
    ensures Ownership(used1, inodes - {i}, owner1)
  {
    hide Sectors;
    var inodes1 := inodes - {i};
    assert Holds(owner, i, inodes[i]);
    forall a | a in inodes1 ensures Holds(owner1, a, inodes1[a]) {
      assert Holds(owner, a, inodes[a]);
    }
    forall j | 0 <= j < |used1| && owner1[j].Of?
      ensures owner1[j].inode in inodes1 && (j == owner1[j].inode || InExtent(inodes1[owner1[j].inode], j))
    {
      assert owner[j] == owner1[j];
    }
  }

  // ---------------------------------------------------------------- naming

  /** A new inode, entered in slot n whatever stood there. */
  lemma NamingCreate(inodes: map<nat, Extent>, es: seq<Entry>, table: map<nat, OpenInode>, k: nat, x: Extent, n: nat, name: Name)
    requires Naming(inodes, es, table) && k !in inodes && n < |es|
    ensures Naming(inodes[k := x], es[n := Entry(k, name, true)], table)
  {
    var es1 := es[n := Entry(k, name, true)];
    forall i | i in table && table[i].removed ensures !Named(es1, i) {
      forall m | 0 <= m < |es1| ensures !(es1[m].inUse && es1[m].sector == i) {
        assert es[m].inUse && es[m].sector == i ==> Named(es, i);
      }
    }
  }

  /** Opening an inode that is named, or already open. */
  lemma NamingOpen(inodes: map<nat, Extent>, es: seq<Entry>, table: map<nat, OpenInode>, i: nat)
    requires Naming(inodes, es, table) && i in inodes
    ensures Naming(inodes, es, OpenIn(table, i))
  {
  }

  /** A change of counters only. */
  lemma NamingCounters(inodes: map<nat, Extent>, es: seq<Entry>, table: map<nat, OpenInode>, i: nat, x: OpenInode)
    requires Naming(inodes, es, table) && i in table && x.removed == table[i].removed
    ensures Naming(inodes, es, table[i := x])
  {
  }

  lemma NamingForget(inodes: map<nat, Extent>, es: seq<Entry>, table: map<nat, OpenInode>, i: nat)
    requires Naming(inodes, es, table) && i in table
    ensures Naming(inodes, es, table - {i})
  {
  }

  lemma NamingGone(inodes: map<nat, Extent>, es: seq<Entry>, table: map<nat, OpenInode>, i: nat)
    requires Naming(inodes, es, table) && i in table && table[i].removed
    ensures Naming(inodes - {i}, es, table - {i})
  {
    forall n | 0 <= n < |es| && es[n].inUse ensures es[n].sector != i {
      assert es[n].sector == i ==> Named(es, i);
    }
  }

  /** Erasing the entry of an open inode and marking it removed. */
  lemma NamingRemove(inodes: map<nat, Extent>, es: seq<Entry>, table: map<nat, OpenInode>, n: nat, x: OpenInode)
    requires Naming(inodes, es, table) && n < |es| && es[n].inUse && x.removed
    ensures Naming(inodes, es[n := es[n].(inUse := false)], table[es[n].sector := x])
  {
    var es1, i := es[n := es[n].(inUse := false)], es[n].sector;
    assert !Named(es1, i);
    forall a | a in table && table[a].removed ensures !Named(es1, a) {
      forall m | 0 <= m < |es1| ensures !(es1[m].inUse && es1[m].sector == a) {
        assert es[m].inUse && es[m].sector == a ==> Named(es, a);
      }
    }
  }

  // --------------------------------------------------------------- counters

  lemma OpenSets(handles: map<nat, Handle>, i: nat, h: nat, j: nat)
    requires h !in handles
    ensures Users(handles[h := Handle(i, false)], j) == Users(handles, j) + if j == i then {h} else {}
    ensures Deniers(handles[h := Handle(i, false)], j) == Deniers(handles, j)
    ensures h !in Users(handles, j)
  {
  }

  lemma CountedOpen(table: map<nat, OpenInode>, handles: map<nat, Handle>, i: nat, h: nat)
    requires Counted(table, handles) && h !in handles
    ensures Counted(OpenIn(table, i), handles[h := Handle(i, false)])
  {
    var table1, handles1 := OpenIn(table, i), handles[h := Handle(i, false)];
    assert i !in table ==> Users(handles, i) == {} && Deniers(handles, i) == {};
    forall j | j in table1 ensures CountAt(table1[j], handles1, j) {
      OpenSets(handles, i, h, j);
      hide Users, Deniers;
      assert j in table ==> CountAt(table[j], handles, j);
    }
  }

  lemma CloseSets(handles: map<nat, Handle>, h: nat, j: nat)
    requires h in handles && !handles[h].denied
    ensures Users(handles - {h}, j) == Users(handles, j) - {h}
    ensures Deniers(handles - {h}, j) == Deniers(handles, j)
    ensures h in Users(handles, j) <==> handles[h].inode == j
  {
  }

  /** Closing a handle that does not deny writes. */
  lemma CountedClose(table: map<nat, OpenInode>, handles: map<nat, Handle>, h: nat)
    requires Counted(table, handles) && h in handles && !handles[h].denied
    ensures handles[h].inode in table && Counted(CloseIn(table, handles[h].inode), handles - {h})
  {
    var handles1, i := handles - {h}, handles[h].inode;
    var table1 := CloseIn(table, i);
    assert CountAt(table[i], handles, i);
    if table[i].count <= 1 {
      CloseSets(handles, h, i);
      LastUser(Users(handles, i), h);
      forall g | g in handles1 ensures handles1[g].inode != i {
        assert g in Users(handles, i) <==> handles[g].inode == i;
      }
    }
    forall j | j in table1 ensures CountAt(table1[j], handles1, j) {
      CloseSets(handles, h, j);
      hide Users, Deniers;
      assert CountAt(table[j], handles, j);
    }
  }

  lemma LastUser(users: set<nat>, h: nat)
    requires h in users && |users| <= 1
    ensures users == {h}
  {
    assert |users - {h}| == |users| - 1;
    assert users == {h} + (users - {h});
  }

  lemma DenySets(handles: map<nat, Handle>, h: nat, denied: bool, j: nat)
    requires h in handles && handles[h].denied != denied
    ensures
      var handles1 := handles[h := handles[h].(denied := denied)];
      && Users(handles1, j) == Users(handles, j)
      && (handles[h].inode != j ==> Deniers(handles1, j) == Deniers(handles, j))
      && (handles[h].inode == j ==>
        Deniers(handles1, j) == if denied then Deniers(handles, j) + {h} else Deniers(handles, j) - {h})
      && (h in Deniers(handles, j) <==> !denied && handles[h].inode == j)
  {
  }

  lemma CountedDeny(table: map<nat, OpenInode>, handles: map<nat, Handle>, h: nat, denied: bool, deny: nat)
    requires Counted(table, handles) && h in handles && handles[h].denied != denied
    requires deny == table[handles[h].inode].deny + (if denied then 1 else -1)
    ensures
      var i := handles[h].inode;
      Counted(table[i := table[i].(deny := deny)], handles[h := handles[h].(denied := denied)])
  {
    var handles1, i := handles[h := handles[h].(denied := denied)], handles[h].inode;
    var table1 := table[i := table[i].(deny := deny)];
    forall j | j in table1 ensures CountAt(table1[j], handles1, j) {
      DenySets(handles, h, denied, j);
      hide Users, Deniers;
      assert CountAt(table[j], handles, j);
    }
  }

  /** A handle that denies is counted. */
  lemma DenierCounted(table: map<nat, OpenInode>, handles: map<nat, Handle>, h: nat)
    requires Counted(table, handles) && h in handles && handles[h].denied
    ensures handles[h].inode in table && table[handles[h].inode].deny > 0
  {
    assert CountAt(table[handles[h].inode], handles, handles[h].inode);
    assert h in Deniers(handles, handles[h].inode);
  }

  lemma CountedMark(table: map<nat, OpenInode>, handles: map<nat, Handle>, i: nat, x: OpenInode)
    requires Counted(table, handles) && i in table && x.count == table[i].count && x.deny == table[i].deny
    ensures Counted(table[i := x], handles)
  {
    var table1 := table[i := x];
    forall j | j in table1 ensures CountAt(table1[j], handles, j) {
      assert CountAt(table[j], handles, j);
    }
  }

  // ------------------------------------------------------------------ steps

  lemma ReleaseInv(s: Fs, i: nat, written: bool)
    requires Ownership(s.used, s.inodes, s.owner) && i in s.inodes
    ensures HasRoom(s, i)
    ensures
      var s1 := Release(s, i, written);
      Ownership(s1.used, s1.inodes, s1.owner) && (s1.saved.Some? ==> s1.saved.value == s1.used)
  {
    assert Holds(s.owner, i, s.inodes[i]);
    var s1 := Release(s, i, written);
    OwnRelease(s.used, s.inodes, s.owner, i, s1.used, s1.owner);
  }

  /** Closing an inode: either its count drops, or it leaves the table, and if
      it was removed its sectors are released. */
  lemma CloseInv(s: Fs, i: nat, written: bool)
    requires Ownership(s.used, s.inodes, s.owner) && Naming(s.inodes, s.es, s.table) && i in s.table
    requires s.saved.Some? ==> s.saved.value == s.used
    ensures
      var s1 := Close(s, i, written);
      && Ownership(s1.used, s1.inodes, s1.owner) && Naming(s1.inodes, s1.es, s1.table)
      && s1.table == CloseIn(s.table, i) && s1.handles == s.handles && s1.es == s.es
      && (s1.saved.Some? ==> s1.saved.value == s1.used)
      && (i in s1.inodes <==> !(s.table[i].count <= 1 && s.table[i].removed))
  {
    ReleaseInv(s, i, written);
    ReleaseInv(s.(table := CloseIn(s.table, i)), i, written);
    hide Ownership, Fill;
    if s.table[i].count > 1 {
      NamingCounters(s.inodes, s.es, s.table, i, s.table[i].(count := s.table[i].count - 1));
    } else if s.table[i].removed {
      NamingGone(s.inodes, s.es, s.table, i);
    } else {
      NamingForget(s.inodes, s.es, s.table, i);
    }
  }

  lemma AllowInv(s: Fs, h: nat)
    requires FsInv(s) && h in s.handles
    ensures
      var s1 := AllowIn(s, h);
      && FsInv(s1) && s1.inodes == s.inodes && s1.used == s.used && s1.es == s.es && s1.owner == s.owner
      && s1.handles == s.handles[h := s.handles[h].(denied := false)]
      && s1.table.Keys == s.table.Keys
      && forall i :: i in s.table ==> s1.table[i].count == s.table[i].count && s1.table[i].removed == s.table[i].removed
  {
    hide Ownership, Naming, Counted;
    var i := s.handles[h].inode;
    if s.handles[h].denied {
      DenierCounted(s.table, s.handles, h);
      CountedDeny(s.table, s.handles, h, false, s.table[i].deny - 1);
      NamingCounters(s.inodes, s.es, s.table, i, s.table[i].(deny := s.table[i].deny - 1));
    }
  }

  lemma CloseFileInv(s: Fs, h: nat, written: bool)
    requires FsInv(s) && h in s.handles
    ensures FsInv(DoClose(s, h, written))
  {
    hide Ownership, Naming, Counted, AllowIn, Close;
    AllowInv(s, h);
    var s1, i := AllowIn(s, h), s.handles[h].inode;
    CountedClose(s1.table, s1.handles, h);
    CloseInv(s1.(handles := s1.handles - {h}), i, written);
  }

  lemma OpenInv(s: Fs, i: nat, h: nat)
    requires FsInv(s) && h !in s.handles && i in s.inodes
    ensures FsInv(s.(table := OpenIn(s.table, i), handles := s.handles[h := Handle(i, false)]))
  {
    hide Ownership, Naming, Counted, Named;
    CountedOpen(s.table, s.handles, i, h);
    NamingOpen(s.inodes, s.es, s.table, i);
  }

  lemma DenyInv(s: Fs, h: nat)
    requires FsInv(s) && h in s.handles
    ensures FsInv(DenyIn(s, h))
  {
    hide Ownership, Naming, Counted;
    var i := s.handles[h].inode;
    if !s.handles[h].denied && i in s.table {
      CountedDeny(s.table, s.handles, h, true, s.table[i].deny + 1);
      NamingCounters(s.inodes, s.es, s.table, i, s.table[i].(deny := s.table[i].deny + 1));
    }
  }

  lemma MarkedInv(s: Fs, n: nat, x: OpenInode, written: bool)
    requires FsInv(s) && n < |s.es| && s.es[n].inUse
    requires x == OpenIn(s.table, s.es[n].sector)[s.es[n].sector].(removed := true)
    ensures
      var i := s.es[n].sector;
      FsInv(Close(s.(es := s.es[n := s.es[n].(inUse := false)], table := s.table[i := x]), i, written))
  {
    hide Ownership, Naming, Close, Counted, OpenIn, CloseIn;
    var i := s.es[n].sector;
    assert x.removed;
    NamingRemove(s.inodes, s.es, s.table, n, x);
    RemoveCounted(s.table, s.handles, i, x);
    CloseInv(s.(es := s.es[n := s.es[n].(inUse := false)], table := s.table[i := x]), i, written);
  }

  /** An inode that is not open is removed at once, with its sectors; an open
      one is only marked. */
  lemma RemoveInv(s: Fs, e: Event)
    requires FsInv(s) && e.Remove?
    ensures FsInv(DoRemove(s, e))
  {
    hide FsInv, Close, Erases;
    if Erases(s, e).Some? {
      var n := Erases(s, e).value;
      var i := s.es[n].sector;
      var table := OpenIn(s.table, i);
      var x := table[i].(removed := true);
      assert table[i := x] == s.table[i := x];
      MarkedInv(s, n, x, e.written);
    }
  }

  lemma RemoveCounted(table: map<nat, OpenInode>, handles: map<nat, Handle>, i: nat, x: OpenInode)
    requires Counted(table, handles) && x == OpenIn(table, i)[i].(removed := true)
    ensures Counted(CloseIn(table[i := x], i), handles)
  {
    var table1 := CloseIn(table[i := x], i);
    if i in table {
      assert CountAt(table[i], handles, i);
      CountedMark(table, handles, i, table[i].(removed := true));
      assert table1 == table[i := table[i].(removed := true)];
    } else {
      assert table1 == table;
    }
  }

  /** The two groups of sectors a creation found do not meet. */
  lemma FoundApart(used: seq<bool>, k: nat, x: Extent)
    requires k < |used| && !used[k] && Group(Fill(used, k, 1, true), x.start, Sectors(x), false)
    ensures x.start + Sectors(x) <= |used| && !InExtent(x, k)
    ensures forall j :: 0 <= j < |used| && InExtent(x, j) ==> !used[j]
  {
    var used1 := Fill(used, k, 1, true);
    assert used1[k];
    forall j | 0 <= j < |used| && InExtent(x, j) ensures !used[j] && j != k {
      assert !used1[j];
    }
  }

  lemma AddedInv(s: Fs, k: nat, x: Extent, name: Name, n: nat)
    requires FsInv(s) && k < |s.used| && !s.used[k] && n < |s.es|
    requires Group(Fill(s.used, k, 1, true), x.start, Sectors(x), false)
    ensures
      var used := Fill(Fill(s.used, k, 1, true), x.start, Sectors(x), true);
      FsInv(s.(used := used, saved := Some(used), inodes := s.inodes[k := x], es := s.es[n := Entry(k, name, true)],
               owner := Own(Own(s.owner, k, 1, Of(k)), x.start, Sectors(x), Of(k))))
  {
    FreeSector(s.used, s.inodes, s.owner, k);
    FoundApart(s.used, k, x);
    NamingCreate(s.inodes, s.es, s.table, k, x, n, name);
    hide Sectors, Naming, Counted;
    OwnNew(s.used, s.inodes, s.owner, k, x, Fill(Fill(s.used, k, 1, true), x.start, Sectors(x), true),
           Own(Own(s.owner, k, 1, Of(k)), x.start, Sectors(x), Of(k)));
  }

  lemma LeakedInv(s: Fs, k: nat, x: Extent, written: bool)
    requires FsInv(s) && k < |s.used| && !s.used[k]
    requires Group(Fill(s.used, k, 1, true), x.start, Sectors(x), false)
    ensures
      var used := Fill(Fill(Fill(s.used, k, 1, true), x.start, Sectors(x), true), k, 1, false);
      FsInv(s.(used := used, saved := Saved(used, written), owner := Own(s.owner, x.start, Sectors(x), Leaked)))
  {
    FoundApart(s.used, k, x);
    hide Sectors, Naming, Counted;
    OwnLeak(s.used, s.inodes, s.owner, x, Fill(Fill(Fill(s.used, k, 1, true), x.start, Sectors(x), true), k, 1, false),
            Own(s.owner, x.start, Sectors(x), Leaked));
  }

  /** A created file, or the leak that a refused directory entry leaves. */
  lemma CreatedInv(s: Fs, e: Event, k: nat, d: nat)
    requires FsInv(s) && e.Create? && k < |s.used| && !s.used[k]
    requires Group(Fill(s.used, k, 1, true), d, Sectors(Extent(d, e.length)), false)
    ensures FsInv(Created(s, e, k, d))
  {
    hide FsInv, Group, Fill, Own, Sectors, Slot;
    if Addable(s.es, e.name, e.dirMemory) {
      AddedInv(s, k, Extent(d, e.length), e.name, Slot(s.es, e.dirMemory.scan));
    } else {
      LeakedInv(s, k, Extent(d, e.length), e.written3);
    }
  }

  lemma CreateInv(s: Fs, e: Event)
    requires FsInv(s) && e.Create?
    ensures FsInv(DoCreate(s, e))
  {
    hide Ownership, Naming, Counted, Created, Scan, Sectors;
    var a := Allocate(s.used, 1, e.written);
    ScanIsFirst(s.used, 0, 1, false);
    if e.rootOpen && a.Some? && e.memory {
      var used := Fill(s.used, a.value, 1, true);
      ScanIsFirst(used, 0, Sectors(Extent(0, e.length)), false);
      var b := Allocate(used, Sectors(Extent(0, e.length)), e.written2);
      if b.Some? {
        SameSectors(b.value, e.length);
        CreatedInv(s, e, a.value, b.value);
      }
    }
  }

  lemma SameSectors(d: nat, length: nat)
    ensures Sectors(Extent(0, length)) == Sectors(Extent(d, length))
  {
  }

  lemma NextInv(s: Fs, e: Event)
    requires FsInv(s) && Enabled(s, e)
    ensures FsInv(Next(s, e))
  {
    match e
    case Create(_, _, _, _, _, _, _, _) => CreateInv(s, e);
    case Open(name, h, _, lookup, _, _) =>
      var slot := FoundAt(s.es, name, lookup);
      if slot.Some? { OpenInv(s, s.es[slot.value].sector, h); }
    case Reopen(h, h2, _) => OpenInv(s, s.handles[h].inode, h2);
    case CloseFile(h, written) => CloseFileInv(s, h, written);
    case Remove(_, _, _, _, _, _) => RemoveInv(s, e);
    case Deny(h) => DenyInv(s, h);
    case Allow(h) => AllowInv(s, h);
  }

  lemma BlankInv(n: nat)
    requires n >= 2
    ensures FsInv(Blank(n))
  {
    var s := Blank(n);
    assert Users(s.handles, 0) == {0};
    assert Deniers(s.handles, 0) == {};
    forall i | i in s.inodes ensures Holds(s.owner, i, s.inodes[i]) {
    }
  }
}
