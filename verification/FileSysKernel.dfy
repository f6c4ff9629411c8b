/** The file system in place: the free map, the list of open inodes and the
    operations on files. */
module FileSysKernel {
  import opened Prelude
  import opened Bitmap
  import opened Inode
  import opened Directory
  import opened FileSys
  import opened FileSysProtocol
  import opened FileSysTheorems
  import opened FileSysCalls

  class Volume {
    /** The free map, one bit per sector. */
    const used: BitArray
    /** The contents of the free map file, if known. */
    ghost var saved: Option<seq<bool>>
    /** On-disk inodes. */
    var inodes: map<nat, Extent>
    /** The entries of the root directory. */
    var es: seq<Entry>
    /** open_inodes: the order of the list, and the inodes on it. */
    var openList: seq<nat>
    var table: map<nat, OpenInode>
    var handles: map<nat, Handle>
    ghost var owner: seq<Owner>

    /** free_map_init: inodes 0 and 1 exist, without data. */
    constructor (cnt: nat)
      requires cnt >= 2
      ensures Valid() && fresh(used.words) && St() == Blank(cnt)
    {
      hide FsInv, BitArray.View, Blank;
      var b := Blank(cnt);
      used := new BitArray(cnt);
      saved, owner := b.saved, b.owner;
      inodes, es, table, handles := b.inodes, b.es, b.table, b.handles;
      openList := [0];
      new;
      used.Mark(0);
      used.Mark(1);
      BlankIs(cnt, St());
    }

    ghost function St(): (s: Fs)
      requires used.Valid()
      reads this, used.words
    {
      Fs(used.View(), saved, inodes, es, table, handles, owner)
    }

    ghost predicate Valid()
      reads this, used.words
    {
      && used.Valid() && FsInv(St())
      && Listed(openList, table)
    }

    /** free_map_allocate; ghost ownership is the caller's to record. */
    method FreeMapAllocate(cnt: nat, written: bool) returns (r: Option<nat>)
      requires used.Valid()
      modifies used.words, `saved
      ensures r == Allocate(old(used.View()), cnt, written)
      ensures r.Some? ==> Group(old(used.View()), r.value, cnt, false) && used.View() == Fill(old(used.View()), r.value, cnt, true)
      ensures r.None? ==> used.View() == old(used.View())
      ensures
        saved ==
        if r.Some? then Some(used.View()) else if Scan(old(used.View()), 0, cnt, false).None? then old(saved) else None
    {
      r := used.ScanAndFlip(0, cnt, false);
      if r.Some? && !written {
        ghost var was := old(used.View());
        FillBack(was, r.value, cnt, false);
        used.SetMultiple(r.value, cnt, false);
        saved := None;
        return None;
      }
      if r.Some? { saved := Some(used.View()); }
    }

    /** free_map_release. */
    method FreeMapRelease(sector: nat, cnt: nat, written: bool)
      requires used.Valid()
      requires sector + cnt <= used.cnt
      modifies used.words, `saved
      ensures used.View() == Fill(old(used.View()), sector, cnt, false) && saved == Saved(used.View(), written)
    {
      used.SetMultiple(sector, cnt, false);
      saved := if written then Some(used.View()) else None;
    }

    /** inode_open: search the list of open inodes, or push a new one. */
    method InodeOpen(i: nat, memory: bool) returns (ok: bool)
      requires used.Valid() && Listed(openList, table)
      modifies `table, `openList
      ensures Listed(openList, table)
      ensures ok <==> i in old(table) || memory
      ensures St() == if ok then old(St().(table := OpenIn(table, i))) else old(St())
    {
      var e := 0;
      while e < |openList|
        invariant 0 <= e <= |openList| && i !in openList[..e]
      {
        if openList[e] == i {
          table := table[i := table[i].(count := table[i].count + 1)];
          return true;
        }
        e := e + 1;
      }
      assert openList[..e] == openList;
      if !memory { return false; }
      openList := [i] + openList;
      table := table[i := OpenInode(1, false, 0)];
      return true;
    }

    /** inode_close. */
    method InodeClose(i: nat, written: bool)
      requires used.Valid()
      requires i in table && Listed(openList, table) && HasRoom(St(), i)
      modifies this, used.words
      ensures St() == Close(old(St()), i, written) && Listed(openList, table)
    {
      hide Fill, Own, Sectors;
      if table[i].count <= 1 {
        ListedRemove(openList, table, i);
        var removed := table[i].removed;
        openList := Without(openList, i);
        table := table - {i};
        if removed {
          var e := inodes[i];
          FreeMapRelease(i, 1, written);
          FreeMapRelease(e.start, Sectors(e), written);
          inodes := inodes - {i};
          owner := Own(Own(owner, i, 1, Free), e.start, Sectors(e), Free);
        }
      } else {
        table := table[i := table[i].(count := table[i].count - 1)];
      }
    }

    /** lookup: the slot of a name; read number good finds no memory. */
    method LookupName(name: Name, good: nat) returns (r: Option<nat>)
      ensures r == FoundAt(es, name, good)
    {
      ghost var cut := Cut(es, good);
      var i := 0;
      while i < |es| && i < good
        invariant 0 <= i <= |cut| && Find(cut, name, 0) == Find(cut, name, i)
      {
        if es[i].inUse && es[i].name == name { return Some(i); }
        i := i + 1;
      }
      return None;
    }

    /** dir_add: the checks, the search for a slot and the write. */
    method DirAdd(name: Name, sector: nat, m: Memory) returns (ok: bool)
      requires used.Valid()
      modifies `es
      ensures ok <==> Addable(old(es), name, m)
      ensures St() == if ok then old(St().(es := Added(es, name, sector, m.scan))) else old(St())
    {
      if |name| == 0 || |name| > NAME_MAX { return false; }
      var found := LookupName(name, m.lookup);
      if found.Some? { return false; }
      ghost var cut := Cut(es, m.scan);
      var i := 0;
      while i < |es| && i < m.scan && es[i].inUse
        invariant 0 <= i <= |cut| && FreeSlot(cut, 0) == FreeSlot(cut, i)
      {
        i := i + 1;
      }
      if i == |es| || !m.write { return false; }
      es := es[i := Entry(sector, name, true)];
      return true;
    }

    /** filesys_create. */
    method FilesysCreate(name: Name, length: nat, rootOpen: bool, memory: bool, written: bool, written2: bool, written3: bool,
                         dirMemory: Memory)
      returns (ok: bool)
      requires Valid()
      modifies this, used.words
      ensures Valid()
      ensures
        var ev := Create(name, length, rootOpen, memory, written, written2, written3, dirMemory);
        St() == DoCreate(old(St()), ev) && (ok <==> Succeeds(old(St()), ev))
    {
      ghost var s := St();
      var ev := Create(name, length, rootOpen, memory, written, written2, written3, dirMemory);
      hide FsInv, Scan, Sectors, Fill, Own, Group, Created, Listed, Addable;
      CreateInv(s, ev);
      if !rootOpen { return false; }
      var a := FreeMapAllocate(1, written);
      if a.None? { return false; }
      var k := a.value;
      ghost var used1 := used.View();
      FillBack(s.used, k, 1, false);
      InRange(s.used, k, 1, false);
      var b := None;
      if memory {
        b := FreeMapAllocate(Sectors(Extent(0, length)), written2);
      }
      if b.None? {
        FreeMapRelease(k, 1, written3);
        return false;
      }
      var d := b.value;
      InRange(used1, d, Sectors(Extent(0, length)), false);
      SameSectors(d, length);
      ok := EnterFile(s, ev, k, d);
    }

    /** The end of filesys_create: dir_add, and the release if it fails. */
    method EnterFile(ghost s: Fs, e: Event, k: nat, d: nat) returns (ok: bool)
      requires used.Valid()
      requires e.Create? && k < |s.used| && d + Sectors(Extent(d, e.length)) <= |s.used|
      requires used.View() == Fill(Fill(s.used, k, 1, true), d, Sectors(Extent(d, e.length)), true)
      requires St() == s.(used := used.View(), saved := Some(used.View()))
      modifies this, used.words
      ensures St() == Created(s, e, k, d) && openList == old(openList) && table == old(table)
      ensures ok <==> Addable(s.es, e.name, e.dirMemory)
    {
      hide Fill, Own, Sectors, Addable, Added;
      ok := DirAdd(e.name, k, e.dirMemory);
      if ok {
        inodes := inodes[k := Extent(d, e.length)];
        owner := Own(Own(owner, k, 1, Of(k)), d, Sectors(Extent(d, e.length)), Of(k));
      } else {
        FreeMapRelease(k, 1, e.written3);
        owner := Own(owner, d, Sectors(Extent(d, e.length)), Leaked);
      }
    }

    /** filesys_open: h names the new struct file. */
    method FilesysOpen(name: Name, h: nat, rootOpen: bool, lookup: nat, memory: bool, fileMemory: bool) returns (ok: bool)
      requires Valid() && h !in handles
      modifies this, used.words
      ensures Valid() && St() == DoOpen(old(St()), Open(name, h, rootOpen, lookup, memory, fileMemory))
      ensures ok <==> Opens(old(St()), Open(name, h, rootOpen, lookup, memory, fileMemory))
      ensures ok ==>
        exists n: nat :: FirstMatch(old(es), name, lookup, n) && handles == old(handles)[h := Handle(old(es)[n].sector, false)]
      ensures !ok ==> St() == old(St())
    {
      OpensWhich(St(), Open(name, h, rootOpen, lookup, memory, fileMemory));
      hide FsInv, Listed, BitArray.View, DoOpen, Opens;
      OpenKeeps(St(), Open(name, h, rootOpen, lookup, memory, fileMemory));
      ok := OpenFile(name, h, rootOpen, lookup, memory, fileMemory);
    }

    /** filesys_open, less the invariant. */
    method OpenFile(name: Name, h: nat, rootOpen: bool, lookup: nat, memory: bool, fileMemory: bool) returns (ok: bool)
      requires Valid() && h !in handles
      modifies this, used.words
      ensures Listed(openList, table) && St() == DoOpen(old(St()), Open(name, h, rootOpen, lookup, memory, fileMemory))
      ensures ok <==> Opens(old(St()), Open(name, h, rootOpen, lookup, memory, fileMemory))
    {
      hide FsInv, Listed, Close, Fill, Own, Sectors, HasRoom, BitArray.View, OpenIn, FoundAt;
      ghost var s := St();
      ok := false;
      var slot := LookupName(name, lookup);
      if rootOpen && slot.Some? {
        var i := es[slot.value].sector;
        EntryRoom(s, slot.value);
        var found := InodeOpen(i, memory);
        if found && fileMemory {
          NewFile(h, i);
          ok := true;
        } else if found {
          CloseAgain(s, i);
        }
      }
    }

    /** file_open with memory for the struct file. */
    method NewFile(h: nat, i: nat)
      requires used.Valid()
      modifies `handles
      ensures St() == old(St().(handles := handles[h := Handle(i, false)]))
    {
      handles := handles[h := Handle(i, false)];
    }

    /** An inode just opened is closed again, as where file_open or the write of
        dir_remove fails. */
    method CloseAgain(ghost s: Fs, i: nat)
      requires used.Valid() && St() == s.(table := OpenIn(s.table, i)) && Listed(openList, table) && HasRoom(s, i)
      requires i in s.table ==> s.table[i].count > 0 && !s.table[i].removed
      modifies this, used.words
      ensures Listed(openList, table) && St() == s
    {
      hide Listed, Close, HasRoom, BitArray.View;
      OpenThenClose(s.table, i);
      RoomSame(s, St(), i);
      CloseUndoes(s, St(), i);
      InodeClose(i, true);
    }

    /** file_close. */
    method FileClose(h: nat, written: bool)
      requires Valid() && h in handles
      modifies this, used.words
      ensures Valid() && St() == DoClose(old(St()), h, written)
    {
      hide FsInv, Listed, Close, Fill, Own, Sectors, HasRoom, AllowIn, BitArray.View;
      ghost var s := St();
      CloseFileInv(s, h, written);
      HandleRoom(s, h);
      AllowInv(s, h);
      var i := handles[h].inode;
      FileAllowWriteTo(h);
      handles := handles - {h};
      RoomSame(s, St(), i);
      InodeClose(i, written);
    }

    /** file_allow_write. */
    method FileAllowWriteTo(h: nat)
      requires used.Valid()
      requires FsInv(St()) && Listed(openList, table) && h in handles
      modifies `handles, `table
      ensures St() == AllowIn(old(St()), h) && Listed(openList, table)
    {
      hide FsInv, Listed, HasRoom;
      HandleRoom(St(), h);
      if handles[h].denied {
        DenyPositive(St(), h);
        var i := handles[h].inode;
        ListedMark(openList, table, i, table[i].(deny := table[i].deny - 1));
        handles := handles[h := handles[h].(denied := false)];
        table := table[i := table[i].(deny := table[i].deny - 1)];
      }
    }

    /** file_deny_write. */
    method FileDenyWrite(h: nat)
      requires Valid() && h in handles
      modifies `handles, `table
      ensures Valid() && St() == DenyIn(old(St()), h)
    {
      hide FsInv, HasRoom, Listed;
      DenyInv(St(), h);
      HandleRoom(St(), h);
      if !handles[h].denied {
        var i := handles[h].inode;
        ListedMark(openList, table, i, table[i].(deny := table[i].deny + 1));
        handles := handles[h := handles[h].(denied := true)];
        table := table[i := table[i].(deny := table[i].deny + 1)];
      }
    }

    /** filesys_remove. */
    method FilesysRemove(name: Name, rootOpen: bool, lookup: nat, memory: bool, entryMemory: bool, written: bool)
      returns (ok: bool)
      requires Valid()
      modifies this, used.words
      ensures Valid() && St() == DoRemove(old(St()), Remove(name, rootOpen, lookup, memory, entryMemory, written))
      ensures ok <==> Erases(old(St()), Remove(name, rootOpen, lookup, memory, entryMemory, written)).Some?
    {
      hide FsInv, Listed, BitArray.View, DoRemove, Erases;
      RemoveInv(St(), Remove(name, rootOpen, lookup, memory, entryMemory, written));
      ok := RemoveFile(name, rootOpen, lookup, memory, entryMemory, written);
    }

    /** filesys_remove, less the invariant. */
    method RemoveFile(name: Name, rootOpen: bool, lookup: nat, memory: bool, entryMemory: bool, written: bool)
      returns (ok: bool)
      requires Valid()
      modifies this, used.words
      ensures Listed(openList, table)
      ensures St() == DoRemove(old(St()), Remove(name, rootOpen, lookup, memory, entryMemory, written))
      ensures ok <==> Erases(old(St()), Remove(name, rootOpen, lookup, memory, entryMemory, written)).Some?
    {
      hide FsInv, Listed, Close, Fill, Own, Sectors, HasRoom, BitArray.View, FoundAt;
      ghost var s := St();
      ok := false;
      var slot := LookupName(name, lookup);
      if rootOpen && slot.Some? {
        var i := es[slot.value].sector;
        EntryRoom(s, slot.value);
        var found := InodeOpen(i, memory);
        if found && entryMemory {
          RoomSame(s, St(), i);
          EraseAndClose(slot.value, i, written);
          ok := true;
        } else if found {
          CloseAgain(s, i);
        }
      }
    }

    /** The end of dir_remove, on the open inode. */
    method EraseAndClose(n: nat, i: nat, written: bool)
      requires used.Valid() && i in table && Listed(openList, table) && HasRoom(St(), i) && n < |es|
      modifies this, used.words
      ensures Listed(openList, table)
      ensures
        St() ==
        Close(old(St().(es := es[n := es[n].(inUse := false)], table := table[i := table[i].(removed := true)])), i, written)
    {
      hide Listed, Close, HasRoom, BitArray.View;
      ghost var s := St();
      es := es[n := es[n].(inUse := false)];
      ListedMark(openList, table, i, table[i].(removed := true));
      table := table[i := table[i].(removed := true)];
      RoomSame(s, St(), i);
      InodeClose(i, written);
    }
  }

  /** Whether filesys_open returns a file. */
  predicate Opens(s: Fs, e: Event)
    requires e.Open?
  {
    var slot := FoundAt(s.es, e.name, e.lookup);
    e.rootOpen && slot.Some? && (s.es[slot.value].sector in s.table || e.memory) && e.fileMemory
  }

  lemma OpensWhich(s: Fs, e: Event)
    requires e.Open?
    ensures Opens(s, e) ==>
      exists n: nat :: FirstMatch(s.es, e.name, e.lookup, n)
        && DoOpen(s, e).handles == s.handles[e.h := Handle(s.es[n].sector, false)]
    ensures !Opens(s, e) ==> DoOpen(s, e) == s
  {
    if Opens(s, e) { LookupExactly(s.es, e.name, e.lookup, FoundAt(s.es, e.name, e.lookup).value); }
  }

  lemma BlankIs(n: nat, s: Fs)
    requires n >= 2 && s.used == seq(n, k => false)[0 := true][1 := true]
    requires s == Blank(n).(used := s.used)
    ensures s == Blank(n) && FsInv(s) && Listed([0], s.table)
  {
    BlankInv(n);
    assert s.used == Blank(n).used;
  }

  lemma RoomSame(s: Fs, t: Fs, i: nat)
    requires HasRoom(s, i) && t.inodes == s.inodes && |t.used| == |s.used|
    ensures HasRoom(t, i)
  {
  }

  lemma DenyPositive(s: Fs, h: nat)
    requires FsInv(s) && h in s.handles && s.handles[h].denied
    ensures s.handles[h].inode in s.table && s.table[s.handles[h].inode].deny > 0
  {
    DenierCounted(s.table, s.handles, h);
  }

  lemma OpenKeeps(s: Fs, e: Event)
    requires FsInv(s) && e.Open? && e.h !in s.handles
    ensures FsInv(DoOpen(s, e))
  {
    NextInv(s, e);
  }

  /** Closing the inode just opened restores the state. */
  lemma CloseUndoes(s: Fs, t: Fs, i: nat)
    requires t == s.(table := OpenIn(s.table, i)) && CloseIn(t.table, i) == s.table
    requires i in s.table ==> s.table[i].count > 0 && !s.table[i].removed
    ensures Close(t, i, true) == s
  {
  }

  /** The list holds the inodes of the table, each once. */
  ghost predicate Listed(openList: seq<nat>, table: map<nat, OpenInode>) {
    && (forall i :: i in openList <==> i in table)
    && forall a, b :: 0 <= a < b < |openList| ==> openList[a] != openList[b]
  }

  /** list_remove. */
  function Without(list: seq<nat>, i: nat): (r: seq<nat>) {
    if list == [] then [] else if list[0] == i then list[1..] else [list[0]] + Without(list[1..], i)
  }

  lemma {:induction false} WithoutSpec(list: seq<nat>, i: nat)
    requires forall a, b :: 0 <= a < b < |list| ==> list[a] != list[b]
    ensures forall a, b :: 0 <= a < b < |Without(list, i)| ==> Without(list, i)[a] != Without(list, i)[b]
    ensures forall j :: j in Without(list, i) <==> j in list && j != i
  {
    if list != [] {
      assert list == [list[0]] + list[1..];
      assert list[0] !in list[1..];
      if list[0] != i { WithoutSpec(list[1..], i); }
    }
  }

  lemma ListedRemove(openList: seq<nat>, table: map<nat, OpenInode>, i: nat)
    requires Listed(openList, table)
    ensures Listed(Without(openList, i), table - {i})
  {
    WithoutSpec(openList, i);
  }

  lemma ListedMark(openList: seq<nat>, table: map<nat, OpenInode>, i: nat, x: OpenInode)
    requires Listed(openList, table) && i in table
    ensures Listed(openList, table[i := x])
  {
  }

  lemma InRange(s: seq<bool>, i: nat, cnt: nat, v: bool)
    requires Group(s, i, cnt, v)
    ensures i + cnt <= |s|
  {
  }

  lemma EntryRoom(s: Fs, n: nat)
    requires FsInv(s) && n < |s.es| && s.es[n].inUse
    ensures
      var i := s.es[n].sector;
      HasRoom(s, i) && (i in s.table ==> !s.table[i].removed && s.table[i].count > 0)
  {
    var i := s.es[n].sector;
    assert i in s.inodes && Named(s.es, i);
    assert Holds(s.owner, i, s.inodes[i]);
    assert i in s.table ==> CountAt(s.table[i], s.handles, i);
  }

  lemma HandleRoom(s: Fs, h: nat)
    requires FsInv(s) && h in s.handles
    ensures s.handles[h].inode in s.table && HasRoom(s, s.handles[h].inode)
  {
    assert s.handles[h].inode in s.inodes;
    assert Holds(s.owner, s.handles[h].inode, s.inodes[s.handles[h].inode]);
  }

  /** Opening and closing again changes nothing. */
  lemma OpenThenClose(table: map<nat, OpenInode>, i: nat)
    requires i in table ==> table[i].count > 0
    ensures CloseIn(OpenIn(table, i), i) == table
  {
  }
}
