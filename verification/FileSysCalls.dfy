/** What each file-system call does, told by the fields it leaves behind: which
    file a name opens, which sectors a new file gets, which file is removed, and
    what closing, denying and allowing change. */
module FileSysCalls {
  import opened Prelude
  import opened Bitmap
  import opened Inode
  import opened Directory
  import opened FileSys
  import opened FileSysProtocol
  import opened FileSysTheorems
  import opened FileSysNames

  // ------------------------------------------------------------------- open

  /** Opening inode i once more. */
  ghost predicate OpenedOnce(table: map<nat, OpenInode>, i: nat, after: map<nat, OpenInode>) {
    && after.Keys == table.Keys + {i}
    && after[i] == (if i in table then OpenInode(table[i].count + 1, table[i].removed, table[i].deny)
                    else OpenInode(1, false, 0))
    && forall j :: j in table && j != i ==> after[j] == table[j]
  }

  /** filesys_open: if the first slot under the name, among those that can be
      read, stands for inode i, the new file is one on i, nothing else; without
      such a slot, or without memory, nothing changes. */
  lemma OpensFirstMatch(s: Fs, e: Event)
    requires e.Open? && Enabled(s, e)
    ensures forall n: nat :: FirstMatch(s.es, e.name, e.lookup, n) ==>
      var i := s.es[n].sector;
      if e.rootOpen && (i in s.table || e.memory) && e.fileMemory then
        && Next(s, e) == s.(table := Next(s, e).table, handles := s.handles[e.h := Handle(i, false)])
        && OpenedOnce(s.table, i, Next(s, e).table)
      else Next(s, e) == s
    ensures (forall n: nat :: !FirstMatch(s.es, e.name, e.lookup, n)) ==> Next(s, e) == s
  {
    LookupNothing(s.es, e.name, e.lookup);
    forall n: nat | FirstMatch(s.es, e.name, e.lookup, n) ensures FoundAt(s.es, e.name, e.lookup) == Some(n) {
      LookupExactly(s.es, e.name, e.lookup, n);
    }
    hide Find, Cut, FirstMatch;
  }

  /** As long as the directory is a map and the reads find memory, filesys_open
      opens the file that the name stands for, and no file for another name. */
  lemma OpensByName(s: Fs, e: Event)
    requires FsInv(s) && Tidy(s) && e.Open? && Enabled(s, e) && e.lookup >= ROOT_ENTRIES
    ensures
      if e.name in AsMap(s.es) then
        var i := AsMap(s.es)[e.name];
        if e.rootOpen && (i in s.table || e.memory) && e.fileMemory then
          && Next(s, e) == s.(table := Next(s, e).table, handles := s.handles[e.h := Handle(i, false)])
          && OpenedOnce(s.table, i, Next(s, e).table)
        else Next(s, e) == s
      else Next(s, e) == s
  {
    SixteenSlots(s);
    NameIs(s.es, e.name);
    OpensFirstMatch(s, e);
    MatchIsLookup(s.es, e.name, e.lookup);
    hide FsInv, Tidy, AsMap, Next, FirstMatch, OpenedOnce, Lookup;
  }

  /** In a tidy directory a name keeps standing for its file through every clean
      step that does not remove it. */
  lemma NameStays(s: Fs, e: Event, name: Name)
    requires FsInv(s) && Enabled(s, e) && Tidy(s) && Clean(s, e) && name in AsMap(s.es)
    requires !(Erases(s, e).Some? && e.name == name)
    ensures name in AsMap(Next(s, e).es) && AsMap(Next(s, e).es)[name] == AsMap(s.es)[name]
  {
    hide FsInv, Enabled, Next, Tidy, AsMap, Lookup, Found, Erases, Target;
    MapStep(s, e);
    if Target(s, e).Some? { NameIs(s.es, e.name); }
  }

  lemma SixteenSlots(s: Fs)
    requires FsInv(s)
    ensures |s.es| == ROOT_ENTRIES
  {
  }

  /** With memory for every read, the first match is what the name stands for. */
  lemma MatchIsLookup(es: seq<Entry>, name: Name, good: nat)
    requires good >= |es|
    ensures Lookup(es, name).Some? ==>
      exists n: nat :: FirstMatch(es, name, good, n) && es[n].sector == Lookup(es, name).value
    ensures Lookup(es, name).None? ==> forall n: nat :: !FirstMatch(es, name, good, n)
  {
    assert Cut(es, good) == es;
    FindIs(es, name, 0);
    LookupNothing(es, name, good);
    if Find(es, name, 0).Some? { LookupExactly(es, name, good, Find(es, name, 0).value); }
    hide Find;
  }

  /** file_reopen opens the same inode again. */
  lemma ReopensSame(s: Fs, e: Event)
    requires e.Reopen? && Enabled(s, e)
    ensures
      if e.fileMemory then
        var i := s.handles[e.h].inode;
        && Next(s, e) == s.(table := Next(s, e).table, handles := s.handles[e.h2 := Handle(i, false)])
        && OpenedOnce(s.table, i, Next(s, e).table)
      else Next(s, e) == s
  {
  }

  // ------------------------------------------------------------ deny and allow

  /** file_deny_write makes the file deny, and counts it once. */
  lemma DenyExactly(s: Fs, h: nat)
    requires FsInv(s) && h in s.handles
    ensures
      var i, x := s.handles[h].inode, s.handles[h];
      && i in s.table
      && Next(s, Deny(h)) ==
         s.(handles := s.handles[h := Handle(i, true)],
            table := s.table[i := s.table[i].(deny := s.table[i].deny + if x.denied then 0 else 1)])
  {
    LastHandleIs(s, h);
    hide FsInv, LastHandle;
    var i := s.handles[h].inode;
    assert s.handles[h].denied ==> s.handles[h := Handle(i, true)] == s.handles;
    assert s.table[i := s.table[i].(deny := s.table[i].deny + 0)] == s.table;
  }

  /** file_allow_write takes the file's own denial back. */
  lemma AllowExactly(s: Fs, h: nat)
    requires FsInv(s) && h in s.handles
    ensures
      var i, x := s.handles[h].inode, s.handles[h];
      && i in s.table && (x.denied ==> s.table[i].deny > 0)
      && Next(s, Allow(h)) ==
         s.(handles := s.handles[h := Handle(i, false)],
            table := s.table[i := s.table[i].(deny := if x.denied then s.table[i].deny - 1 else s.table[i].deny)])
  {
    LastHandleIs(s, h);
    if s.handles[h].denied { DenierCounted(s.table, s.handles, h); }
    hide FsInv, LastHandle;
    var i := s.handles[h].inode;
    assert !s.handles[h].denied ==> s.handles[h := Handle(i, false)] == s.handles;
    assert s.table[i := s.table[i].(deny := s.table[i].deny)] == s.table;
  }

  // ------------------------------------------------------------------ close

  /** file_close forgets the file, and the inode with its last file. */
  lemma CloseExactly(s: Fs, h: nat, written: bool)
    requires FsInv(s) && h in s.handles
    ensures
      var i, x, r := s.handles[h].inode, s.handles[h], Next(s, CloseFile(h, written));
      && i in s.table && s.table[i].count > 0 && (x.denied ==> s.table[i].deny > 0)
      && r.handles == s.handles - {h} && r.es == s.es
      && r.table == if LastHandle(s, h) then s.table - {i}
                    else s.table[i := OpenInode(s.table[i].count - 1, s.table[i].removed,
                                                if x.denied then s.table[i].deny - 1 else s.table[i].deny)]
  {
    hide FsInv, LastHandle, Close, Release, AllowIn, CloseIn, HasRoom;
    LastHandleIs(s, h);
    CloseFrame(s, h, written);
    AllowExactly(s, h);
    CountPositive(s, s.handles[h].inode);
    var s1, i := AllowIn(s, h), s.handles[h].inode;
    ClosedTable(s1.(handles := s1.handles - {h}), i, written);
    ClosedEntry(s.table, i, s1.table[i].deny);
  }

  lemma ClosedEntry(table: map<nat, OpenInode>, i: nat, deny: nat)
    requires i in table && table[i].count > 0
    ensures CloseIn(table[i := table[i].(deny := deny)], i) ==
      if table[i].count <= 1 then table - {i} else table[i := OpenInode(table[i].count - 1, table[i].removed, deny)]
  {
  }

  // ----------------------------------------------------------------- remove

  /** filesys_remove: the first slot under the name, if it can be read, its inode
      opened and the slot written, is erased, and nothing else of the directory;
      an open inode is marked, one that is not open is gone. */
  lemma RemovesFirstMatch(s: Fs, e: Event)
    requires FsInv(s) && e.Remove?
    ensures forall n: nat :: FirstMatch(s.es, e.name, e.lookup, n) ==>
      var i, r := s.es[n].sector, Next(s, e);
      if e.rootOpen && (i in s.table || e.memory) && e.entryMemory then
        && r.es == s.es[n := Entry(i, e.name, false)] && r.handles == s.handles
        && r.table == (if i in s.table then s.table[i := s.table[i].(removed := true)] else s.table)
        && r.inodes == (if i in s.table then s.inodes else s.inodes - {i})
      else r == s
    ensures (forall n: nat :: !FirstMatch(s.es, e.name, e.lookup, n)) ==> Next(s, e) == s
  {
    LookupNothing(s.es, e.name, e.lookup);
    hide Find, Cut, FirstMatch, FsInv, Close;
    forall n: nat | FirstMatch(s.es, e.name, e.lookup, n)
      ensures
        var i, r := s.es[n].sector, DoRemove(s, e);
        if e.rootOpen && (i in s.table || e.memory) && e.entryMemory then
          && r.es == s.es[n := Entry(i, e.name, false)] && r.handles == s.handles
          && r.table == (if i in s.table then s.table[i := s.table[i].(removed := true)] else s.table)
          && r.inodes == (if i in s.table then s.inodes else s.inodes - {i})
        else r == s
    {
      LookupExactly(s.es, e.name, e.lookup, n);
      RemovesSlot(s, e, n);
    }
  }

  lemma RemovesSlot(s: Fs, e: Event, n: nat)
    requires FsInv(s) && e.Remove? && FoundAt(s.es, e.name, e.lookup) == Some(n)
    ensures
      var i, r := s.es[n].sector, DoRemove(s, e);
      if e.rootOpen && (i in s.table || e.memory) && e.entryMemory then
        && r.es == s.es[n := Entry(i, e.name, false)] && r.handles == s.handles
        && r.table == (if i in s.table then s.table[i := s.table[i].(removed := true)] else s.table)
        && r.inodes == (if i in s.table then s.inodes else s.inodes - {i})
      else r == s
  {
    hide FsInv, Close, Release, Find;
    RemoveFrame(s, e);
    var i := s.es[n].sector;
    CountPositive(s, i);
    if Erases(s, e).Some? {
      var table := OpenIn(s.table, i);
      ClosedTable(s.(es := s.es[n := s.es[n].(inUse := false)], table := table[i := table[i].(removed := true)]), i, e.written);
      assert i in s.table ==> CloseIn(table[i := table[i].(removed := true)], i) == s.table[i := s.table[i].(removed := true)];
      assert i !in s.table ==> CloseIn(table[i := table[i].(removed := true)], i) == s.table;
    }
  }

  // ----------------------------------------------------------------- create

  /** filesys_create with memory and a writable free map finds the lowest free
      sector for the inode, and for the data the lowest run of as many free sectors
      as hold the length, apart from that one. */
  lemma FindsLowest(s: Fs, e: Event, k: nat, d: nat)
    requires e.Create? && k < |s.used|
    ensures Found(s, e) == Some((k, d)) <==>
      && e.rootOpen && e.written && e.memory && e.written2
      && LowestRun(s.used, k, 1) && LowestRun(s.used[k := true], d, (e.length + 511) / 512)
  {
    LowestIsScan(s.used, k, 1);
    LowestIsScan(s.used[k := true], d, (e.length + 511) / 512);
    assert Fill(s.used, k, 1, true) == s.used[k := true];
    assert Sectors(Extent(0, e.length)) == (e.length + 511) / 512;
    hide Scan, LowestRun;
  }

  /** What a successful creation leaves behind: the file with its extent, its entry
      in the slot where dir_add stopped, its sectors marked. */
  lemma CreatesExactly(s: Fs, e: Event, k: nat, d: nat, n: nat)
    requires FsInv(s) && e.Create? && Found(s, e) == Some((k, d)) && Succeeds(s, e) && Slot(s.es, e.dirMemory.scan) == n
    ensures
      var r := Next(s, e);
      && k < |s.used| && d + (e.length + 511) / 512 <= |s.used| && n < |s.es|
      && r.inodes == s.inodes[k := Extent(d, e.length)] && r.es == s.es[n := Entry(k, e.name, true)]
      && r.table == s.table && r.handles == s.handles
      && |r.used| == |s.used|
      && (forall j :: 0 <= j < |s.used| ==>
            r.used[j] == (s.used[j] || j == k || d <= j < d + (e.length + 511) / 512))
      && r.saved == Some(r.used)
  {
    FoundIs(s, e);
    SuccessfulCreate(s, e);
    hide FsInv, Found, Scan, Slot, Own, Find;
  }

  // ------------------------------------------------------ the free map on disk

  ghost predicate HasRun(used: seq<bool>, cnt: nat) {
    exists n: nat :: LowestRun(used, n, cnt)
  }

  /** There is a sector for an inode and then room for its data. */
  ghost predicate RoomFor(used: seq<bool>, length: nat) {
    exists k: nat :: LowestRun(used, k, 1) && HasRun(used[k := true], (length + 511) / 512)
  }

  /** The outcomes of the writes of the free map file that a call makes, in order. */
  ghost function MapWrites(s: Fs, e: Event): (r: seq<bool>) {
    match e
    case Create(_, length, rootOpen, memory, written, written2, written3, _) =>
      if !rootOpen || !HasRun(s.used, 1) then []
      else if !written then [false]
      else if !memory || !RoomFor(s.used, length) then [true, written3]
      else if !written2 then [true, false, written3]
      else if Addable(s.es, e.name, e.dirMemory) then [true, true]
      else [true, true, written3]
    case CloseFile(_, written) => if Releases(s, e).Some? then [written, written] else []
    case Remove(_, _, _, _, _, written) => if Releases(s, e).Some? then [written, written] else []
    case _ => []
  }

  /** The copy on disk is the free map exactly when the last of them succeeded. */
  lemma SavedExactly(s: Fs, e: Event)
    requires FsInv(s) && Enabled(s, e)
    ensures
      var w, r := MapWrites(s, e), Next(s, e);
      r.saved == if w == [] then s.saved else if w[|w| - 1] then Some(r.used) else None
  {
    hide FsInv, DoCreate, DoClose, DoRemove, DoOpen, Releases, HasRun, RoomFor, Addable, OpenIn;
    match e
    case Create(_, _, _, _, _, _, _, _) => CreateSaves(s, e);
    case CloseFile(h, written) => CloseSaves(s, h, written);
    case Remove(_, _, _, _, _, _) => RemoveSaves(s, e);
    case Open(_, _, _, _, _, _) => OpenSaves(s, e);
    case Reopen(_, _, _) =>
    case Deny(_) =>
    case Allow(_) =>
  }

  lemma OpenSaves(s: Fs, e: Event)
    requires e.Open?
    ensures DoOpen(s, e).saved == s.saved
  {
  }

  lemma CreateSaves(s: Fs, e: Event)
    requires e.Create?
    ensures
      var w, r := MapWrites(s, e), DoCreate(s, e);
      r.saved == if w == [] then s.saved else if w[|w| - 1] then Some(r.used) else None
  {
    RoomIs(s.used, e.length);
    hide Scan, HasRun, RoomFor, Addable, Own, Added;
    assert Sectors(Extent(0, e.length)) == (e.length + 511) / 512;
    if Scan(s.used, 0, 1, false).Some? {
      ScanIsFirst(s.used, 0, 1, false);
      var k := Scan(s.used, 0, 1, false).value;
      assert Fill(s.used, k, 1, true) == s.used[k := true];
    }
  }

  lemma RoomIs(used: seq<bool>, length: nat)
    ensures HasRun(used, 1) <==> Scan(used, 0, 1, false).Some?
    ensures Scan(used, 0, 1, false).Some? ==>
      var k := Scan(used, 0, 1, false).value;
      k < |used| && (RoomFor(used, length) <==> Scan(used[k := true], 0, (length + 511) / 512, false).Some?)
  {
    var a, n := Scan(used, 0, 1, false), (length + 511) / 512;
    forall k: nat ensures a == Some(k) <==> LowestRun(used, k, 1) { LowestIsScan(used, k, 1); }
    if a.Some? {
      var after := used[a.value := true];
      forall d: nat ensures Scan(after, 0, n, false) == Some(d) <==> LowestRun(after, d, n) { LowestIsScan(after, d, n); }
      hide Scan, FreeRun;
      assert HasRun(after, n) <==> Scan(after, 0, n, false).Some?;
    }
  }

  lemma CloseSaves(s: Fs, h: nat, written: bool)
    requires FsInv(s) && h in s.handles
    ensures
      var gone, r := Releases(s, CloseFile(h, written)).Some?, DoClose(s, h, written);
      r.saved == if !gone then s.saved else if written then Some(r.used) else None
  {
    hide FsInv, LastHandle, Sectors, Own, Fill, AllowIn, Close;
    LastHandleIs(s, h);
    OpenInode1(s, h);
    AllowExactly(s, h);
    var s1, i := AllowIn(s, h), s.handles[h].inode;
    SavesClose(s1.(handles := s1.handles - {h}), i, written);
  }

  lemma SavesClose(s: Fs, i: nat, written: bool)
    requires i in s.table && HasRoom(s, i)
    ensures
      var r := Close(s, i, written);
      r.saved == if !(s.table[i].count <= 1 && s.table[i].removed) then s.saved else if written then Some(r.used) else None
  {
    hide Sectors, Own, Fill;
  }

  lemma RemoveSaves(s: Fs, e: Event)
    requires FsInv(s) && e.Remove?
    ensures
      var gone, r := Releases(s, e).Some?, DoRemove(s, e);
      r.saved == if !gone then s.saved else if e.written then Some(r.used) else None
  {
    hide FsInv, Sectors, Own, Fill, Erases, Close, Release;
    RemoveFrame(s, e);
    if Erases(s, e).Some? {
      var n := Erases(s, e).value;
      var i, table := s.es[n].sector, OpenIn(s.table, s.es[n].sector);
      CountPositive(s, i);
      SavesClose(s.(es := s.es[n := s.es[n].(inUse := false)], table := table[i := table[i].(removed := true)]), i, e.written);
    }
  }
}
