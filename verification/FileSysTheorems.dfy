/** What the file system promises over whole runs. */
module FileSysTheorems {
  import opened Prelude
  import opened Bitmap
  import opened Inode
  import opened Directory
  import opened FileSys
  import opened FileSysProtocol

  // -------------------------------------------------------------- every run

  ghost predicate Run(states: seq<Fs>, events: seq<Event>) {
    && |states| == |events| + 1
    && (exists n :: n >= 2 && Format(n) == Some(states[0]))
    && forall i :: 0 <= i < |events| ==>
      Enabled(states[i], events[i]) && states[i + 1] == Next(states[i], events[i])
  }

  lemma {:induction false} RunInv(states: seq<Fs>, events: seq<Event>, i: nat)
    requires Run(states, events) && i < |states|
    ensures FsInv(states[i])
    decreases i
  {
    hide FsInv, Next, Enabled, Format;
    if i > 0 {
      RunInv(states, events, i - 1);
      NextInv(states[i - 1], events[i - 1]);
    } else {
      var n :| n >= 2 && Format(n) == Some(states[0]);
      FormatInv(n);
    }
  }

  ghost predicate Reachable(s: Fs) {
    exists states, events, i :: Run(states, events) && 0 <= i < |states| && states[i] == s
  }

  lemma ReachableInv(s: Fs)
    requires Reachable(s)
    ensures FsInv(s)
  {
    var states, events, i :| Run(states, events) && 0 <= i < |states| && states[i] == s;
    RunInv(states, events, i);
  }

  lemma ReachableStep(s: Fs, e: Event)
    requires Reachable(s) && Enabled(s, e)
    ensures Reachable(Next(s, e))
  {
    hide Next, Format, Enabled;
    var states, events, i :| Run(states, events) && 0 <= i < |states| && states[i] == s;
    var more, all := states[..i + 1] + [Next(s, e)], events[..i] + [e];
    forall j | 0 <= j < |all| ensures Enabled(more[j], all[j]) && more[j + 1] == Next(more[j], all[j]) {
      if j < i { assert more[j] == states[j] && more[j + 1] == states[j + 1] && all[j] == events[j]; }
    }
    assert Run(more, all) && more[i + 1] == Next(s, e);
  }

  // ------------------------------------------------------------- formatting

  /** byte_cnt: the size of the free map file for n sectors. */
  function MapBytes(n: nat): (r: nat) { 4 * ((n + 31) / 32) }

  /** inode_create for an inode whose sector is already taken. */
  function WithData(s: Fs, i: nat, length: nat): (r: Option<Fs>) {
    match Scan(s.used, 0, Sectors(Extent(0, length)), false)
    case None => None
    case Some(d) =>
      ScanIsFirst(s.used, 0, Sectors(Extent(0, length)), false);
      var n := Sectors(Extent(d, length));
      var used := Fill(s.used, d, n, true);
      Some(s.(used := used, saved := Some(used), inodes := s.inodes[i := Extent(d, length)],
              owner := Own(s.owner, d, n, Of(i))))
  }

  /** do_format. */
  function Format(n: nat): (r: Option<Fs>)
    requires n >= 2
  {
    match WithData(Blank(n), 0, MapBytes(n))
    case None => None
    case Some(s) => WithData(s, 1, ROOT_ENTRIES * 20)
  }

  lemma WithDataOwnership(used: seq<bool>, inodes: map<nat, Extent>, owner: seq<Owner>, i: nat, x: Extent, used1: seq<bool>, owner1: seq<Owner>)
    requires Ownership(used, inodes, owner) && i in inodes && Sectors(inodes[i]) == 0
    requires x.start + Sectors(x) <= |used| && forall j :: 0 <= j < |used| && InExtent(x, j) ==> !used[j]
    requires |used1| == |owner1| == |used|
    requires forall j :: 0 <= j < |used| ==> used1[j] == (used[j] || InExtent(x, j))
    requires forall j :: 0 <= j < |used| ==> owner1[j] == if InExtent(x, j) then Of(i) else owner[j]
    ensures Ownership(used1, inodes[i := x], owner1)
  {
    hide Sectors;
    var inodes1 := inodes[i := x];
    forall a | a in inodes1 ensures Holds(owner1, a, inodes1[a]) {
      assert Holds(owner, a, inodes[a]) && used[a];
      if a != i {
        forall j | InExtent(inodes[a], j) ensures owner1[j] == Of(a) {
          assert owner[j] == Of(a) && used[j];
        }
      }
    }
  }

  lemma WithDataInv(s: Fs, i: nat, length: nat)
    requires FsInv(s) && i in s.inodes && Sectors(s.inodes[i]) == 0
    ensures WithData(s, i, length).Some? ==> FsInv(WithData(s, i, length).value)
  {
    ScanIsFirst(s.used, 0, Sectors(Extent(0, length)), false);
    var r := WithData(s, i, length);
    if r.Some? {
      var x := r.value.inodes[i];
      WithDataOwnership(s.used, s.inodes, s.owner, i, x, r.value.used, r.value.owner);
      WithDataNaming(s.inodes, s.es, s.table, i, x);
    }
  }

  lemma WithDataNaming(inodes: map<nat, Extent>, es: seq<Entry>, table: map<nat, OpenInode>, i: nat, x: Extent)
    requires Naming(inodes, es, table) && i in inodes
    ensures Naming(inodes[i := x], es, table)
  {
  }

  /** A formatted volume satisfies the invariant, so every run from it does. */
  lemma FormatInv(n: nat)
    requires n >= 2
    ensures Format(n).Some? ==> FsInv(Format(n).value)
  {
    BlankInv(n);
    var b := Blank(n);
    assert Sectors(b.inodes[0]) == 0 == Sectors(b.inodes[1]) && b.inodes.Keys == {0, 1};
    WithDataInv(b, 0, MapBytes(n));
    hide FsInv, Scan, Blank;
    if WithData(b, 0, MapBytes(n)).Some? {
      WithDataInv(WithData(b, 0, MapBytes(n)).value, 1, ROOT_ENTRIES * 20);
    }
  }

  // ------------------------------------------------------------ the promises

  /** Sector k belongs to inode i: it is the inode's own sector or its data. */
  predicate SectorOf(s: Fs, i: nat, k: nat) {
    i in s.inodes && (k == i || InExtent(s.inodes[i], k))
  }

  lemma OneOwner(s: Fs, i: nat, k: nat)
    requires FsInv(s) && SectorOf(s, i, k)
    ensures k < |s.used| == |s.owner| && s.used[k] && s.owner[k] == Of(i)
  {
    hide Sectors;
    assert Holds(s.owner, i, s.inodes[i]);
  }

  /** In every reachable state no sector belongs to two files, and the free map
      marks exactly the sectors of the files and the leaked ones. */
  lemma SectorsAccounted(s: Fs, k: nat)
    requires Reachable(s) && k < |s.used|
    ensures |s.owner| == |s.used|
    ensures forall i, j :: SectorOf(s, i, k) && SectorOf(s, j, k) ==> i == j
    ensures s.used[k] <==> s.owner[k] == Leaked || exists i :: SectorOf(s, i, k)
    ensures s.owner[k] == Leaked ==> forall i :: !SectorOf(s, i, k)
  {
    ReachableInv(s);
    forall i | SectorOf(s, i, k) ensures s.used[k] && s.owner[k] == Of(i) {
      OneOwner(s, i, k);
    }
    if s.used[k] && s.owner[k] != Leaked {
      assert SectorOf(s, s.owner[k].inode, k);
    }
  }

  /** Writes are refused exactly while some open file denies them, and the
      assertion in inode_deny_write holds. */
  lemma DenyCount(s: Fs, i: nat)
    requires FsInv(s) && i in s.table
    ensures s.table[i].deny > 0 <==> exists h :: h in s.handles && s.handles[h].inode == i && s.handles[h].denied
    ensures s.table[i].deny <= s.table[i].count
  {
    assert CountAt(s.table[i], s.handles, i);
    var d, u := Deniers(s.handles, i), Users(s.handles, i);
    assert d <= u;
    assert |u| == |d| + |u - d| by { assert u == d + (u - d); }
    if s.table[i].deny > 0 {
      var h :| h in d;
    }
    assert s.table[i].deny == 0 ==> d == {};
    assert forall h :: h in s.handles && s.handles[h].inode == i && s.handles[h].denied ==> h in d;
  }

  /** The one open file of an inode. */
  predicate LastHandle(s: Fs, h: nat) {
    h in s.handles && forall g :: g in s.handles && s.handles[g].inode == s.handles[h].inode ==> g == h
  }

  lemma LastHandleIs(s: Fs, h: nat)
    requires FsInv(s) && h in s.handles
    ensures s.handles[h].inode in s.table && (s.table[s.handles[h].inode].count <= 1 <==> LastHandle(s, h))
  {
    var i := s.handles[h].inode;
    assert CountAt(s.table[i], s.handles, i);
    var u := Users(s.handles, i);
    assert h in u && |u| == s.table[i].count;
    assert forall g :: g in u <==> g in s.handles && s.handles[g].inode == i;
    if |u| <= 1 {
      LastUser(u, h);
    } else {
      OtherUser(u, h);
    }
  }

  lemma OtherUser(users: set<nat>, h: nat)
    requires h in users && |users| > 1
    ensures exists g :: g in users && g != h
  {
    assert |users - {h}| == |users| - 1;
    var g :| g in users - {h};
  }

  /** The inode that a step releases, if any: the removed inode whose last file
      is closed, or the inode that is removed while not open. */
  function Releases(s: Fs, e: Event): (r: Option<nat>) {
    if e.CloseFile? && e.h in s.handles && LastHandle(s, e.h) && s.handles[e.h].inode in s.table
       && s.table[s.handles[e.h].inode].removed then Some(s.handles[e.h].inode)
    else if Erases(s, e).Some? && s.es[Erases(s, e).value].sector !in s.table then Some(s.es[Erases(s, e).value].sector)
    else None
  }

  lemma ClosedTable(s: Fs, i: nat, written: bool)
    requires i in s.table
    ensures Close(s, i, written).table == CloseIn(s.table, i) && Close(s, i, written).es == s.es
  {
    hide Sectors, Fill, Own;
  }

  /** What inode_close does, besides counting: t is the state before, up to
      names and counters. */
  lemma CloseEffect(s: Fs, i: nat, written: bool, t: Fs)
    requires i in s.table && HasRoom(s, i) && t.inodes == s.inodes && t.used == s.used && t.owner == s.owner
    ensures
      var gone := s.table[i].count <= 1 && s.table[i].removed;
      var s1 := Close(s, i, written);
      && s1.handles == s.handles
      && s1.owner == (if gone then Release(t, i, written).owner else s.owner)
      && s1.inodes == (if gone then s.inodes - {i} else s.inodes)
      && s1.used == if gone then Release(t, i, written).used else s.used
  {
    hide Sectors, Own, CloseIn, Saved;
  }

  /** What file_close does, besides counting. */
  lemma CloseFrame(s: Fs, h: nat, written: bool)
    requires FsInv(s) && h in s.handles
    ensures
      var i := s.handles[h].inode;
      var gone := LastHandle(s, h) && i in s.table && s.table[i].removed;
      var s1 := DoClose(s, h, written);
      && HasRoom(s, i)
      && s1.handles == s.handles - {h}
      && s1.owner == (if gone then Release(s, i, written).owner else s.owner)
      && s1.inodes == (if gone then s.inodes - {i} else s.inodes)
      && s1.used == if gone then Release(s, i, written).used else s.used
  {
    hide FsInv, AllowIn, LastHandle, Close, Release, Sectors;
    var i := s.handles[h].inode;
    OpenInode1(s, h);
    LastHandleIs(s, h);
    AllowInv(s, h);
    var s1 := AllowIn(s, h);
    assert s1.handles - {h} == s.handles - {h};
    CloseEffect(s1.(handles := s1.handles - {h}), i, written, s);
  }

  lemma RemoveFrame(s: Fs, e: Event)
    requires FsInv(s) && e.Remove?
    ensures
      var s1 := DoRemove(s, e);
      match Erases(s, e)
      case None => s1 == s
      case Some(n) =>
        var i := s.es[n].sector;
        && HasRoom(s, i) && s1.handles == s.handles
        && s1.owner == (if i !in s.table then Release(s, i, e.written).owner else s.owner)
        && s1.inodes == (if i !in s.table then s.inodes - {i} else s.inodes)
        && s1.used == if i !in s.table then Release(s, i, e.written).used else s.used
  {
    if Erases(s, e).Some? {
      var n := Erases(s, e).value;
      var i := s.es[n].sector;
      ReleaseInv(s, i, e.written) by { assert i in s.inodes; }
      assert i in s.table ==> CountAt(s.table[i], s.handles, i);
      hide FsInv, Close, Release, Sectors, Erases;
      var table := OpenIn(s.table, i);
      CloseEffect(s.(es := s.es[n := s.es[n].(inUse := false)], table := table[i := table[i].(removed := true)]),
                  i, e.written, s);
    }
  }

  lemma CreatedFrame(s: Fs, e: Event, k: nat, d: nat)
    requires e.Create? && k < |s.used| && d + Sectors(Extent(d, e.length)) <= |s.used| && k !in s.inodes
    ensures Created(s, e, k, d).handles == s.handles
    ensures forall i :: i in s.inodes ==> i in Created(s, e, k, d).inodes && Created(s, e, k, d).inodes[i] == s.inodes[i]
  {
    hide Fill, Sectors, Own;
  }

  lemma CreateFrame(s: Fs, e: Event)
    requires FsInv(s) && e.Create?
    ensures DoCreate(s, e).handles == s.handles
    ensures forall i :: i in s.inodes ==> i in DoCreate(s, e).inodes && DoCreate(s, e).inodes[i] == s.inodes[i]
  {
    hide Scan, Sectors, FsInv, Created, Own;
    var a := Allocate(s.used, 1, e.written);
    ScanIsFirst(s.used, 0, 1, false);
    if a.Some? {
      FreeSectorNew(s, a.value);
      var used := Fill(s.used, a.value, 1, true);
      var n := Sectors(Extent(0, e.length));
      ScanIsFirst(used, 0, n, false);
      var b := Allocate(used, n, e.written2);
      if b.Some? {
        SameSectors(b.value, e.length);
        CreatedFrame(s, e, a.value, b.value);
      }
    }
  }

  /** Files disappear exactly then; no other step takes an inode away. */
  lemma ReleasedExactly(s: Fs, e: Event, i: nat)
    requires FsInv(s) && Enabled(s, e) && i in s.inodes
    ensures i in Next(s, e).inodes <==> Releases(s, e) != Some(i)
    ensures i in Next(s, e).inodes ==> Next(s, e).inodes[i] == s.inodes[i]
  {
    hide FsInv, DoClose, DoRemove, DoCreate, LastHandle, Release, HasRoom, Erases;
    match e
    case CloseFile(h, written) => CloseFrame(s, h, written);
    case Remove(_, _, _, _, _, _) => RemoveFrame(s, e);
    case Create(_, _, _, _, _, _, _, _) => CreateFrame(s, e);
    case Open(_, _, _, _, _, _) =>
    case Reopen(_, _, _) =>
    case Deny(_) =>
    case Allow(_) =>
  }

  /** When a file is released its sectors become free, all of them, once. */
  lemma ReleasedSectorsFree(s: Fs, e: Event, i: nat, k: nat)
    requires FsInv(s) && Enabled(s, e) && Releases(s, e) == Some(i) && SectorOf(s, i, k)
    ensures k < |s.used| && s.used[k] && k < |Next(s, e).used| && !Next(s, e).used[k]
  {
    hide FsInv, DoClose, DoRemove, DoCreate, LastHandle, Release, Sectors, Erases, InExtent;
    OneOwner(s, i, k);
    if e.CloseFile? {
      CloseFrame(s, e.h, e.written);
    } else {
      RemoveFrame(s, e);
    }
    ReleaseFrees(s, i, k, e.written);
  }

  lemma ReleaseFrees(s: Fs, i: nat, k: nat, written: bool)
    requires HasRoom(s, i) && SectorOf(s, i, k) && k < |s.used|
    ensures |Release(s, i, written).used| == |s.used| && !Release(s, i, written).used[k]
  {
    hide Sectors;
  }

  /** A file that is open keeps its sectors whatever else happens, removed or
      not, until that open file is closed. */
  lemma OpenFileKept(s: Fs, e: Event, h: nat)
    requires FsInv(s) && Enabled(s, e) && h in s.handles && !(e.CloseFile? && e.h == h)
    ensures h in Next(s, e).handles && Next(s, e).handles[h].inode == s.handles[h].inode
    ensures s.handles[h].inode in s.inodes && s.handles[h].inode in Next(s, e).inodes
    ensures Next(s, e).inodes[s.handles[h].inode] == s.inodes[s.handles[h].inode]
  {
    assert s.handles[h].inode in s.inodes;
    ReleasedExactly(s, e, s.handles[h].inode);
    HandleKept(s, e, h);
    hide FsInv, Next;
    assert e.CloseFile? && e.h in s.handles && s.handles[e.h].inode == s.handles[h].inode ==> !LastHandle(s, e.h);
    LastHandleIs(s, h);
  }

  lemma HandleKept(s: Fs, e: Event, h: nat)
    requires FsInv(s) && Enabled(s, e) && h in s.handles && !(e.CloseFile? && e.h == h)
    ensures h in Next(s, e).handles && Next(s, e).handles[h].inode == s.handles[h].inode
  {
    hide FsInv, DoClose, DoRemove, DoCreate, LastHandle, Release, HasRoom;
    match e
    case CloseFile(g, written) => CloseFrame(s, g, written);
    case Create(_, _, _, _, _, _, _, _) => CreateFrame(s, e);
    case Remove(_, _, _, _, _, _) => RemoveFrame(s, e);
    case Open(_, _, _, _, _, _) =>
    case Reopen(_, _, _) =>
    case Deny(_) =>
    case Allow(_) =>
  }

  lemma RunStep(states: seq<Fs>, events: seq<Event>, i: nat)
    requires Run(states, events) && i < |events|
    ensures Enabled(states[i], events[i]) && states[i + 1] == Next(states[i], events[i])
  {
  }

  /** Over a run: the extent of a file does not change while a handle is open. */
  lemma {:induction false} KeptWhileOpen(states: seq<Fs>, events: seq<Event>, h: nat, i: nat, j: nat)
    requires Run(states, events) && i <= j < |states| == |events| + 1 && h in states[i].handles
    requires forall n :: i <= n < j ==> !(events[n].CloseFile? && events[n].h == h)
    ensures h in states[j].handles && states[j].handles[h].inode == states[i].handles[h].inode
    ensures
      var f := states[i].handles[h].inode;
      f in states[i].inodes && f in states[j].inodes && states[j].inodes[f] == states[i].inodes[f]
    decreases j
  {
    hide FsInv, Next, Enabled, Run;
    RunInv(states, events, i);
    OpenInode1(states[i], h);
    if i < j {
      RunStep(states, events, j - 1);
      KeptWhileOpen(states, events, h, i, j - 1);
      RunInv(states, events, j - 1);
      OpenFileKept(states[j - 1], events[j - 1], h);
    }
  }

  lemma OpenInode1(s: Fs, h: nat)
    requires FsInv(s) && h in s.handles
    ensures s.handles[h].inode in s.inodes && HasRoom(s, s.handles[h].inode)
  {
    assert Holds(s.owner, s.handles[h].inode, s.inodes[s.handles[h].inode]);
  }

  lemma FreeSectorNew(s: Fs, k: nat)
    requires FsInv(s) && k < |s.used| && !s.used[k]
    ensures k !in s.inodes
  {
    FreeSector(s.used, s.inodes, s.owner, k);
  }

  // --------------------------------------------------------------- creation

  /** The sectors filesys_create finds: one for the inode, the rest for data. */
  function Found(s: Fs, e: Event): (r: Option<(nat, nat)>)
    requires e.Create?
  {
    if !e.rootOpen then None
    else
      match Allocate(s.used, 1, e.written)
      case None => None
      case Some(k) =>
        ScanIsFirst(s.used, 0, 1, false);
        if !e.memory then None
        else
          match Allocate(Fill(s.used, k, 1, true), Sectors(Extent(0, e.length)), e.written2)
          case None => None
          case Some(d) => Some((k, d))
  }

  lemma FoundIs(s: Fs, e: Event)
    requires e.Create? && Found(s, e).Some?
    ensures
      var (k, d) := Found(s, e).value;
      && k < |s.used| && !s.used[k]
      && Group(Fill(s.used, k, 1, true), d, Sectors(Extent(d, e.length)), false)
      && DoCreate(s, e) == Created(s, e, k, d)
  {
    ScanIsFirst(s.used, 0, 1, false);
    var k := Found(s, e).value.0;
    var used := Fill(s.used, k, 1, true);
    SameSectors(Found(s, e).value.1, e.length);
    ScanIsFirst(used, 0, Sectors(Extent(0, e.length)), false);
    hide Scan, Created, Sectors;
  }

  /** Sectors are found and the directory takes the name. */
  predicate Succeeds(s: Fs, e: Event)
    requires e.Create?
  {
    Found(s, e).Some? && Addable(s.es, e.name, e.dirMemory)
  }

  /** A creation succeeds exactly when sectors are found and dir_add succeeds;
      the file then gets fresh sectors of its own. */
  lemma SuccessfulCreate(s: Fs, e: Event)
    requires FsInv(s) && e.Create? && Succeeds(s, e)
    ensures
      var s1, (k, d) := DoCreate(s, e), Found(s, e).value;
      && s1.es == Added(s.es, e.name, k, e.dirMemory.scan) && s1.inodes == s.inodes[k := Extent(d, e.length)]
      && s1.table == s.table && s1.handles == s.handles
      && k !in s.inodes && forall j: nat :: SectorOf(s1, k, j) ==> j < |s.used| && !s.used[j]
  {
    FoundIs(s, e);
    var (k, d) := Found(s, e).value;
    FreeSectorNew(s, k);
    FoundApart(s.used, k, Extent(d, e.length));
    hide FsInv, Sectors, Found, Scan, Own, Fill, Addable;
  }

  /** A creation that fails changes no file, and leaves the free map as it was
      except in one case: data sectors were found and then dir_add failed.
      Those sectors stay marked and belong to no file. */
  lemma FailedCreate(s: Fs, e: Event)
    requires FsInv(s) && e.Create? && !Succeeds(s, e)
    ensures
      var s1 := DoCreate(s, e);
      && s1.es == s.es && s1.inodes == s.inodes && s1.table == s.table && s1.handles == s.handles
      && (s1.used == s.used <==> Found(s, e).None? || e.length == 0)
  {
    hide FsInv, DoCreate, Found, Created, Fill, Sectors, Addable;
    if Found(s, e).Some? {
      FoundIs(s, e);
      LeakedSectors(s, e, Found(s, e).value.0, Found(s, e).value.1);
    } else {
      NothingFound(s, e);
    }
  }

  lemma NothingFound(s: Fs, e: Event)
    requires e.Create? && Found(s, e).None?
    ensures DoCreate(s, e) == s.(saved := DoCreate(s, e).saved)
  {
    hide Scan, Sectors, Created, Fill;
  }

  lemma LeakedSectors(s: Fs, e: Event, k: nat, d: nat)
    requires e.Create? && k < |s.used| && !s.used[k] && !Addable(s.es, e.name, e.dirMemory)
    requires Group(Fill(s.used, k, 1, true), d, Sectors(Extent(d, e.length)), false)
    ensures
      var s1 := Created(s, e, k, d);
      && s1.es == s.es && s1.inodes == s.inodes && s1.table == s.table && s1.handles == s.handles
      && (s1.used == s.used <==> e.length == 0)
  {
    var x := Extent(d, e.length);
    FoundApart(s.used, k, x);
    var s1 := Created(s, e, k, d);
    if e.length > 0 {
      assert InExtent(x, d) && s1.used[d];
    } else {
      assert Sectors(x) == 0;
      assert s1.used == s.used;
    }
  }

  // ------------------------------------------------------------------ leaks

  /** The step is a creation that finds sectors and then fails. */
  predicate Leaks(s: Fs, e: Event) {
    e.Create? && Found(s, e).Some? && !Addable(s.es, e.name, e.dirMemory)
  }

  /** The data sectors it had found. */
  function LeakedExtent(s: Fs, e: Event): (x: Extent)
    requires Leaks(s, e)
  {
    Extent(Found(s, e).value.1, e.length)
  }

  /** Releasing a file leaks nothing and frees nothing that was leaked. */
  lemma ReleaseLeaks(s: Fs, i: nat, written: bool, k: nat)
    requires FsInv(s) && HasRoom(s, i) && k < |s.owner|
    ensures |Release(s, i, written).owner| == |s.owner|
    ensures Release(s, i, written).owner[k] == Leaked <==> s.owner[k] == Leaked
  {
    hide Sectors, Fill, FsInv;
    if SectorOf(s, i, k) { OneOwner(s, i, k); }
  }

  /** A sector is leaked by a step exactly when the step is a creation that
      finds it and then fails; what is leaked stays leaked. */
  lemma LeakStep(s: Fs, e: Event, k: nat)
    requires FsInv(s) && Enabled(s, e) && k < |s.owner|
    ensures |Next(s, e).owner| == |s.owner|
    ensures Next(s, e).owner[k] == Leaked <==>
      s.owner[k] == Leaked || (Leaks(s, e) && InExtent(LeakedExtent(s, e), k))
  {
    hide FsInv, DoClose, DoRemove, DoCreate, Found, LastHandle, Release, Sectors, Erases, Addable;
    match e
    case CloseFile(h, written) =>
      CloseFrame(s, h, written);
      ReleaseLeaks(s, s.handles[h].inode, written, k);
    case Remove(_, _, _, _, _, written) =>
      RemoveFrame(s, e);
      if Erases(s, e).Some? { ReleaseLeaks(s, s.es[Erases(s, e).value].sector, written, k); }
    case Create(_, _, _, _, _, _, _, _) => CreateLeaks(s, e, k);
    case Open(_, _, _, _, _, _) =>
    case Reopen(_, _, _) =>
    case Deny(_) =>
    case Allow(_) =>
  }

  lemma CreateLeaks(s: Fs, e: Event, k: nat)
    requires FsInv(s) && e.Create? && k < |s.owner|
    ensures
      var s1 := DoCreate(s, e);
      && |s1.owner| == |s.owner|
      && (s1.owner[k] == Leaked <==> s.owner[k] == Leaked || (Leaks(s, e) && InExtent(LeakedExtent(s, e), k)))
  {
    hide FsInv, DoCreate, Found, Created, Addable;
    if Found(s, e).Some? {
      FoundIs(s, e);
      var (i, d) := Found(s, e).value;
      FoundApart(s.used, i, Extent(d, e.length));
      CreatedOwners(s, e, i, d, k);
    } else {
      NothingFound(s, e);
    }
  }

  lemma CreatedOwners(s: Fs, e: Event, i: nat, d: nat, k: nat)
    requires FsInv(s) && e.Create? && i < |s.used| && !s.used[i] && d + Sectors(Extent(d, e.length)) <= |s.used|
    requires forall j :: 0 <= j < |s.used| && InExtent(Extent(d, e.length), j) ==> !s.used[j]
    requires k < |s.owner|
    ensures
      var s1 := Created(s, e, i, d);
      && |s1.owner| == |s.owner|
      && (s1.owner[k] == Leaked <==>
            s.owner[k] == Leaked || (!Addable(s.es, e.name, e.dirMemory) && InExtent(Extent(d, e.length), k)))
  {
    OwnerUsed(s, k);
    hide Sectors, Fill, FsInv, Addable;
  }

  lemma OwnerUsed(s: Fs, k: nat)
    requires FsInv(s) && k < |s.owner|
    ensures |s.owner| == |s.used| && (s.used[k] <==> s.owner[k] != Free)
  {
  }

  /** Over every run: a sector is leaked exactly when some earlier creation
      found it for its data and then failed. */
  lemma {:induction false} LeakHistory(states: seq<Fs>, events: seq<Event>, j: nat, k: nat)
    requires Run(states, events) && j < |states| && k < |states[0].owner|
    ensures |states[j].owner| == |states[0].owner|
    ensures states[j].owner[k] == Leaked <==>
      exists i :: 0 <= i < j && Leaks(states[i], events[i]) && InExtent(LeakedExtent(states[i], events[i]), k)
    decreases j
  {
    hide Next, Enabled, FsInv, Leaks, LeakedExtent, InExtent, Format;
    if j == 0 {
      FormatLeaksNothing(states, events, k);
    } else {
      LeakHistory(states, events, j - 1, k);
      RunInv(states, events, j - 1);
      LeakStep(states[j - 1], events[j - 1], k);
    }
  }

  lemma FormatLeaksNothing(states: seq<Fs>, events: seq<Event>, k: nat)
    requires Run(states, events) && k < |states[0].owner|
    ensures states[0].owner[k] != Leaked
  {
    hide Scan, Sectors, Next, Enabled, Fill;
    var n :| n >= 2 && Format(n) == Some(states[0]);
    var b := Blank(n);
    assert forall j :: 0 <= j < |b.owner| ==> b.owner[j] != Leaked;
  }

  /** Removing a file just created gives every sector back and leaves the entry
      of its slot free again, so that every name means what it did. */
  lemma CreateThenRemove(s: Fs, e: Event, lookup: nat, written: bool)
    requires FsInv(s) && e.Create? && Succeeds(s, e) && lookup > Slot(s.es, e.dirMemory.scan)
    requires Find(s.es, e.name, 0) == None && !s.es[Slot(s.es, e.dirMemory.scan)].inUse
    ensures
      var s2 := DoRemove(DoCreate(s, e), Remove(e.name, true, lookup, true, true, written));
      && s2.used == s.used && s2.inodes == s.inodes && s2.table == s.table
      && s2.handles == s.handles && s2.owner == s.owner
      && (forall m :: Lookup(s2.es, m) == Lookup(s.es, m)) && forall i :: Named(s2.es, i) <==> Named(s.es, i)
  {
    FoundIs(s, e);
    var k, d := Found(s, e).value.0, Found(s, e).value.1;
    FreeSectorNew(s, k);
    assert k !in s.table;
    var x := Extent(d, e.length);
    FoundApart(s.used, k, x);
    FreeOwners(s, k, x);
    var n := Slot(s.es, e.dirMemory.scan);
    hide FsInv, Found, DoCreate, Group, Find, Slot, Lookup, Named;
    Undone(s, e, k, d, lookup, written, n);
    SameNames(s.es, s.es[n := Entry(k, e.name, false)], n);
  }

  lemma SameNames(es: seq<Entry>, es1: seq<Entry>, n: nat)
    requires n < |es| == |es1| && es1 == es[n := es1[n]] && !es[n].inUse && !es1[n].inUse
    ensures forall m :: Lookup(es1, m) == Lookup(es, m)
    ensures forall i :: Named(es1, i) <==> Named(es, i)
  {
    forall m ensures Lookup(es1, m) == Lookup(es, m) {
      SameFind(es, es1, n, m, 0);
      FindIs(es, m, 0);
    }
    forall i ensures Named(es1, i) <==> Named(es, i) {
      if Named(es1, i) {
        var a :| 0 <= a < |es1| && es1[a].inUse && es1[a].sector == i;
        assert es[a].inUse && es[a].sector == i;
      }
      if Named(es, i) {
        var a :| 0 <= a < |es| && es[a].inUse && es[a].sector == i;
        assert es1[a].inUse && es1[a].sector == i;
      }
    }
  }

  lemma {:induction false} SameFind(es: seq<Entry>, es1: seq<Entry>, n: nat, m: Name, from: nat)
    requires n < |es| == |es1| && es1 == es[n := es1[n]] && !es[n].inUse && !es1[n].inUse
    ensures Find(es1, m, from) == Find(es, m, from)
    decreases |es| - from
  {
    if from < |es| { SameFind(es, es1, n, m, from + 1); }
  }

  lemma FreeOwners(s: Fs, k: nat, x: Extent)
    requires FsInv(s) && k < |s.used| && !s.used[k] && x.start + Sectors(x) <= |s.used|
    requires forall j :: 0 <= j < |s.used| && InExtent(x, j) ==> !s.used[j]
    ensures |s.owner| == |s.used| && s.owner[k] == Free
    ensures forall j :: 0 <= j < |s.used| && InExtent(x, j) ==> s.owner[j] == Free
  {
  }

  /** Removing a file that is not open releases it at once. */
  lemma RemoveUnopened(s: Fs, e: Event, n: nat)
    requires e.Remove? && Erases(s, e) == Some(n) && s.es[n].sector !in s.table && HasRoom(s, s.es[n].sector)
    ensures
      DoRemove(s, e) == Release(s.(es := s.es[n := s.es[n].(inUse := false)]), s.es[n].sector, e.written)
  {
    hide Sectors, Fill, Own, Erases;
    var i := s.es[n].sector;
    var table := OpenIn(s.table, i);
    assert CloseIn(table[i := table[i].(removed := true)], i) == s.table;
  }

  /** lookup finds a name that only slot n has. */
  lemma OnlyThere(es: seq<Entry>, name: Name, sector: nat, n: nat, lookup: nat)
    requires n < |es| && Find(es, name, 0) == None && lookup > n
    ensures FoundAt(es[n := Entry(sector, name, true)], name, lookup) == Some(n)
  {
    var after := es[n := Entry(sector, name, true)];
    FindIs(es, name, 0);
    FindIs(Cut(after, lookup), name, 0);
    assert Matches(Cut(after, lookup)[n], name);
  }

  lemma Undone(s: Fs, e: Event, k: nat, d: nat, lookup: nat, written: bool, n: nat)
    requires e.Create? && Addable(s.es, e.name, e.dirMemory) && n == Slot(s.es, e.dirMemory.scan)
    requires Find(s.es, e.name, 0) == None && lookup > n
    requires k < |s.used| == |s.owner| && k !in s.table && k !in s.inodes
    requires d + Sectors(Extent(d, e.length)) <= |s.used| && !InExtent(Extent(d, e.length), k)
    requires !s.used[k] && s.owner[k] == Free
    requires forall j :: 0 <= j < |s.used| && InExtent(Extent(d, e.length), j) ==> !s.used[j] && s.owner[j] == Free
    ensures
      var s2 := DoRemove(Created(s, e, k, d), Remove(e.name, true, lookup, true, true, written));
      && s2.used == s.used && s2.inodes == s.inodes && s2.es == s.es[n := Entry(k, e.name, false)] && s2.table == s.table
      && s2.handles == s.handles && s2.owner == s.owner
  {
    OnlyThere(s.es, e.name, k, n, lookup);
    hide Sectors, DoRemove, Fill, Own, Find, Slot, FoundAt;
    var x := Extent(d, e.length);
    Refilled(s.used, k, x);
    Reowned(s.owner, k, x);
    var s1 := Created(s, e, k, d);
    RemoveUnopened(s1, Remove(e.name, true, lookup, true, true, written), n);
    assert s1.inodes - {k} == s.inodes;
  }

  lemma Refilled(used: seq<bool>, k: nat, x: Extent)
    requires k < |used| && !used[k] && x.start + Sectors(x) <= |used|
    requires forall j :: 0 <= j < |used| && InExtent(x, j) ==> !used[j]
    ensures
      var n := Sectors(x);
      Fill(Fill(Fill(Fill(used, k, 1, true), x.start, n, true), k, 1, false), x.start, n, false) == used
  {
    hide Sectors;
  }

  lemma Reowned(owner: seq<Owner>, k: nat, x: Extent)
    requires k < |owner| && owner[k] == Free && x.start + Sectors(x) <= |owner|
    requires forall j :: 0 <= j < |owner| && InExtent(x, j) ==> owner[j] == Free
    ensures
      var n := Sectors(x);
      Own(Own(Own(Own(owner, k, 1, Of(k)), x.start, n, Of(k)), k, 1, Free), x.start, n, Free) == owner
  {
    hide Sectors;
  }
}
