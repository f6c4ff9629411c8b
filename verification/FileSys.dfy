/** The life of files: filesys.c, file.c, free-map.c and the open-inode table of
    inode.c.  Every operation is one atomic step; what it may lack (memory, a
    successful write of the free map) is a parameter of the step. */
module FileSys {
  import opened Prelude
  import opened Strings
  import opened Bitmap
  import opened Inode
  import opened Directory

  type Name = seq<Byte>

  /** Entries of the root directory. */
  const ROOT_ENTRIES := 16

  datatype Owner = Free | Of(inode: nat) | Leaked

  /** struct inode, less the copy of the on-disk part. */
  datatype OpenInode = OpenInode(count: nat, removed: bool, deny: nat)

  /** struct file. */
  datatype Handle = Handle(inode: nat, denied: bool)

  /** used is the free map in memory and saved its copy on disk, if the last
      write of it succeeded.  inodes holds the on-disk inodes in use, es the
      entries of the root directory, and owner records for every sector who got
      it. */
  datatype Fs = Fs(used: seq<bool>, saved: Option<seq<bool>>, inodes: map<nat, Extent>, es: seq<Entry>,
                   table: map<nat, OpenInode>, handles: map<nat, Handle>, owner: seq<Owner>)

  // ----------------------------------------------------------- the free map

  /** free_map_init: sectors 0 and 1 hold the inodes of the free map and of the
      root directory, empty so far. */
  function Blank(n: nat): (s: Fs)
    requires n >= 2
  {
    Fs(seq(n, k => k <= 1), None, map[0 := Extent(0, 0), 1 := Extent(0, 0)], seq(ROOT_ENTRIES, i => Entry(0, [], false)),
       map[0 := OpenInode(1, false, 0)], map[0 := Handle(0, false)],
       seq(n, k requires k >= 0 => if k <= 1 then Of(k) else Free))
  }

  function Own(owner: seq<Owner>, p: nat, cnt: nat, o: Owner): (r: seq<Owner>) {
    seq(|owner|, k requires 0 <= k < |owner| => if p <= k < p + cnt then o else owner[k])
  }

  /** free_map_allocate; written says whether the free map file could be
      written.  On failure the map in memory is rolled back. */
  function Allocate(used: seq<bool>, cnt: nat, written: bool): (r: Option<nat>) {
    if written then Scan(used, 0, cnt, false) else None
  }

  function Saved(used: seq<bool>, written: bool): (r: Option<seq<bool>>) {
    if written then Some(used) else None
  }

  // ------------------------------------------------------- the inode table

  /** inode_open and inode_reopen. */
  function OpenIn(table: map<nat, OpenInode>, i: nat): (r: map<nat, OpenInode>) {
    table[i := if i in table then table[i].(count := table[i].count + 1) else OpenInode(1, false, 0)]
  }

  /** inode_close, less the release of sectors. */
  function CloseIn(table: map<nat, OpenInode>, i: nat): (r: map<nat, OpenInode>)
    requires i in table
  {
    if table[i].count <= 1 then table - {i} else table[i := table[i].(count := table[i].count - 1)]
  }

  /** The sectors of an inode go back to the free map. */
  function Release(s: Fs, i: nat, written: bool): (r: Fs)
    requires i in s.inodes && i < |s.used| && s.inodes[i].start + Sectors(s.inodes[i]) <= |s.used|
  {
    var e := s.inodes[i];
    var used := Fill(Fill(s.used, i, 1, false), e.start, Sectors(e), false);
    s.(used := used, saved := Saved(used, written), inodes := s.inodes - {i},
       owner := Own(Own(s.owner, i, 1, Free), e.start, Sectors(e), Free))
  }

  predicate HasRoom(s: Fs, i: nat) {
    i in s.inodes && i < |s.used| && s.inodes[i].start + Sectors(s.inodes[i]) <= |s.used|
  }

  /** inode_close. */
  function Close(s: Fs, i: nat, written: bool): (r: Fs)
    requires i in s.table
  {
    var s1 := s.(table := CloseIn(s.table, i));
    if s.table[i].count <= 1 && s.table[i].removed && HasRoom(s, i) then Release(s1, i, written) else s1
  }

  // ------------------------------------------------------------- operations

  /** dirMemory and lookup say which reads and writes of directory entries find
      memory for their bounce buffers, memory whether inode_create or inode_open
      does, and the written flags whether the free map file could be written. */
  datatype Event =
    | Create(name: Name, length: nat, rootOpen: bool, memory: bool, written: bool, written2: bool, written3: bool,
             dirMemory: Memory)
    | Open(name: Name, h: nat, rootOpen: bool, lookup: nat, memory: bool, fileMemory: bool)
    | Reopen(h: nat, h2: nat, fileMemory: bool)
    | CloseFile(h: nat, written: bool)
    | Remove(name: Name, rootOpen: bool, lookup: nat, memory: bool, entryMemory: bool, written: bool)
    | Deny(h: nat)
    | Allow(h: nat)

  /** New handles get fresh identities; calls on a file need its handle. */
  predicate Enabled(s: Fs, e: Event) {
    match e
    case Create(_, _, _, _, _, _, _, _) => true
    case Open(_, h, _, _, _, _) => h !in s.handles
    case Reopen(h, h2, _) => h in s.handles && h2 !in s.handles
    case CloseFile(h, _) => h in s.handles
    case Remove(_, _, _, _, _, _) => true
    case Deny(h) => h in s.handles
    case Allow(h) => h in s.handles
  }

  /** lookup: the slot of a name, if the reads get that far. */
  function FoundAt(es: seq<Entry>, name: Name, good: nat): (r: Option<nat>)
    ensures r.Some? ==> r.value < |es| && Matches(es[r.value], name)
  {
    FindIs(Cut(es, good), name, 0);
    Find(Cut(es, good), name, 0)
  }

  /** filesys_create once an inode sector k and data sectors from d on have been
      found. */
  function Created(s: Fs, e: Event, k: nat, d: nat): (r: Fs)
    requires e.Create? && k < |s.used| && d + Sectors(Extent(d, e.length)) <= |s.used|
  {
    var x := Extent(d, e.length);
    var n := Sectors(x);
    if Addable(s.es, e.name, e.dirMemory) then
      var used := Fill(Fill(s.used, k, 1, true), d, n, true);
      s.(used := used, saved := Some(used), inodes := s.inodes[k := x], es := Added(s.es, e.name, k, e.dirMemory.scan),
         owner := Own(Own(s.owner, k, 1, Of(k)), d, n, Of(k)))
    else
      // the inode sector is released, the data sectors are not
      var used := Fill(Fill(Fill(s.used, k, 1, true), d, n, true), k, 1, false);
      s.(used := used, saved := Saved(used, e.written3), owner := Own(s.owner, d, n, Leaked))
  }

  function DoCreate(s: Fs, e: Event): (r: Fs)
    requires e.Create?
  {
    if !e.rootOpen then s
    else
      match Allocate(s.used, 1, e.written)
      case None => if Scan(s.used, 0, 1, false).None? then s else s.(saved := None)
      case Some(k) =>
        ScanIsFirst(s.used, 0, 1, false);
        var used := Fill(s.used, k, 1, true);
        if !e.memory then s.(saved := Saved(s.used, e.written3))
        else
          match Allocate(used, Sectors(Extent(0, e.length)), e.written2)
          case None => s.(saved := Saved(s.used, e.written3))
          case Some(d) =>
            ScanIsFirst(used, 0, Sectors(Extent(0, e.length)), false);
            Created(s, e, k, d)
  }

  function DoOpen(s: Fs, e: Event): (r: Fs)
    requires e.Open?
  {
    var slot := FoundAt(s.es, e.name, e.lookup);
    if !e.rootOpen || slot.None? then s
    else
      var i := s.es[slot.value].sector;
      if (i !in s.table && !e.memory) || !e.fileMemory then s
      else s.(table := OpenIn(s.table, i), handles := s.handles[e.h := Handle(i, false)])
  }

  function DenyIn(s: Fs, h: nat): (r: Fs)
    requires h in s.handles
  {
    var i := s.handles[h].inode;
    if !s.handles[h].denied && i in s.table then
      s.(handles := s.handles[h := s.handles[h].(denied := true)],
         table := s.table[i := s.table[i].(deny := s.table[i].deny + 1)])
    else s
  }

  function AllowIn(s: Fs, h: nat): (r: Fs)
    requires h in s.handles
  {
    var i := s.handles[h].inode;
    if s.handles[h].denied && i in s.table && s.table[i].deny > 0 then
      s.(handles := s.handles[h := s.handles[h].(denied := false)],
         table := s.table[i := s.table[i].(deny := s.table[i].deny - 1)])
    else s
  }

  /** file_close. */
  function DoClose(s: Fs, h: nat, written: bool): (r: Fs)
    requires h in s.handles
  {
    var i := s.handles[h].inode;
    var s1 := AllowIn(s, h);
    var s2 := s1.(handles := s1.handles - {h});
    if i in s2.table then Close(s2, i, written) else s2
  }

  /** The slot dir_remove erases, if it gets that far. */
  function Erases(s: Fs, e: Event): (r: Option<nat>)
    ensures r.Some? ==> e.Remove? && r.value < |s.es| && s.es[r.value].inUse
  {
    if !e.Remove? || !e.rootOpen then None
    else
      match FoundAt(s.es, e.name, e.lookup)
      case None => None
      case Some(n) => if (s.es[n].sector in s.table || e.memory) && e.entryMemory then Some(n) else None
  }

  /** dir_remove: the inode is opened, its entry erased, and the inode marked and
      closed again.  Where the entry cannot be written, the inode is only opened
      and closed, which changes nothing. */
  function DoRemove(s: Fs, e: Event): (r: Fs)
    requires e.Remove?
  {
    match Erases(s, e)
    case None => s
    case Some(n) =>
      var i := s.es[n].sector;
      var table := OpenIn(s.table, i);
      Close(s.(es := s.es[n := s.es[n].(inUse := false)], table := table[i := table[i].(removed := true)]), i, e.written)
  }

  function Next(s: Fs, e: Event): (r: Fs)
    requires Enabled(s, e)
  {
    match e
    case Create(_, _, _, _, _, _, _, _) => DoCreate(s, e)
    case Open(_, _, _, _, _, _) => DoOpen(s, e)
    case Reopen(h, h2, fileMemory) =>
      if fileMemory then
        s.(table := OpenIn(s.table, s.handles[h].inode), handles := s.handles[h2 := Handle(s.handles[h].inode, false)])
      else s
    case CloseFile(h, written) => DoClose(s, h, written)
    case Remove(_, _, _, _, _, _) => DoRemove(s, e)
    case Deny(h) => DenyIn(s, h)
    case Allow(h) => AllowIn(s, h)
  }

  // -------------------------------------------------------------- invariant

  predicate InExtent(e: Extent, k: int) {
    e.start <= k < e.start + Sectors(e)
  }

  /** Inode i holds its own sector and its data sectors. */
  ghost predicate Holds(owner: seq<Owner>, i: nat, e: Extent) {
    && i < |owner| && owner[i] == Of(i) && !InExtent(e, i)
    && e.start + Sectors(e) <= |owner|
    && (forall k :: InExtent(e, k) ==> owner[k] == Of(i))
  }

  /** Who owns which sector: every inode its own sector and its data sectors,
      nobody shares, and the free map marks exactly the owned ones. */
  ghost predicate Ownership(used: seq<bool>, inodes: map<nat, Extent>, owner: seq<Owner>) {
    && |owner| == |used|
    && (forall k :: 0 <= k < |used| ==> (used[k] <==> owner[k] != Free))
    && (forall i :: i in inodes ==> Holds(owner, i, inodes[i]))
    && (forall k :: 0 <= k < |used| && owner[k].Of? ==>
      owner[k].inode in inodes && (k == owner[k].inode || InExtent(inodes[owner[k].inode], k)))
  }

  /** Some entry in use stands for inode i. */
  ghost predicate Named(es: seq<Entry>, i: nat) {
    exists n :: 0 <= n < |es| && es[n].inUse && es[n].sector == i
  }

  /** Entries and open inodes: the entries in use stand for different inodes,
      and a removed inode is open and has no entry; the free map and the root
      directory are never removed. */
  ghost predicate Naming(inodes: map<nat, Extent>, es: seq<Entry>, table: map<nat, OpenInode>) {
    && 0 in inodes && 1 in inodes && |es| == ROOT_ENTRIES
    && (forall n :: 0 <= n < |es| && es[n].inUse ==> es[n].sector in inodes && es[n].sector > 1)
    && (forall n, m :: 0 <= n < |es| && 0 <= m < |es| && es[n].inUse && es[m].inUse && es[n].sector == es[m].sector ==>
      n == m)
    && (forall i :: i in table ==> i in inodes && (table[i].removed ==> i > 1 && !Named(es, i)))
  }

  ghost function Users(handles: map<nat, Handle>, i: nat): (r: set<nat>) {
    set h | h in handles && handles[h].inode == i
  }

  ghost function Deniers(handles: map<nat, Handle>, i: nat): (r: set<nat>) {
    set h | h in handles && handles[h].inode == i && handles[h].denied
  }

  /** open_cnt counts the open files of an inode, deny_write_cnt those that
      deny writes. */
  ghost predicate Counted(table: map<nat, OpenInode>, handles: map<nat, Handle>) {
    && (forall h :: h in handles ==> handles[h].inode in table)
    && (forall i :: i in table ==> CountAt(table[i], handles, i))
  }

  ghost predicate CountAt(x: OpenInode, handles: map<nat, Handle>, i: nat) {
    x.count == |Users(handles, i)| > 0 && x.deny == |Deniers(handles, i)|
  }

  ghost predicate FsInv(s: Fs) {
    && Ownership(s.used, s.inodes, s.owner)
    && Naming(s.inodes, s.es, s.table)
    && Counted(s.table, s.handles)
    && (s.saved.Some? ==> s.saved.value == s.used)
  }
}
