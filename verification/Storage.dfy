/** The file system on its device: which bytes each operation may change.  The
    entries and inodes of FileSys are stored in the sectors they own, and a file's
    bytes change only by writes to that file. */
module Storage {
  import opened Prelude
  import opened Strings
  import Bitmap
  import opened Inode
  import opened Directory
  import opened FileSys
  import opened FileSysProtocol
  import opened FileSysTheorems
  import FileSysNames
  import FileSysCalls

  /** fs is the state in memory and what it says about the device; bytes is the
      device. */
  datatype Disk = Disk(fs: Fs, bytes: seq<Byte>)

  datatype Op =
    | Call(e: Event)
    | Write(h: nat, data: seq<Byte>, offset: nat, memory: bool)

  const INODE_MAGIC := 0x494e4f44

  /** struct inode_disk as inode_create writes it. */
  function InodeSector(x: Extent): (r: seq<Byte>)
    ensures |r| == SECTOR
  {
    WordBytes(x.start) + WordBytes(x.length) + WordBytes(INODE_MAGIC) + seq(500, i => 0)
  }

  /** What inode_open reads from it. */
  function InodeRead(raw: seq<Byte>): (x: Extent)
    requires |raw| == SECTOR
  {
    Extent(Word(raw[0..4]), Word(raw[4..8]))
  }

  lemma InodeRoundTrip(x: Extent)
    requires x.start < 0x1_0000_0000 && x.length < 0x1_0000_0000
    ensures InodeRead(InodeSector(x)) == x
  {
    var r := InodeSector(x);
    assert r[0..4] == WordBytes(x.start) && r[4..8] == WordBytes(x.length);
    WordRoundTrip(x.start);
    WordRoundTrip(x.length);
  }

  /** Its layout: start, length and magic, low bytes first, then zeros. */
  lemma InodeLayout(x: Extent)
    requires x.start < 0x1_0000_0000 && x.length < 0x1_0000_0000
    ensures
      var r := InodeSector(x);
      && |r| == 512
      && LowFirst(r[0..4]) == x.start && LowFirst(r[4..8]) == x.length
      && r[8..12] == [0x44, 0x4f, 0x4e, 0x49] && forall i :: 12 <= i < 512 ==> r[i] == 0
  {
    WordRoundTrip(x.start);
    WordRoundTrip(x.length);
    WordIsLowFirst(WordBytes(x.start));
    WordIsLowFirst(WordBytes(x.length));
    var r := InodeSector(x);
    assert r[0..4] == WordBytes(x.start) && r[4..8] == WordBytes(x.length);
    assert r[8..12] == WordBytes(INODE_MAGIC);
    hide LowFirst;
  }

  // ------------------------------------------------- the effect of a call

  /** The inode on disk. */
  ghost predicate Stored(bytes: seq<Byte>, i: nat, x: Extent) {
    i * SECTOR + SECTOR <= |bytes| && Sub(bytes, i * SECTOR, SECTOR) == InodeSector(x)
  }

  ghost predicate Zeroed(bytes: seq<Byte>, x: Extent) {
    forall b :: 0 <= b < |bytes| && InExtent(x, b / SECTOR) ==> bytes[b] == 0
  }

  /** The root directory on disk holds the entries es. */
  ghost predicate Listed(bytes: seq<Byte>, root: Extent, es: seq<Entry>) {
    OnDevice(bytes, root) && Entries(Content(bytes, root)) == es
  }

  /** The sectors a call may write: the free map file; a new inode and its data;
      and the root directory, in dir_add and dir_remove. */
  ghost predicate Touches(s: Fs, e: Event, k: int) {
    || (0 in s.inodes && InExtent(s.inodes[0], k))
    || (e.Create? && Found(s, e).Some? && (k == Found(s, e).value.0 || InExtent(Extent(Found(s, e).value.1, e.length), k)))
    || (1 in s.inodes && InExtent(s.inodes[1], k) && (e.Create? || e.Remove?))
  }

  /** Untouched sectors keep their bytes, a new inode is stored and its data
      zeroed, and the root directory has the new entries. */
  ghost predicate CallEffect(s: Fs, e: Event, bytes: seq<Byte>, after: seq<Byte>)
    requires Enabled(s, e)
  {
    && |after| == |bytes|
    && (forall b :: 0 <= b < |bytes| && !Touches(s, e, b / SECTOR) ==> after[b] == bytes[b])
    && (e.Create? && Found(s, e).Some? ==>
      var x := Extent(Found(s, e).value.1, e.length);
      Stored(after, Found(s, e).value.0, x) && Zeroed(after, x))
    && (1 in s.inodes ==> Listed(after, s.inodes[1], Next(s, e).es))
  }

  ghost predicate Step(d: Disk, op: Op, r: Disk) {
    match op
    case Call(e) => Enabled(d.fs, e) && r.fs == Next(d.fs, e) && CallEffect(d.fs, e, d.bytes, r.bytes)
    case Write(h, data, offset, memory) =>
      && r.fs == d.fs && h in d.fs.handles && d.fs.handles[h].inode != 0
      && var i := d.fs.handles[h].inode;
      && i in d.fs.inodes && i in d.fs.table && OnDevice(d.bytes, d.fs.inodes[i])
      && var x := d.fs.inodes[i];
      var n := if d.fs.table[i].deny > 0 then 0 else Moved(x.length, |data|, offset, memory);
      Put(d.bytes, x, r.bytes, data, offset, n)
  }

  // ------------------------------------------------------------- invariant

  ghost predicate DiskInv(d: Disk) {
    && FsInv(d.fs) && 1 !in d.fs.table && Terminated(d.fs.es)
    && |d.bytes| == SECTOR * |d.fs.used|
    && (forall i :: i in d.fs.inodes ==> Stored(d.bytes, i, d.fs.inodes[i]))
    && 1 in d.fs.inodes && Listed(d.bytes, d.fs.inodes[1], d.fs.es)
  }

  /** A sector of file i is not written by a call, unless i is the free map or
      the root directory. */
  lemma FileUntouched(s: Fs, e: Event, i: nat, k: nat)
    requires FsInv(s) && SectorOf(s, i, k)
    requires k == i || i > 1
    ensures !Touches(s, e, k)
  {
    hide Sectors, Found, Erases, Addable;
    OneOwner(s, i, k);
    if 0 in s.inodes && InExtent(s.inodes[0], k) { OneOwner(s, 0, k); DataApart(s, 0); }
    if 1 in s.inodes && InExtent(s.inodes[1], k) { OneOwner(s, 1, k); DataApart(s, 1); }
    if e.Create? && Found(s, e).Some? {
      FoundFree(s, e, k);
    }
  }

  /** An inode's own sector is none of its data sectors. */
  lemma DataApart(s: Fs, i: nat)
    requires FsInv(s) && i in s.inodes
    ensures !InExtent(s.inodes[i], i)
  {
    assert Holds(s.owner, i, s.inodes[i]);
  }

  lemma FoundFree(s: Fs, e: Event, k: nat)
    requires e.Create? && Found(s, e).Some? && k < |s.used| && s.used[k]
    ensures k != Found(s, e).value.0 && !InExtent(Extent(Found(s, e).value.1, e.length), k)
  {
    FoundIs(s, e);
    var (i, d) := Found(s, e).value;
    hide Found, Sectors;
    FoundApart(s.used, i, Extent(d, e.length));
  }

  lemma InodeOnDevice(d: Disk, i: nat)
    requires FsInv(d.fs) && |d.bytes| == SECTOR * |d.fs.used| && i in d.fs.inodes
    ensures OnDevice(d.bytes, d.fs.inodes[i]) && i < |d.fs.used|
  {
    assert Holds(d.fs.owner, i, d.fs.inodes[i]);
  }

  /** Bytes that agree on the sectors of a file agree on the file. */
  lemma SameContent(bytes: seq<Byte>, after: seq<Byte>, x: Extent)
    requires OnDevice(bytes, x) && |after| == |bytes|
    requires forall b :: 0 <= b < |bytes| && InExtent(x, b / SECTOR) ==> after[b] == bytes[b]
    ensures OnDevice(after, x) && Content(after, x) == Content(bytes, x)
  {
    forall b | Base(x) <= b < Base(x) + x.length ensures after[b] == bytes[b] {
      assert InExtent(x, b / SECTOR);
    }
  }

  lemma SameStored(bytes: seq<Byte>, after: seq<Byte>, i: nat, x: Extent)
    requires Stored(bytes, i, x) && |after| == |bytes|
    requires forall b :: 0 <= b < |bytes| && b / SECTOR == i ==> after[b] == bytes[b]
    ensures Stored(after, i, x)
  {
    hide InodeSector;
    forall b | i * SECTOR <= b < i * SECTOR + SECTOR ensures after[b] == bytes[b] {
      assert b / SECTOR == i;
    }
    assert Sub(after, i * SECTOR, SECTOR) == Sub(bytes, i * SECTOR, SECTOR);
  }

  lemma OutsideFile(was: seq<Byte>, bytes: seq<Byte>, x: Extent, b: nat)
    requires OnlyFile(was, bytes, x) && b < |was|
    ensures |bytes| == |was| && (InExtent(x, b / SECTOR) || bytes[b] == was[b])
  {
    assert Base(x) <= b < Base(x) + x.length ==> InExtent(x, b / SECTOR);
  }

  // ---------------------------------------------------------------- writes

  /** A write changes bytes of its own file's sectors only. */
  lemma WriteFrame(was: seq<Byte>, x: Extent, bytes: seq<Byte>, data: seq<Byte>, offset: nat, n: nat, b: nat)
    requires OnDevice(was, x) && Put(was, x, bytes, data, offset, n) && b < |was|
    ensures |bytes| == |was| && (!InExtent(x, b / SECTOR) ==> bytes[b] == was[b])
  {
    WriteStaysInside(was, x, bytes, data, offset, n);
    OutsideFile(was, bytes, x, b);
  }

  /** A sector of another file, and every inode's own sector, is no data of
      file i. */
  lemma OtherSector(s: Fs, i: nat, j: nat, k: nat)
    requires FsInv(s) && i in s.inodes && SectorOf(s, j, k) && (k == j || i != j)
    ensures !InExtent(s.inodes[i], k)
  {
    hide Sectors;
    OneOwner(s, j, k);
    DataApart(s, i);
    if InExtent(s.inodes[i], k) { OneOwner(s, i, k); }
  }

  /** A write through an open file changes no other file's bytes, no inode and
      no directory entry. */
  lemma WriteTouchesOnlyItsFile(d: Disk, op: Op, r: Disk)
    requires DiskInv(d) && op.Write? && Step(d, op, r)
    ensures DiskInv(r)
    ensures
      var i := d.fs.handles[op.h].inode;
      && i > 1 && i in d.fs.inodes && OnDevice(d.bytes, d.fs.inodes[i]) && OnDevice(r.bytes, d.fs.inodes[i])
      && (forall j :: j in d.fs.inodes && j != i ==>
        OnDevice(d.bytes, d.fs.inodes[j]) && OnDevice(r.bytes, d.fs.inodes[j])
        && Content(r.bytes, d.fs.inodes[j]) == Content(d.bytes, d.fs.inodes[j]))
  {
    hide FsInv, Sectors, Entries, Put, OnDevice, InodeSector, Base, Moved, OnlyFile, Content, Stored;
    var i := d.fs.handles[op.h].inode;
    var n := if d.fs.table[i].deny > 0 then 0 else Moved(d.fs.inodes[i].length, |op.data|, op.offset, op.memory);
    WriteLength(d.bytes, d.fs.inodes[i], r.bytes, op.data, op.offset, n);
    NotReserved(d.fs, i);
    forall j | j in d.fs.inodes
      ensures Stored(r.bytes, j, d.fs.inodes[j])
      ensures OnDevice(d.bytes, d.fs.inodes[j]) && OnDevice(r.bytes, d.fs.inodes[j])
      ensures j != i ==> Content(r.bytes, d.fs.inodes[j]) == Content(d.bytes, d.fs.inodes[j])
    {
      WriteElsewhereFs(d, op, r, i, n, j);
    }
  }

  lemma NotReserved(s: Fs, i: nat)
    requires FsInv(s) && 1 !in s.table && i in s.table && i != 0
    ensures i > 1
  {
  }

  lemma WriteLength(was: seq<Byte>, x: Extent, bytes: seq<Byte>, data: seq<Byte>, offset: nat, n: nat)
    requires OnDevice(was, x) && Put(was, x, bytes, data, offset, n)
    ensures |bytes| == |was|
  {
  }

  lemma WriteElsewhereFs(d: Disk, op: Op, r: Disk, i: nat, n: nat, j: nat)
    requires FsInv(d.fs) && |d.bytes| == SECTOR * |d.fs.used| == |r.bytes| && op.Write?
    requires i in d.fs.inodes && j in d.fs.inodes && OnDevice(d.bytes, d.fs.inodes[i])
    requires Put(d.bytes, d.fs.inodes[i], r.bytes, op.data, op.offset, n) && Stored(d.bytes, j, d.fs.inodes[j])
    ensures Stored(r.bytes, j, d.fs.inodes[j])
    ensures OnDevice(d.bytes, d.fs.inodes[j]) && OnDevice(r.bytes, d.fs.inodes[j])
    ensures j != i ==> Content(r.bytes, d.fs.inodes[j]) == Content(d.bytes, d.fs.inodes[j])
  {
    hide FsInv, Sectors, Put, OnDevice, InodeSector, Base, Content, Stored;
    var x := d.fs.inodes[i];
    InodeOnDevice(d, j);
    SameDevice(d.bytes, r.bytes, d.fs.inodes[j]);
    forall b | 0 <= b < |d.bytes| && b / SECTOR == j ensures r.bytes[b] == d.bytes[b] {
      OtherSector(d.fs, i, j, j);
      WriteFrame(d.bytes, x, r.bytes, op.data, op.offset, n, b);
    }
    SameStored(d.bytes, r.bytes, j, d.fs.inodes[j]);
    if j != i {
      forall b | 0 <= b < |d.bytes| && InExtent(d.fs.inodes[j], b / SECTOR) ensures r.bytes[b] == d.bytes[b] {
        OtherSector(d.fs, i, j, b / SECTOR);
        WriteFrame(d.bytes, x, r.bytes, op.data, op.offset, n, b);
      }
      SameContent(d.bytes, r.bytes, d.fs.inodes[j]);
    }
  }

  // ----------------------------------------------------------------- calls

  /** No call changes the bytes of a file that it keeps. */
  lemma CallKeepsFile(d: Disk, e: Event, r: Disk, i: nat)
    requires DiskInv(d) && Step(d, Call(e), r) && i in d.fs.inodes && i in r.fs.inodes
    ensures r.fs.inodes[i] == d.fs.inodes[i] && Stored(r.bytes, i, r.fs.inodes[i])
    ensures OnDevice(d.bytes, d.fs.inodes[i]) && OnDevice(r.bytes, d.fs.inodes[i])
    ensures i > 1 ==> Content(r.bytes, d.fs.inodes[i]) == Content(d.bytes, d.fs.inodes[i])
  {
    hide FsInv, Sectors, OnDevice, InodeSector, Base, Content, Stored, Touches, Next, Enabled, Listed, Zeroed, Found, Succeeds;
    InodeOnDevice(d, i);
    ReleasedExactly(d.fs, e, i);
    SameDevice(d.bytes, r.bytes, d.fs.inodes[i]);
    forall b | 0 <= b < |d.bytes| && b / SECTOR == i ensures r.bytes[b] == d.bytes[b] {
      FileUntouched(d.fs, e, i, i);
    }
    SameStored(d.bytes, r.bytes, i, d.fs.inodes[i]);
    if i > 1 {
      forall b | 0 <= b < |d.bytes| && InExtent(d.fs.inodes[i], b / SECTOR) ensures r.bytes[b] == d.bytes[b] {
        FileUntouched(d.fs, e, i, b / SECTOR);
      }
      SameContent(d.bytes, r.bytes, d.fs.inodes[i]);
    }
  }

  /** An inode after a call is an old one or the one just created. */
  lemma InodesAfter(s: Fs, e: Event, i: nat)
    requires FsInv(s) && Enabled(s, e) && i in Next(s, e).inodes && i !in s.inodes
    ensures e.Create? && Succeeds(s, e) && i == Found(s, e).value.0
    ensures Next(s, e).inodes[i] == Extent(Found(s, e).value.1, e.length)
  {
    hide FsInv, DoClose, DoRemove, DoCreate, LastHandle, Release, HasRoom, Erases, Found, Addable;
    match e
    case CloseFile(h, written) => CloseFrame(s, h, written);
    case Remove(_, _, _, _, _, _) => RemoveFrame(s, e);
    case Create(_, _, _, _, _, _, _, _) => if Succeeds(s, e) { SuccessfulCreate(s, e); } else { FailedCreate(s, e); }
    case Open(_, _, _, _, _, _) =>
    case Reopen(_, _, _) =>
    case Deny(_) =>
    case Allow(_) =>
  }

  /** The root directory is never left open. */
  lemma RootStaysClosed(s: Fs, e: Event)
    requires FsInv(s) && Enabled(s, e) && 1 !in s.table
    ensures 1 !in Next(s, e).table
  {
    hide Ownership, Counted, DoCreate, DoClose, DoRemove, Found, Addable, Erases, Named;
    match e
    case Create(_, _, _, _, _, _, _, _) => if Succeeds(s, e) { SuccessfulCreate(s, e); } else { FailedCreate(s, e); }
    case CloseFile(h, written) => CloseTable(s, h, written);
    case Remove(_, _, _, _, _, _) => RemoveTable(s, e);
    case Open(_, _, _, _, _, _) =>
    case Reopen(h, _, _) => LastHandleIs(s, h);
    case Deny(_) =>
    case Allow(_) =>
  }

  lemma CloseTable(s: Fs, h: nat, written: bool)
    requires FsInv(s) && h in s.handles
    ensures DoClose(s, h, written).table.Keys <= s.table.Keys
  {
    hide FsInv, AllowIn, Close, LastHandle;
    AllowInv(s, h);
    LastHandleIs(s, h);
    ClosedTable(AllowIn(s, h).(handles := AllowIn(s, h).handles - {h}), s.handles[h].inode, written);
  }

  lemma RemoveTable(s: Fs, e: Event)
    requires FsInv(s) && e.Remove? && 1 !in s.table
    ensures 1 !in DoRemove(s, e).table
  {
    hide Ownership, Counted, Close, Erases;
    if Erases(s, e).Some? {
      var n := Erases(s, e).value;
      var i, table := s.es[n].sector, OpenIn(s.table, s.es[n].sector);
      ClosedTable(s.(es := s.es[n := s.es[n].(inUse := false)], table := table[i := table[i].(removed := true)]), i, e.written);
    }
  }

  /** Every name dir_add enters fits its array. */
  lemma StaysTerminated(s: Fs, e: Event)
    requires FsInv(s) && Enabled(s, e) && Terminated(s.es)
    ensures Terminated(Next(s, e).es)
  {
    hide FsInv, Next, Enabled, Found, Find, Slot, Erases;
    FileSysNames.EntriesAfter(s, e);
  }

  lemma SizeKept(s: Fs, e: Event)
    requires FsInv(s) && Enabled(s, e)
    ensures |Next(s, e).used| == |s.used|
  {
    NextInv(s, e);
    assert Holds(s.owner, 0, s.inodes[0]);
    LeakStep(s, e, 0);
    hide Next;
  }

  lemma CallInv(d: Disk, e: Event, r: Disk)
    requires DiskInv(d) && Step(d, Call(e), r)
    ensures DiskInv(r)
  {
    hide FsInv, OnDevice, InodeSector, Stored, Touches, Next, Enabled, Listed, Zeroed, Found, Addable, Content, Terminated;
    NextInv(d.fs, e);
    SizeKept(d.fs, e);
    RootStaysClosed(d.fs, e);
    StaysTerminated(d.fs, e);
    RootKept(d.fs);
    RootKept(r.fs);
    CallKeepsFile(d, e, r, 1);
    forall i | i in r.fs.inodes ensures Stored(r.bytes, i, r.fs.inodes[i]) {
      if i in d.fs.inodes { CallKeepsFile(d, e, r, i); } else { InodesAfter(d.fs, e, i); }
    }
  }

  lemma RootKept(s: Fs)
    requires FsInv(s)
    ensures 1 in s.inodes
  {
  }

  /** A new file reads as zeros. */
  lemma NewFileZeros(d: Disk, e: Event, r: Disk)
    requires DiskInv(d) && Step(d, Call(e), r) && e.Create? && Succeeds(d.fs, e)
    ensures
      var k := Found(d.fs, e).value.0;
      && k !in d.fs.inodes && k in r.fs.inodes && k > 1 && OnDevice(r.bytes, r.fs.inodes[k])
      && Content(r.bytes, r.fs.inodes[k]) == seq(e.length, j => 0)
  {
    hide FsInv, InodeSector, Touches, Next, Enabled, Found, Addable, DoCreate, Listed, OnDevice, Content, Zeroed, Stored;
    var (k, start) := Found(d.fs, e).value;
    CallInv(d, e, r);
    CreatedInode(d.fs, e);
    InodeOnDevice(r, k);
    ZeroContent(r.bytes, Extent(start, e.length));
  }

  lemma CreatedInode(s: Fs, e: Event)
    requires FsInv(s) && e.Create? && Succeeds(s, e)
    ensures
      var (k, d) := Found(s, e).value;
      && k !in s.inodes && k > 1
      && k in Next(s, e).inodes && Next(s, e).inodes[k] == Extent(d, e.length)
  {
    SuccessfulCreate(s, e);
    assert 0 in s.inodes && 1 in s.inodes;
    hide FsInv, Found, DoCreate, Succeeds;
  }

  lemma ZeroContent(bytes: seq<Byte>, x: Extent)
    requires OnDevice(bytes, x) && Zeroed(bytes, x)
    ensures Content(bytes, x) == seq(x.length, j => 0)
  {
    forall b | Base(x) <= b < Base(x) + x.length ensures bytes[b] == 0 {
      assert InExtent(x, b / SECTOR);
    }
  }

  // ------------------------------------------------------------ every run

  /** The device after do_format: inodes 0 and 1 stored, the directory zeroed. */
  ghost predicate Formatted(d: Disk) {
    && (exists n :: n >= 2 && Format(n) == Some(d.fs))
    && |d.bytes| == SECTOR * |d.fs.used|
    && (forall i :: i in d.fs.inodes ==> Stored(d.bytes, i, d.fs.inodes[i]))
    && 1 in d.fs.inodes && Zeroed(d.bytes, d.fs.inodes[1])
  }

  ghost predicate DiskRun(disks: seq<Disk>, ops: seq<Op>) {
    && |disks| == |ops| + 1
    && Formatted(disks[0])
    && forall i :: 0 <= i < |ops| ==> Step(disks[i], ops[i], disks[i + 1])
  }

  lemma FormattedInv(d: Disk)
    requires Formatted(d)
    ensures DiskInv(d)
  {
    hide FsInv, Format, InodeSector, Entries, Content, OnDevice, Zeroed, Stored;
    var n :| n >= 2 && Format(n) == Some(d.fs);
    FormatInv(n);
    FormatShape(n);
    InodeOnDevice(d, 1);
    ZeroEntries(d.bytes, d.fs.inodes[1]);
  }

  lemma FormatShape(n: nat)
    requires n >= 2 && Format(n).Some?
    ensures
      var s := Format(n).value;
      && s.es == seq(ROOT_ENTRIES, i => Entry(0, [], false)) && 1 !in s.table
      && 1 in s.inodes && s.inodes[1].length == ROOT_ENTRIES * ENTRY
  {
    hide Bitmap.Scan, Sectors, Bitmap.Fill;
  }

  lemma ZeroEntries(bytes: seq<Byte>, x: Extent)
    requires OnDevice(bytes, x) && Zeroed(bytes, x) && x.length == ROOT_ENTRIES * ENTRY
    ensures Entries(Content(bytes, x)) == seq(ROOT_ENTRIES, i => Entry(0, [], false))
  {
    var c := Content(bytes, x);
    ZeroContent(bytes, x);
    hide OnDevice, Content, Zeroed;
    forall i | 0 <= i < ROOT_ENTRIES ensures Decode(Raw(c, i)) == Entry(0, [], false) {
      var raw := Raw(c, i);
      assert forall k :: 0 <= k < ENTRY ==> raw[k] == 0;
      assert raw[4..19][0] == 0;
    }
  }

  /** In every state of every run the inodes and the directory on the device are
      those the file system works with. */
  lemma {:induction false} DiskRunInv(disks: seq<Disk>, ops: seq<Op>, i: nat)
    requires DiskRun(disks, ops) && i < |disks|
    ensures DiskInv(disks[i])
    decreases i
  {
    hide DiskInv, Step, Formatted;
    if i == 0 {
      FormattedInv(disks[0]);
    } else {
      DiskRunInv(disks, ops, i - 1);
      assert Step(disks[i - 1], ops[i - 1], disks[i]);
      match ops[i - 1]
      case Call(e) => CallInv(disks[i - 1], e, disks[i]);
      case Write(_, _, _, _) => WriteTouchesOnlyItsFile(disks[i - 1], ops[i - 1], disks[i]);
    }
  }

  /** The operation writes to file i. */
  ghost predicate WritesTo(d: Disk, op: Op, i: nat) {
    op.Write? && op.h in d.fs.handles && d.fs.handles[op.h].inode == i
  }

  ghost predicate Exists(d: Disk, i: nat) {
    i > 1 && i in d.fs.inodes
  }

  /** The bytes of file i, as reads deliver them. */
  ghost function FileBytes(d: Disk, i: nat): (c: seq<Byte>) {
    if i in d.fs.inodes && OnDevice(d.bytes, d.fs.inodes[i]) then Content(d.bytes, d.fs.inodes[i]) else []
  }

  lemma StepKeepsFile(d: Disk, op: Op, r: Disk, i: nat)
    requires DiskInv(d) && Step(d, op, r) && Exists(d, i) && Exists(r, i) && !WritesTo(d, op, i)
    ensures r.fs.inodes[i] == d.fs.inodes[i] && FileBytes(r, i) == FileBytes(d, i)
  {
    hide DiskInv, OnDevice, Content, CallEffect, Put;
    match op
    case Call(e) => CallKeepsFile(d, e, r, i);
    case Write(_, _, _, _) => WriteTouchesOnlyItsFile(d, op, r);
  }

  /** From state a to state b file i exists and nobody writes to it. */
  ghost predicate LeftAlone(disks: seq<Disk>, ops: seq<Op>, i: nat, a: nat, b: nat) {
    && a <= b < |disks| == |ops| + 1
    && (forall m :: a <= m <= b ==> Exists(disks[m], i))
    && (forall m :: a <= m < b ==> !WritesTo(disks[m], ops[m], i))
  }

  /** Over every run: while a file exists and nobody writes to it, whatever else
      is created, written, closed or removed, its bytes stay the same. */
  lemma {:induction false} BytesKept(disks: seq<Disk>, ops: seq<Op>, i: nat, a: nat, b: nat)
    requires DiskRun(disks, ops) && LeftAlone(disks, ops, i, a, b)
    ensures Exists(disks[a], i) && Exists(disks[b], i) && disks[b].fs.inodes[i] == disks[a].fs.inodes[i]
    ensures FileBytes(disks[b], i) == FileBytes(disks[a], i)
    decreases b
  {
    hide DiskInv, Step, Formatted, FileBytes, WritesTo;
    assert Exists(disks[a], i) && Exists(disks[b], i);
    if a < b {
      BytesKept(disks, ops, i, a, b - 1);
      DiskRunInv(disks, ops, b - 1);
      assert Step(disks[b - 1], ops[b - 1], disks[b]);
      StepKeepsFile(disks[b - 1], ops[b - 1], disks[b], i);
    }
  }

  /** The step creates file i with the given length. */
  ghost predicate Creates(d: Disk, op: Op, i: nat, length: nat) {
    op.Call? && op.e.Create? && Succeeds(d.fs, op.e) && Found(d.fs, op.e).value.0 == i && op.e.length == length
  }

  /** A file that was created in step a and not written to since reads as zeros,
      whatever its sectors held before. */
  lemma UnwrittenReadsZero(disks: seq<Disk>, ops: seq<Op>, i: nat, length: nat, a: nat, b: nat)
    requires DiskRun(disks, ops) && a < |ops| && Creates(disks[a], ops[a], i, length)
    requires LeftAlone(disks, ops, i, a + 1, b)
    ensures FileBytes(disks[b], i) == seq(length, j => 0)
  {
    hide DiskInv, Formatted, OnDevice, Content, LeftAlone, CallEffect, Succeeds, Found;
    DiskRunInv(disks, ops, a);
    assert Step(disks[a], ops[a], disks[a + 1]);
    NewFileZeros(disks[a], ops[a].e, disks[a + 1]);
    BytesKept(disks, ops, i, a + 1, b);
  }

  // ------------------------------------------------- names, opens and contents

  /** c with n bytes of data laid over it from offset on. */
  ghost function Overlay(c: seq<Byte>, data: seq<Byte>, offset: nat, n: nat): (r: seq<Byte>)
    ensures |r| == |c|
  {
    seq(|c|, k requires 0 <= k < |c| => if offset <= k < offset + n && k - offset < |data| then data[k - offset] else c[k])
  }

  /** How many bytes a write moves: none while some open file denies writes. */
  ghost function WriteSize(d: Disk, op: Op, length: nat): (n: nat)
    requires op.Write?
  {
    if op.h in d.fs.handles && d.fs.handles[op.h].inode in d.fs.table && d.fs.table[d.fs.handles[op.h].inode].deny > 0
    then 0 else Moved(length, |op.data|, op.offset, op.memory)
  }

  /** The bytes c of file i in state a, after the writes to it up to state b. */
  ghost function Replay(disks: seq<Disk>, ops: seq<Op>, i: nat, c: seq<Byte>, a: nat, b: nat): (r: seq<Byte>)
    requires a <= b < |disks| == |ops| + 1
    ensures |r| == |c|
  {
    if a == b then c
    else
      var was, op := Replay(disks, ops, i, c, a, b - 1), ops[b - 1];
      if WritesTo(disks[b - 1], op, i) then Overlay(was, op.data, op.offset, WriteSize(disks[b - 1], op, |c|)) else was
  }

  /** A write lays its data over the bytes of its file. */
  lemma WriteOverlays(d: Disk, op: Op, r: Disk, i: nat)
    requires DiskInv(d) && Step(d, op, r) && WritesTo(d, op, i)
    ensures Exists(d, i) && Exists(r, i) && r.fs == d.fs
    ensures |FileBytes(d, i)| == d.fs.inodes[i].length
    ensures FileBytes(r, i) == Overlay(FileBytes(d, i), op.data, op.offset, WriteSize(d, op, d.fs.inodes[i].length))
  {
    hide FsInv, InodeSector, Entries, Moved, Stored, Listed, Put, OnDevice, Content, Overlay;
    var x := d.fs.inodes[i];
    NotReserved(d.fs, i);
    PutOverlays(d.bytes, x, r.bytes, op.data, op.offset, WriteSize(d, op, x.length));
  }

  lemma PutOverlays(was: seq<Byte>, x: Extent, bytes: seq<Byte>, data: seq<Byte>, offset: nat, n: nat)
    requires OnDevice(was, x) && Put(was, x, bytes, data, offset, n)
    ensures OnDevice(bytes, x) && |Content(was, x)| == x.length
    ensures Content(bytes, x) == Overlay(Content(was, x), data, offset, n)
  {
    if n > 0 {
      WriteIsSplice(was, x, bytes, data, offset, n);
    } else {
      assert Overlay(Content(was, x), data, offset, 0) == Content(was, x);
    }
  }

  /** Over every run the bytes of a file are those it had at some time, with all
      later writes to it laid over them in order. */
  lemma {:induction false} ContentHistory(disks: seq<Disk>, ops: seq<Op>, i: nat, a: nat, b: nat)
    requires DiskRun(disks, ops) && a <= b < |disks| == |ops| + 1
    requires forall m :: a <= m <= b ==> Exists(disks[m], i)
    ensures FileBytes(disks[b], i) == Replay(disks, ops, i, FileBytes(disks[a], i), a, b)
    ensures Exists(disks[a], i) && Exists(disks[b], i) && disks[b].fs.inodes[i] == disks[a].fs.inodes[i]
    ensures |FileBytes(disks[a], i)| == disks[a].fs.inodes[i].length
    decreases b
  {
    hide DiskInv, Step, Formatted, FileBytes, WritesTo, Overlay, WriteSize;
    assert Exists(disks[a], i) && Exists(disks[b], i);
    DiskRunInv(disks, ops, a);
    BytesLength(disks[a], i);
    if a < b {
      ContentHistory(disks, ops, i, a, b - 1);
      DiskRunInv(disks, ops, b - 1);
      assert Step(disks[b - 1], ops[b - 1], disks[b]);
      if WritesTo(disks[b - 1], ops[b - 1], i) {
        WriteOverlays(disks[b - 1], ops[b - 1], disks[b], i);
      } else {
        StepKeepsFile(disks[b - 1], ops[b - 1], disks[b], i);
      }
    }
  }

  lemma BytesLength(d: Disk, i: nat)
    requires DiskInv(d) && i in d.fs.inodes
    ensures |FileBytes(d, i)| == d.fs.inodes[i].length
  {
    InodeOnDevice(d, i);
  }

  /** Every call of the run is clean: the directory is a map throughout. */
  ghost predicate CleanRun(disks: seq<Disk>, ops: seq<Op>) {
    DiskRun(disks, ops) && forall m :: 0 <= m < |ops| && ops[m].Call? ==> FileSysNames.Clean(disks[m].fs, ops[m].e)
  }

  lemma {:induction false} TidyDisks(disks: seq<Disk>, ops: seq<Op>, m: nat)
    requires CleanRun(disks, ops) && m < |disks|
    ensures FileSysNames.Tidy(disks[m].fs)
    decreases m
  {
    hide DiskInv, FileSysNames.Tidy, FileSysNames.Clean, CallEffect, Put, OnDevice, Next, Enabled, Stored, Zeroed, Format;
    if m == 0 {
      var n :| n >= 2 && Format(n) == Some(disks[0].fs);
      FileSysNames.FormatTidy(n);
    } else {
      TidyDisks(disks, ops, m - 1);
      DiskRunInv(disks, ops, m - 1);
      DiskFs(disks[m - 1]);
      assert Step(disks[m - 1], ops[m - 1], disks[m]);
      if ops[m - 1].Call? { FileSysNames.StepTidy(disks[m - 1].fs, ops[m - 1].e); }
    }
  }

  lemma DiskFs(d: Disk)
    requires DiskInv(d)
    ensures FsInv(d.fs)
  {
  }

  /** The name stands for file i. */
  ghost predicate NameFor(d: Disk, name: Name, i: nat) {
    name in AsMap(d.fs.es) && AsMap(d.fs.es)[name] == i
  }

  /** The operation is a removal of the name that takes effect. */
  ghost predicate RemovesName(d: Disk, op: Op, name: Name) {
    op.Call? && Erases(d.fs, op.e).Some? && op.e.name == name
  }

  /** A name keeps standing for its file until it is removed, and the file exists. */
  lemma {:induction false} NameHistory(disks: seq<Disk>, ops: seq<Op>, name: Name, i: nat, a: nat, b: nat)
    requires CleanRun(disks, ops) && a <= b < |disks| == |ops| + 1 && NameFor(disks[a], name, i)
    requires forall m :: a <= m < b ==> !RemovesName(disks[m], ops[m], name)
    ensures NameFor(disks[b], name, i) && Exists(disks[b], i)
    decreases b
  {
    hide DiskInv, FileSysNames.Tidy, FileSysNames.Clean, CallEffect, Put, OnDevice, Next, Enabled, AsMap, FsInv, Formatted;
    if a < b {
      NameHistory(disks, ops, name, i, a, b - 1);
      DiskRunInv(disks, ops, b - 1);
      DiskFs(disks[b - 1]);
      TidyDisks(disks, ops, b - 1);
      assert Step(disks[b - 1], ops[b - 1], disks[b]) && !RemovesName(disks[b - 1], ops[b - 1], name);
      if ops[b - 1].Call? { FileSysCalls.NameStays(disks[b - 1].fs, ops[b - 1].e, name); }
    }
    DiskRunInv(disks, ops, b);
    NamedExists(disks[b], name, i);
  }

  lemma NamedExists(d: Disk, name: Name, i: nat)
    requires DiskInv(d) && NameFor(d, name, i)
    ensures Exists(d, i)
  {
    NameIs(d.fs.es, name);
    FindIs(d.fs.es, name, 0);
    hide Find;
  }

  /** A successful creation makes its name stand for the new file. */
  lemma CreateNames(d: Disk, op: Op, r: Disk, i: nat, length: nat)
    requires DiskInv(d) && Step(d, op, r) && Creates(d, op, i, length)
    requires FileSysNames.Tidy(d.fs) && FileSysNames.Clean(d.fs, op.e)
    ensures NameFor(r, op.e.name, i) && i in r.fs.inodes && r.fs.inodes[i] == Extent(Found(d.fs, op.e).value.1, length)
  {
    FileSysNames.MapStep(d.fs, op.e);
    CreatedInode(d.fs, op.e);
    hide FsInv, Next, AsMap, Found, CallEffect, DiskInv;
  }

  /** A file created under a name and later opened by that name, in a run that
      keeps the directory a map and does not remove the name in between, is the
      created file: the handle has its inode, the inode the extent it was created
      with, and its bytes are zeros with every write to it since laid over them. */
  lemma OpensWhatWasCreated(disks: seq<Disk>, ops: seq<Op>, i: nat, length: nat, a: nat, b: nat)
    requires CleanRun(disks, ops) && a < b < |ops| && Creates(disks[a], ops[a], i, length)
    requires forall m :: a < m < b ==> !RemovesName(disks[m], ops[m], ops[a].e.name)
    requires ops[b].Call? && ops[b].e.Open? && ops[b].e.name == ops[a].e.name && ops[b].e.lookup >= ROOT_ENTRIES
    requires ops[b].e.rootOpen && ops[b].e.memory && ops[b].e.fileMemory
    ensures |disks| == |ops| + 1
    ensures ops[b].e.h in disks[b + 1].fs.handles && disks[b + 1].fs.handles[ops[b].e.h] == Handle(i, false)
    ensures Exists(disks[b + 1], i) && disks[b + 1].fs.inodes[i] == Extent(Found(disks[a].fs, ops[a].e).value.1, length)
    ensures FileBytes(disks[b + 1], i) == Replay(disks, ops, i, seq(length, j => 0), a + 1, b + 1)
  {
    hide DiskInv, FileSysNames.Tidy, FileSysNames.Clean, CallEffect, Put, OnDevice, Next, Enabled, AsMap, FsInv, Formatted;
    hide Found, Succeeds, FileBytes, Replay;
    var name := ops[a].e.name;
    DiskRunInv(disks, ops, a);
    TidyDisks(disks, ops, a);
    assert Step(disks[a], ops[a], disks[a + 1]);
    CreateNames(disks[a], ops[a], disks[a + 1], i, length);
    forall m | a + 1 <= m <= b + 1 ensures Exists(disks[m], i) && (m <= b ==> NameFor(disks[m], name, i)) {
      NameHistory(disks, ops, name, i, a + 1, m);
    }
    ContentHistory(disks, ops, i, a + 1, b + 1);
    ZeroStart(disks[a], ops[a], disks[a + 1], i, length);
    OpenFinds(disks, ops, name, i, b);
  }

  lemma ZeroStart(d: Disk, op: Op, r: Disk, i: nat, length: nat)
    requires DiskInv(d) && Step(d, op, r) && Creates(d, op, i, length)
    ensures FileBytes(r, i) == seq(length, j => 0)
  {
    NewFileZeros(d, op.e, r);
    hide DiskInv, CallEffect, Found, Succeeds, Next, OnDevice, Content;
  }

  lemma OpenFinds(disks: seq<Disk>, ops: seq<Op>, name: Name, i: nat, b: nat)
    requires CleanRun(disks, ops) && b < |ops| && NameFor(disks[b], name, i)
    requires ops[b].Call? && ops[b].e.Open? && ops[b].e.name == name && ops[b].e.lookup >= ROOT_ENTRIES
    requires ops[b].e.rootOpen && ops[b].e.memory && ops[b].e.fileMemory
    ensures ops[b].e.h in disks[b + 1].fs.handles && disks[b + 1].fs.handles[ops[b].e.h] == Handle(i, false)
  {
    hide DiskInv, FileSysNames.Tidy, FileSysNames.Clean, CallEffect, Put, OnDevice, Next, Enabled, AsMap, FsInv, Formatted;
    hide FileSysCalls.OpenedOnce;
    DiskRunInv(disks, ops, b);
    DiskFs(disks[b]);
    TidyDisks(disks, ops, b);
    assert Step(disks[b], ops[b], disks[b + 1]);
    FileSysCalls.OpensByName(disks[b].fs, ops[b].e);
  }

  // --------------------------------------------------------- the code itself

  /** The block writes of inode_create: the inode, then its data, zeroed. */
  method InodeCreateBlocks(dev: Device, sector: nat, x: Extent)
    requires OnDevice(dev.bytes, x) && sector * SECTOR + SECTOR <= |dev.bytes| && !InExtent(x, sector)
    modifies dev
    ensures |dev.bytes| == |old(dev.bytes)| && Stored(dev.bytes, sector, x) && Zeroed(dev.bytes, x)
    ensures forall b :: 0 <= b < |dev.bytes| && b / SECTOR != sector && !InExtent(x, b / SECTOR) ==>
      dev.bytes[b] == old(dev.bytes)[b]
  {
    hide InodeSector, Sectors;
    dev.BlockWrite(sector, InodeSector(x));
    ghost var was := dev.bytes;
    assert Stored(was, sector, x);
    var i := 0;
    while i < Sectors(x)
      invariant 0 <= i <= Sectors(x) && |dev.bytes| == |was|
      invariant forall b :: 0 <= b < |was| ==>
        dev.bytes[b] == if x.start <= b / SECTOR < x.start + i then 0 else was[b]
    {
      dev.BlockWrite(x.start + i, seq(SECTOR, k => 0));
      i := i + 1;
    }
    SameStored(was, dev.bytes, sector, x);
  }

  /** The end of filesys_create on the device, once sectors are found: inode_create
      and dir_add have the effect that Step describes. */
  method CreateOnDevice(dev: Device, ghost s: Fs, e: Event, root: Extent, k: nat, x: Extent) returns (ok: bool)
    requires DiskInv(Disk(s, dev.bytes)) && e.Create? && Found(s, e) == Some((k, x.start)) && x.length == e.length
    requires root == s.inodes[1] && IsString(e.name) && k < 0x1_0000_0000
    modifies dev
    ensures ok <==> Succeeds(s, e)
    ensures CallEffect(s, e, old(dev.bytes), dev.bytes)
  {
    hide FsInv, Found, DoCreate, InodeSector, Entries, OnDevice, Sectors, Content, Addable, Added, CallEffect;
    ghost var was := dev.bytes;
    CreateFits(Disk(s, was), e, k, x);
    InodeCreateBlocks(dev, k, x);
    ghost var mid := dev.bytes;
    RootAlone(Disk(s, was), mid, e, k, x);
    var dir := new Dir(dev, root);
    ok := dir.Add(e.name, k, e.dirMemory);
    CreateEffect(s, e, was, mid, dev.bytes, root, k, x, ok);
  }

  lemma CreateFits(d: Disk, e: Event, k: nat, x: Extent)
    requires DiskInv(d) && e.Create? && Found(d.fs, e) == Some((k, x.start)) && x.length == e.length
    ensures OnDevice(d.bytes, x) && k * SECTOR + SECTOR <= |d.bytes| && !InExtent(x, k)
    ensures OnDevice(d.bytes, d.fs.inodes[1])
  {
    FoundIs(d.fs, e);
    assert Extent(x.start, e.length) == x;
    FoundApart(d.fs.used, k, x);
    InodeOnDevice(d, 1);
  }

  /** The new sectors are no sectors of the root directory. */
  lemma RootAlone(d: Disk, mid: seq<Byte>, e: Event, k: nat, x: Extent)
    requires DiskInv(d) && e.Create? && Found(d.fs, e) == Some((k, x.start)) && x.length == e.length
    requires |mid| == |d.bytes| && OnDevice(d.bytes, d.fs.inodes[1])
    requires forall b :: 0 <= b < |mid| && b / SECTOR != k && !InExtent(x, b / SECTOR) ==> mid[b] == d.bytes[b]
    ensures Listed(mid, d.fs.inodes[1], d.fs.es)
    ensures forall j :: InExtent(d.fs.inodes[1], j) ==> j != k && !InExtent(x, j)
  {
    hide FsInv, Found, Sectors, OnDevice, Entries, Content, InodeSector;
    assert Extent(x.start, e.length) == x;
    forall j: int | InExtent(d.fs.inodes[1], j) ensures j != k && !InExtent(x, j) {
      OneOwner(d.fs, 1, j);
      FoundFree(d.fs, e, j);
    }
    SameContent(d.bytes, mid, d.fs.inodes[1]);
  }

  lemma CreateEffect(s: Fs, e: Event, was: seq<Byte>, mid: seq<Byte>, after: seq<Byte>, root: Extent, k: nat, x: Extent, ok: bool)
    requires FsInv(s) && 1 in s.inodes && root == s.inodes[1]
    requires e.Create? && Found(s, e) == Some((k, x.start)) && x.length == e.length && (ok <==> Addable(s.es, e.name, e.dirMemory))
    requires |mid| == |was| && Stored(mid, k, x) && Zeroed(mid, x)
    requires forall b :: 0 <= b < |mid| && b / SECTOR != k && !InExtent(x, b / SECTOR) ==> mid[b] == was[b]
    requires forall j :: InExtent(root, j) ==> j != k && !InExtent(x, j)
    requires OnlyFile(mid, after, root)
    requires Listed(after, root, if ok then Added(s.es, e.name, k, e.dirMemory.scan) else s.es)
    ensures CallEffect(s, e, was, after)
  {
    hide FsInv, Found, DoCreate, InodeSector, Entries, Addable, Added, Listed, Sectors, OnlyFile, Stored;
    if ok { SuccessfulCreate(s, e); } else { FailedCreate(s, e); }
    assert Extent(x.start, e.length) == x;
    OutsideLength(mid, after, root);
    forall b | 0 <= b < |mid| && !InExtent(root, b / SECTOR) ensures after[b] == mid[b] {
      OutsideFile(mid, after, root, b);
    }
    SameStored(mid, after, k, x);
  }

  lemma OutsideLength(was: seq<Byte>, bytes: seq<Byte>, x: Extent)
    requires OnlyFile(was, bytes, x)
    ensures |bytes| == |was|
  {
  }

  /** filesys_remove on the device; inodeOpen says whether inode_open finds the
      inode open or memory for it. */
  method RemoveOnDevice(dev: Device, ghost s: Fs, e: Event, root: Extent, inodeOpen: bool) returns (ok: bool)
    requires DiskInv(Disk(s, dev.bytes)) && e.Remove? && e.rootOpen && root == s.inodes[1] && IsString(e.name)
    requires
      var slot := FoundAt(s.es, e.name, e.lookup);
      slot.Some? ==> (inodeOpen <==> s.es[slot.value].sector in s.table || e.memory)
    modifies dev
    ensures ok <==> Erases(s, e).Some?
    ensures CallEffect(s, e, old(dev.bytes), dev.bytes)
  {
    hide FsInv, InodeSector, Entries, OnDevice, Sectors, Content, CallEffect, Find;
    ghost var was := dev.bytes;
    InodeOnDevice(Disk(s, was), 1);
    FindIs(Cut(s.es, e.lookup), e.name, 0);
    var dir := new Dir(dev, root);
    var r := dir.Remove(e.name, e.lookup, inodeOpen, e.entryMemory);
    ok := r.Some?;
    RemoveEffect(s, e, was, dev.bytes, root);
  }

  lemma RemoveEffect(s: Fs, e: Event, was: seq<Byte>, after: seq<Byte>, root: Extent)
    requires FsInv(s) && 1 in s.inodes && root == s.inodes[1] && e.Remove?
    requires OnlyFile(was, after, root)
    requires
      Listed(after, root,
             if Erases(s, e).Some? then s.es[Erases(s, e).value := s.es[Erases(s, e).value].(inUse := false)] else s.es)
    ensures CallEffect(s, e, was, after)
  {
    hide FsInv, Erases, Listed, DoRemove, Sectors, OnlyFile;
    FileSysNames.ErasedEntries(s, e);
    OutsideLength(was, after, root);
    forall b | 0 <= b < |was| && !InExtent(root, b / SECTOR) ensures after[b] == was[b] {
      OutsideFile(was, after, root, b);
    }
  }
}
