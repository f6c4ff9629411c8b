/** When the root directory is a map from names to files.  dir_add trusts a short
    read to mean the end of the directory; a read that finds no memory for its
    bounce buffer is short too, and then an entry in use can be overwritten or a
    name be entered twice. */
module FileSysNames {
  import opened Prelude
  import opened Bitmap
  import opened Inode
  import opened Directory
  import opened FileSys
  import opened FileSysProtocol
  import opened FileSysTheorems

  // ------------------------------------------------------------- lost files

  /** A file that no entry stands for and that nobody has removed: its sectors
      will never be free again. */
  ghost predicate Lost(s: Fs, i: nat) {
    i in s.inodes && i > 1 && !Named(s.es, i) && !(i in s.table && s.table[i].removed)
  }

  /** The slot a successful creation writes. */
  function Target(s: Fs, e: Event): (r: Option<nat>)
    ensures r.Some? ==> e.Create? && r.value < |s.es|
  {
    if e.Create? && Succeeds(s, e) then Some(Slot(s.es, e.dirMemory.scan)) else None
  }

  /** The step is a creation that writes over the entry of file i. */
  predicate Overwrites(s: Fs, e: Event, i: nat) {
    Target(s, e).Some? && s.es[Target(s, e).value].inUse && s.es[Target(s, e).value].sector == i
  }

  /** Files are lost exactly when a creation writes over their entry. */
  lemma LostExactly(s: Fs, e: Event, i: nat)
    requires FsInv(s) && Enabled(s, e)
    ensures Lost(Next(s, e), i) <==> Lost(s, i) || Overwrites(s, e, i)
  {
    hide FsInv, DoClose, DoRemove, DoCreate, Named, Target, Erases;
    match e
    case Create(_, _, _, _, _, _, _, _) => CreateLoses(s, e, i);
    case CloseFile(h, written) => CloseLoses(s, h, written, i);
    case Remove(_, _, _, _, _, _) => RemoveLoses(s, e, i);
    case Open(name, h, _, lookup, _, _) =>
      var slot := FoundAt(s.es, name, lookup);
      if slot.Some? { OpenLoses(s, Next(s, e), s.es[slot.value].sector, i); }
    case Reopen(h, _, _) => OpenLoses(s, Next(s, e), s.handles[h].inode, i);
    case Deny(h) =>
    case Allow(h) =>
  }

  lemma OpenLoses(s: Fs, t: Fs, j: nat, i: nat)
    requires t == s || (t.es == s.es && t.inodes == s.inodes && t.table == OpenIn(s.table, j))
    ensures Lost(t, i) <==> Lost(s, i)
  {
    hide Named;
  }

  lemma CloseLoses(s: Fs, h: nat, written: bool, i: nat)
    requires FsInv(s) && h in s.handles
    ensures Lost(DoClose(s, h, written), i) <==> Lost(s, i)
  {
    hide FsInv, Ownership, Naming, Counted, AllowIn, Close, Named, LastHandle;
    AllowInv(s, h);
    OpenInode1(s, h);
    CloseFrame(s, h, written);
    LastHandleIs(s, h);
    var s1, j := AllowIn(s, h), s.handles[h].inode;
    ClosedTable(s1.(handles := s1.handles - {h}), j, written);
  }

  lemma RemoveLoses(s: Fs, e: Event, i: nat)
    requires FsInv(s) && e.Remove?
    ensures Lost(DoRemove(s, e), i) <==> Lost(s, i)
  {
    RemoveFrame(s, e);
    if Erases(s, e).Some? {
      var n := Erases(s, e).value;
      var j := s.es[n].sector;
      var es, table := s.es[n := s.es[n].(inUse := false)], OpenIn(s.table, j);
      ErasedNamed(s, n, i);
      CountPositive(s, j);
      ClosedTable(s.(es := es, table := table[j := table[j].(removed := true)]), j, e.written);
      hide FsInv, Close, Named, Release, Erases;
    }
  }

  lemma CountPositive(s: Fs, j: nat)
    requires FsInv(s)
    ensures j in s.table ==> s.table[j].count > 0
  {
    assert j in s.table ==> CountAt(s.table[j], s.handles, j);
  }

  /** Erasing slot n unnames its inode and no other. */
  lemma ErasedNamed(s: Fs, n: nat, i: nat)
    requires FsInv(s) && n < |s.es| && s.es[n].inUse
    ensures Named(s.es, s.es[n].sector)
    ensures Named(s.es[n := s.es[n].(inUse := false)], i) <==> Named(s.es, i) && i != s.es[n].sector
  {
    var es := s.es[n := s.es[n].(inUse := false)];
    if Named(es, i) {
      var a :| 0 <= a < |es| && es[a].inUse && es[a].sector == i;
      assert s.es[a].inUse && s.es[a].sector == i;
    }
    if Named(s.es, i) && i != s.es[n].sector {
      var a :| 0 <= a < |s.es| && s.es[a].inUse && s.es[a].sector == i;
      assert es[a].inUse && es[a].sector == i;
    }
  }

  lemma CreateLoses(s: Fs, e: Event, i: nat)
    requires FsInv(s) && e.Create?
    ensures Lost(DoCreate(s, e), i) <==> Lost(s, i) || Overwrites(s, e, i)
  {
    if Succeeds(s, e) {
      SuccessfulCreate(s, e);
      var k, n := Found(s, e).value.0, Slot(s.es, e.dirMemory.scan);
      NewNamed(s, n, k, e.name, i);
      hide FsInv, DoCreate, Found, Named, Slot, Addable;
    } else {
      FailedCreate(s, e);
      hide FsInv, DoCreate, Found, Named, Addable;
    }
  }

  /** Writing slot n names the new inode and unnames the one that stood there. */
  lemma NewNamed(s: Fs, n: nat, k: nat, name: Name, i: nat)
    requires FsInv(s) && n < |s.es| && k !in s.inodes
    ensures Named(s.es[n := Entry(k, name, true)], i) <==>
      i == k || (Named(s.es, i) && !(s.es[n].inUse && s.es[n].sector == i))
    ensures s.es[n].inUse ==>
      Named(s.es, s.es[n].sector) && s.es[n].sector in s.inodes && s.es[n].sector > 1
      && !(s.es[n].sector in s.table && s.table[s.es[n].sector].removed)
    ensures k !in s.table
  {
    var es := s.es[n := Entry(k, name, true)];
    assert es[n].inUse && es[n].sector == k;
    if i != k && Named(es, i) {
      var a :| 0 <= a < |es| && es[a].inUse && es[a].sector == i;
      assert s.es[a].inUse && s.es[a].sector == i;
    }
    if Named(s.es, i) && !(s.es[n].inUse && s.es[n].sector == i) {
      var a :| 0 <= a < |s.es| && s.es[a].inUse && s.es[a].sector == i;
      assert es[a].inUse && es[a].sector == i;
    }
  }

  // ------------------------------------------------------ a map from names

  /** The directory is a map with an entry for every file that is not removed. */
  ghost predicate Tidy(s: Fs) {
    UniqueNames(s.es) && forall i :: !Lost(s, i)
  }

  /** The condition on a step, to be read off before it is taken: a creation that
      succeeds writes a free slot, and no slot has the name. */
  ghost predicate Clean(s: Fs, e: Event) {
    Target(s, e).Some? ==> !s.es[Target(s, e).value].inUse && Lookup(s.es, e.name) == None
  }

  lemma EntriesAfter(s: Fs, e: Event)
    requires FsInv(s) && Enabled(s, e)
    ensures
      var es := Next(s, e).es;
      if Target(s, e).Some? then
        Found(s, e).Some? && es == s.es[Target(s, e).value := Entry(Found(s, e).value.0, e.name, true)]
      else if Erases(s, e).Some? then es == s.es[Erases(s, e).value := s.es[Erases(s, e).value].(inUse := false)]
      else es == s.es
  {
    match e
    case Create(_, _, _, _, _, _, _, _) =>
      if Succeeds(s, e) { SuccessfulCreate(s, e); } else { FailedCreate(s, e); }
      hide DoCreate, Found, Slot, FsInv;
    case CloseFile(h, written) =>
      AllowInv(s, h);
      OpenInode1(s, h);
      ClosedTable(AllowIn(s, h).(handles := AllowIn(s, h).handles - {h}), s.handles[h].inode, written);
      hide AllowIn, Close, FsInv;
    case Remove(_, _, _, _, _, _) => ErasedEntries(s, e);
    case Open(_, _, _, _, _, _) =>
    case Reopen(_, _, _) =>
    case Deny(_) =>
    case Allow(_) =>
  }

  lemma ErasedEntries(s: Fs, e: Event)
    requires e.Remove?
    ensures
      DoRemove(s, e).es ==
      if Erases(s, e).Some? then s.es[Erases(s, e).value := s.es[Erases(s, e).value].(inUse := false)] else s.es
  {
    hide Close, Erases;
    if Erases(s, e).Some? {
      var n := Erases(s, e).value;
      var j := s.es[n].sector;
      var table := OpenIn(s.table, j);
      ClosedTable(s.(es := s.es[n := s.es[n].(inUse := false)], table := table[j := table[j].(removed := true)]), j, e.written);
    }
  }

  /** A step from a tidy state leads to a tidy state exactly when it is clean. */
  lemma StepTidy(s: Fs, e: Event)
    requires FsInv(s) && Enabled(s, e) && Tidy(s)
    ensures Tidy(Next(s, e)) <==> Clean(s, e)
  {
    hide FsInv, Next, Enabled, Target, Lost, Erases, Lookup, UniqueNames, Found;
    EntriesAfter(s, e);
    forall i ensures Lost(Next(s, e), i) <==> Overwrites(s, e, i) {
      LostExactly(s, e, i);
    }
    if Target(s, e).Some? {
      var n := Target(s, e).value;
      if s.es[n].inUse {
        assert Overwrites(s, e, s.es[n].sector);
      } else {
        AddedUnique(s.es, e.name, Found(s, e).value.0, n);
      }
    } else if Erases(s, e).Some? {
      RemoveSpec(s.es, s.es[Erases(s, e).value].name, Erases(s, e).value);
    }
  }

  lemma AddedUnique(es: seq<Entry>, name: Name, k: nat, n: nat)
    requires UniqueNames(es) && n < |es| && !es[n].inUse
    ensures UniqueNames(es[n := Entry(k, name, true)]) <==> Lookup(es, name) == None
  {
    var after := es[n := Entry(k, name, true)];
    FindIs(es, name, 0);
    if Lookup(es, name) == None {
      AddSpec(es, name, k, n);
    } else {
      var j := Find(es, name, 0).value;
      assert Matches(after[j], after[n].name) && j != n;
    }
  }

  /** In every run all states are tidy exactly when all steps are clean. */
  lemma TidyRuns(states: seq<Fs>, events: seq<Event>)
    requires Run(states, events)
    ensures
      && (forall i :: 0 <= i < |states| ==> Tidy(states[i]))
      <==> (forall j :: 0 <= j < |events| ==> Clean(states[j], events[j]))
  {
    hide Tidy, Clean, FsInv, Next, Enabled, Format;
    if forall j :: 0 <= j < |events| ==> Clean(states[j], events[j]) {
      forall i | 0 <= i < |states| ensures Tidy(states[i]) { TidyUpTo(states, events, i); }
    }
    if forall i :: 0 <= i < |states| ==> Tidy(states[i]) {
      forall j | 0 <= j < |events| ensures Clean(states[j], events[j]) {
        RunInv(states, events, j);
        StepTidy(states[j], events[j]);
        assert Tidy(states[j + 1]);
      }
    }
  }

  lemma {:induction false} TidyUpTo(states: seq<Fs>, events: seq<Event>, i: nat)
    requires Run(states, events) && i < |states|
    requires forall j :: 0 <= j < |events| ==> Clean(states[j], events[j])
    ensures Tidy(states[i])
    decreases i
  {
    hide Tidy, Clean, FsInv, Next, Enabled, Format;
    if i == 0 {
      var n :| n >= 2 && Format(n) == Some(states[0]);
      FormatTidy(n);
    } else {
      TidyUpTo(states, events, i - 1);
      RunInv(states, events, i - 1);
      StepTidy(states[i - 1], events[i - 1]);
    }
  }

  lemma FormatTidy(n: nat)
    requires n >= 2 && Format(n).Some?
    ensures Tidy(Format(n).value)
  {
    hide Scan, Sectors, Fill;
    var s := Format(n).value;
    assert s.inodes.Keys == {0, 1};
    assert forall j :: 0 <= j < |s.es| ==> !s.es[j].inUse;
  }

  /** Then the directory is a map: a creation adds its name, a removal takes its
      name out, and no other step changes it. */
  lemma MapStep(s: Fs, e: Event)
    requires FsInv(s) && Enabled(s, e) && Tidy(s) && Clean(s, e)
    ensures
      var m := AsMap(s.es);
      AsMap(Next(s, e).es) ==
      if Target(s, e).Some? then m[e.name := Found(s, e).value.0]
      else if Erases(s, e).Some? then m - {e.name}
      else m
  {
    hide FsInv, Next, Enabled, Lost, AsMap, Lookup, UniqueNames, Found, FoundAt, Find;
    EntriesAfter(s, e);
    if Target(s, e).Some? {
      AddToMap(s.es, e.name, Found(s, e).value.0, Target(s, e).value);
    } else if Erases(s, e).Some? {
      RemoveFromMap(s.es, e.name, Erases(s, e).value);
    }
  }

  /** A creation all of whose reads of entries find memory is clean. */
  lemma MemoryIsClean(s: Fs, e: Event)
    requires FsInv(s)
    requires e.Create? ==> e.dirMemory.lookup >= ROOT_ENTRIES && e.dirMemory.scan >= ROOT_ENTRIES
    ensures Clean(s, e)
  {
    hide Found, Slot, Find;
    if Target(s, e).Some? { AddWithMemory(s.es, e.name, e.dirMemory); }
  }

  // ----------------------------------------------------------- two examples

  /** A volume of eight sectors: the free map has sector 2, the root directory
      sector 3; the first file of one byte gets sectors 4 and 5. */
  function Taken(n: nat): (r: seq<bool>) {
    seq(8, k => k < n)
  }

  lemma ScanTaken(n: nat)
    requires n < 8
    ensures Scan(Taken(n), 0, 1, false) == Some(n)
    ensures Fill(Taken(n), n, 1, true) == Taken(n + 1)
  {
    ScanIsFirst(Taken(n), 0, 1, false);
    assert Group(Taken(n), n, 1, false);
    forall j | 0 <= j < n ensures !Group(Taken(n), j, 1, false) {
      assert Taken(n)[j];
    }
  }

  lemma OneSector(d: nat)
    ensures Sectors(Extent(d, 1)) == 1 && Sectors(Extent(d, MapBytes(8))) == 1 && Sectors(Extent(d, ROOT_ENTRIES * 20)) == 1
  {
  }

  function EmptySlots(): (r: seq<Entry>) {
    seq(ROOT_ENTRIES, i => Entry(0, [], false))
  }

  lemma Formatted() returns (s: Fs)
    ensures Reachable(s) && Tidy(s) && s.used == Taken(4) && s.es == EmptySlots()
  {
    var b := Blank(8);
    assert b.used == Taken(2);
    OneSector(0);
    OneSector(2);
    OneSector(3);
    ScanTaken(2);
    ScanTaken(3);
    hide Scan, Sectors, Fill, Taken, MapBytes;
    var f := WithData(b, 0, MapBytes(8));
    assert f.Some? && f.value.used == Taken(3);
    s := Format(8).value;
    FormatTidy(8);
    assert Run([s], []) && [s][0] == s;
  }

  function OneByte(name: Name, dirMemory: Memory): (e: Event) {
    Create(name, 1, true, true, true, true, true, dirMemory)
  }

  /** With n < 7 sectors taken, a file of one byte gets the next two. */
  lemma FindsTwo(s: Fs, e: Event, n: nat)
    requires s.used == Taken(n) && n < 7 && e.Create? && e.length == 1 && e.rootOpen && e.memory && e.written && e.written2
    ensures Found(s, e) == Some((n, n + 1))
  {
    ScanTaken(n);
    ScanTaken(n + 1);
    OneSector(0);
    hide Scan, Sectors, Fill, Taken;
  }

  /** The name "a" is entered in slot 0. */
  lemma FileA() returns (s: Fs)
    ensures Reachable(s) && FsInv(s) && Tidy(s) && s.used == Taken(6)
    ensures s.es == EmptySlots()[0 := Entry(4, [97], true)] && 4 in s.inodes
  {
    hide Reachable, FsInv, Tidy, Clean, Found, DoCreate, Addable, Taken, Slot;
    var f := Formatted();
    var e := OneByte([97], Memory(16, 16, true));
    EmptyAddable([97]);
    FindsTwo(f, e, 4);
    ReachableInv(f);
    MemoryIsClean(f, e);
    StepTidy(f, e);
    SuccessfulCreate(f, e);
    ReachableStep(f, e);
    s := Next(f, e);
    ReachableInv(s);
    AddedTakes(f, e);
  }

  lemma EmptyAddable(name: Name)
    requires 0 < |name| <= NAME_MAX
    ensures Addable(EmptySlots(), name, Memory(16, 16, true)) && Slot(EmptySlots(), 16) == 0
  {
    FindIs(EmptySlots(), name, 0);
  }

  lemma AddedTakes(f: Fs, e: Event)
    requires f.used == Taken(4) && e == OneByte([97], Memory(16, 16, true)) && f.es == EmptySlots()
    requires Found(f, e) == Some((4, 5)) && Addable(f.es, e.name, e.dirMemory)
    ensures DoCreate(f, e).used == Taken(6)
  {
    FoundIs(f, e);
    ScanTaken(4);
    ScanTaken(5);
    OneSector(5);
    hide Found, DoCreate, Taken, Sectors, Addable, Scan;
  }

  /** Creating "a" twice leaks the second file's data sector. */
  lemma DuplicateNameLeaks() returns (s: Fs, e: Event)
    ensures Reachable(s) && e == OneByte([97], Memory(16, 16, true)) && Leaks(s, e)
    ensures Next(s, e).es == s.es && Next(s, e).inodes == s.inodes && Next(s, e).used != s.used
  {
    s := FileA();
    e := OneByte([97], Memory(16, 16, true));
    FindsTwo(s, e, 6);
    FindIs(s.es, [97], 0);
    assert Matches(s.es[0], [97]);
    FailedCreate(s, e);
  }

  /** Creating "b" while the first read of the slot search finds no memory
      overwrites the entry of "a", whose sectors are lost. */
  lemma OverwrittenName() returns (s: Fs, e: Event)
    ensures Reachable(s) && e == OneByte([98], Memory(16, 0, true)) && Tidy(s) && !Clean(s, e)
    ensures Lookup(s.es, [97]) == Some(4) && Lookup(Next(s, e).es, [97]) == None
    ensures !Lost(s, 4) && Lost(Next(s, e), 4)
  {
    hide Reachable, FsInv, Next, Lost, Lookup, UniqueNames, Found, Taken, Target;
    s := FileA();
    e := OneByte([98], Memory(16, 0, true));
    FindsTwo(s, e, 6);
    OverwriteTarget(s, e);
    LostExactly(s, e, 4);
    EntriesAfter(s, e);
    NameLost(s.es, [98], 6, 0);
  }

  lemma OverwriteTarget(s: Fs, e: Event)
    requires s.es == EmptySlots()[0 := Entry(4, [97], true)] && e == OneByte([98], Memory(16, 0, true)) && Found(s, e).Some?
    ensures Target(s, e) == Some(0)
  {
    FindIs(s.es, [98], 0);
    assert Cut(s.es, 0) == [];
  }
}
