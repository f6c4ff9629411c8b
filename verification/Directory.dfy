/** filesys/directory.c: a directory is a file of 20-byte entries, some of them
    straddling sectors.  The entries act as a bounded map from names to inode
    sectors. */
module Directory {
  import opened Prelude
  import opened Strings
  import opened Inode
  import opened Arithmetic

  /** sizeof (struct dir_entry). */
  const ENTRY := 20
  const NAME_MAX := 14

  datatype Entry = Entry(sector: nat, name: seq<Byte>, inUse: bool)

  // ----------------------------------------------------- bytes and entries

  function Word(s: seq<Byte>): (r: nat)
    requires |s| == 4
  {
    (s[0] as int) + 0x100 * (s[1] as int) + 0x10000 * (s[2] as int) + 0x1000000 * (s[3] as int)
  }

  function WordBytes(x: nat): (r: seq<Byte>) {
    [x % 0x100, x / 0x100 % 0x100, x / 0x10000 % 0x100, x / 0x1000000 % 0x100]
  }

  function Decode(raw: seq<Byte>): (r: Entry)
    requires |raw| == ENTRY
  {
    Entry(Word(raw[..4]), CString(raw[4..19]), raw[19] != 0)
  }

  /** The entry that dir_add stores over the bytes raw: strlcpy leaves the bytes
      behind the terminating zero as they were. */
  function Encode(raw: seq<Byte>, name: seq<Byte>, sector: nat): (r: seq<Byte>)
    requires |raw| == ENTRY && |name| <= NAME_MAX
    ensures |r| == ENTRY
  {
    WordBytes(sector) + name + [0] + raw[4 + |name| + 1..19] + [1]
  }

  lemma WordRoundTrip(x: nat)
    requires x < 0x1_0000_0000
    ensures Word(WordBytes(x)) == x
  {
    var a := x / 0x100;
    var b := a / 0x100;
    var c := b / 0x100;
    DivDiv(x, 0x100, 0x100);
    DivDiv(x, 0x10000, 0x100);
    assert x == 0x100 * a + x % 0x100 && a == 0x100 * b + a % 0x100 && b == 0x100 * c + b % 0x100;
    assert c < 0x100 && c % 0x100 == c;
  }

  /** What dir_add stores is what lookup reads. */
  lemma DecodeEncode(raw: seq<Byte>, name: seq<Byte>, sector: nat)
    requires |raw| == ENTRY && |name| <= NAME_MAX && IsString(name) && sector < 0x1_0000_0000
    ensures Decode(Encode(raw, name, sector)) == Entry(sector, name, true)
  {
    var r := Encode(raw, name, sector);
    WordRoundTrip(sector);
    CStringStops(name, raw[4 + |name| + 1..19]);
    assert r[..4] == WordBytes(sector);
    assert r[4..19] == name + [0] + raw[4 + |name| + 1..19];
  }

  /** The number whose bytes, low byte first, are s. */
  ghost function LowFirst(s: seq<Byte>): (n: int) {
    if s == [] then 0 else (s[0] as int) + 256 * LowFirst(s[1..])
  }

  lemma WordIsLowFirst(s: seq<Byte>)
    requires |s| == 4
    ensures Word(s) == LowFirst(s)
  {
    var a := s[1..];
    var b := a[1..];
    var c := b[1..];
    assert c[1..] == [] && a[0] == s[1] && b[0] == s[2] && c[0] == s[3];
    assert LowFirst(c) == c[0] as int;
    assert LowFirst(b) == (b[0] as int) + 256 * LowFirst(c);
    assert LowFirst(a) == (a[0] as int) + 256 * LowFirst(b);
  }

  /** The layout of an entry on disk: the sector, low byte first, the name up to its
      first zero byte, and the flag. */
  lemma DecodeLayout(raw: seq<Byte>)
    requires |raw| == 20
    ensures
      var e := Decode(raw);
      && e.sector == LowFirst(raw[..4])
      && e.name == CString(raw[4..19]) && e.inUse == (raw[19] != 0)
  {
    WordIsLowFirst(raw[..4]);
  }

  /** What dir_add stores: sector, name, a zero byte, the flag, and of the rest what
      was there. */
  lemma EncodeLayout(raw: seq<Byte>, name: seq<Byte>, sector: nat)
    requires |raw| == 20 && |name| <= 14 && sector < 0x1_0000_0000
    ensures
      var r := Encode(raw, name, sector);
      && |r| == 20 && LowFirst(r[..4]) == sector
      && r[4..4 + |name|] == name && r[4 + |name|] == 0 && r[19] == 1
      && forall i :: 4 + |name| < i < 19 ==> r[i] == raw[i]
  {
    WordRoundTrip(sector);
    WordIsLowFirst(WordBytes(sector));
    var r := Encode(raw, name, sector);
    assert r[..4] == WordBytes(sector);
    hide WordBytes, LowFirst;
  }

  lemma DecodeErase(raw: seq<Byte>)
    requires |raw| == ENTRY
    ensures Decode(raw[..19] + [0]) == Decode(raw).(inUse := false)
  {
    var r := raw[..19] + [0];
    assert r[..4] == raw[..4] && r[4..19] == raw[4..19];
  }

  function Slots(c: seq<Byte>): (n: nat)
    ensures n * ENTRY <= |c| < n * ENTRY + ENTRY
  {
    |c| / ENTRY
  }

  function Raw(c: seq<Byte>, i: nat): (r: seq<Byte>)
    requires i < Slots(c)
  {
    Sub(c, i * ENTRY, ENTRY)
  }

  function Entries(c: seq<Byte>): (r: seq<Entry>) {
    seq(Slots(c), i requires 0 <= i < Slots(c) => Decode(Raw(c, i)))
  }

  /** Writing a slot changes that entry and no other. */
  lemma SlotWritten(c: seq<Byte>, i: nat, raw: seq<Byte>)
    requires i < Slots(c) && |raw| == ENTRY
    ensures Entries(Splice(c, i * ENTRY, raw)) == Entries(c)[i := Decode(raw)]
  {
    var after := Splice(c, i * ENTRY, raw);
    forall j | 0 <= j < Slots(c) ensures Raw(after, j) == if j == i then raw else Raw(c, j) {
      RawAfter(c, i, raw, j);
    }
  }

  lemma RawAfter(c: seq<Byte>, i: nat, raw: seq<Byte>, j: nat)
    requires i < Slots(c) && j < Slots(c) && |raw| == ENTRY
    ensures Raw(Splice(c, i * ENTRY, raw), j) == if j == i then raw else Raw(c, j)
  {
    assert j < i ==> j * ENTRY + ENTRY <= i * ENTRY;
    assert j > i ==> i * ENTRY + ENTRY <= j * ENTRY;
  }

  /** Bytes behind the last whole entry do not matter. */
  lemma TailWritten(c: seq<Byte>, t: seq<Byte>)
    requires Slots(c) * ENTRY + |t| <= |c|
    ensures Entries(Splice(c, Slots(c) * ENTRY, t)) == Entries(c)
  {
    var after := Splice(c, Slots(c) * ENTRY, t);
    forall j | 0 <= j < Slots(c) ensures Raw(after, j) == Raw(c, j) {
      assert j * ENTRY + ENTRY <= Slots(c) * ENTRY;
    }
  }

  // ------------------------------------------------------ the map of names

  predicate Matches(e: Entry, name: seq<Byte>) {
    e.inUse && e.name == name
  }

  /** lookup: the first entry in use with the name. */
  function Find(es: seq<Entry>, name: seq<Byte>, from: nat): (r: Option<nat>)
    decreases |es| - from
  {
    if from >= |es| then None
    else if Matches(es[from], name) then Some(from)
    else Find(es, name, from + 1)
  }

  function FreeSlot(es: seq<Entry>, from: nat): (r: nat)
    requires from <= |es|
    ensures from <= r <= |es|
    ensures r < |es| ==> !es[r].inUse
    decreases |es| - from
  {
    if from == |es| || !es[from].inUse then from else FreeSlot(es, from + 1)
  }

  /** The file a name stands for. */
  function Lookup(es: seq<Entry>, name: seq<Byte>): (r: Option<nat>) {
    match Find(es, name, 0)
    case None => None
    case Some(i) => if i < |es| then Some(es[i].sector) else None
  }

  /** What the reads of dir_add meet: how many entries are read in lookup and in
      the search for a free slot before a read finds no memory for its bounce
      buffer, and whether the write of the entry finds it. */
  datatype Memory = Memory(lookup: nat, scan: nat, write: bool)

  /** The entries that a scan sees whose read number good, and no earlier one,
      finds no memory. */
  function Cut(es: seq<Entry>, good: nat): (r: seq<Entry>) {
    if good < |es| then es[..good] else es
  }

  /** The slot dir_add writes: the first free one, or the one whose read failed. */
  function Slot(es: seq<Entry>, good: nat): (i: nat)
    ensures i <= |es|
  {
    FreeSlot(Cut(es, good), 0)
  }

  /** Whether dir_add reports success. */
  predicate Addable(es: seq<Entry>, name: seq<Byte>, m: Memory) {
    0 < |name| <= NAME_MAX && Find(Cut(es, m.lookup), name, 0).None? && Slot(es, m.scan) < |es| && m.write
  }

  /** The entries after a successful dir_add. */
  function Added(es: seq<Entry>, name: seq<Byte>, sector: nat, good: nat): (r: seq<Entry>) {
    var i := Slot(es, good);
    if i < |es| then es[i := Entry(sector, name, true)] else es
  }

  /** Every name in use is terminated inside its array. */
  ghost predicate Terminated(es: seq<Entry>) {
    forall i :: 0 <= i < |es| && es[i].inUse ==> |es[i].name| <= NAME_MAX
  }

  /** No name twice. */
  ghost predicate UniqueNames(es: seq<Entry>) {
    forall i, j :: 0 <= i < |es| && 0 <= j < |es| && es[i].inUse && Matches(es[j], es[i].name) ==> i == j
  }

  lemma {:induction false} FindIs(es: seq<Entry>, name: seq<Byte>, from: nat)
    ensures Find(es, name, from).None? <==> forall i :: from <= i < |es| ==> !Matches(es[i], name)
    ensures
      Find(es, name, from).Some? ==>
        var i := Find(es, name, from).value;
        from <= i < |es| && Matches(es[i], name)
    decreases |es| - from
  {
    if from < |es| && !Matches(es[from], name) {
      FindIs(es, name, from + 1);
    }
  }

  /** An entry stored in a free slot under a new name extends the map by exactly
      that name. */
  lemma AddSpec(es: seq<Entry>, name: seq<Byte>, sector: nat, i: nat)
    requires UniqueNames(es) && Lookup(es, name) == None && i < |es| && !es[i].inUse
    ensures UniqueNames(es[i := Entry(sector, name, true)])
    ensures forall m :: Lookup(es[i := Entry(sector, name, true)], m) == if m == name then Some(sector) else Lookup(es, m)
  {
    var after := es[i := Entry(sector, name, true)];
    FindIs(es, name, 0);
    forall m ensures Lookup(after, m) == if m == name then Some(sector) else Lookup(es, m) {
      AddOne(es, name, sector, i, m);
    }
  }

  lemma AddOne(es: seq<Entry>, name: seq<Byte>, sector: nat, i: nat, m: seq<Byte>)
    requires UniqueNames(es) && Find(es, name, 0) == None && i < |es| && !es[i].inUse
    ensures Lookup(es[i := Entry(sector, name, true)], m) == if m == name then Some(sector) else Lookup(es, m)
  {
    var after := es[i := Entry(sector, name, true)];
    FindIs(es, name, 0);
    FindIs(es, m, 0);
    FindIs(after, m, 0);
    hide Find;
    if m == name {
      assert Matches(after[i], m);
    } else if Find(es, m, 0).Some? {
      assert Matches(after[Find(es, m, 0).value], m);
    }
  }

  /** dir_remove takes exactly one name out of the map. */
  lemma RemoveSpec(es: seq<Entry>, name: seq<Byte>, i: nat)
    requires UniqueNames(es) && i < |es| && Matches(es[i], name)
    ensures UniqueNames(es[i := es[i].(inUse := false)])
    ensures forall m :: Lookup(es[i := es[i].(inUse := false)], m) == if m == name then None else Lookup(es, m)
  {
    var after := es[i := es[i].(inUse := false)];
    forall m ensures Lookup(after, m) == if m == name then None else Lookup(es, m) {
      RemoveOne(es, name, i, m);
    }
  }

  lemma RemoveOne(es: seq<Entry>, name: seq<Byte>, i: nat, m: seq<Byte>)
    requires UniqueNames(es) && i < |es| && Matches(es[i], name)
    ensures Lookup(es[i := es[i].(inUse := false)], m) == if m == name then None else Lookup(es, m)
  {
    var after := es[i := es[i].(inUse := false)];
    FindIs(es, m, 0);
    FindIs(after, m, 0);
    hide Find;
    if m != name && Find(es, m, 0).Some? {
      assert Matches(after[Find(es, m, 0).value], m);
    }
  }

  // ---------------------------------------------------- which slot, exactly

  /** Slot i is the first one in use under the name, and it is among the first
      good ones. */
  ghost predicate FirstMatch(es: seq<Entry>, name: seq<Byte>, good: nat, i: nat) {
    && i < |es| && i < good && es[i].inUse && es[i].name == name
    && forall j :: 0 <= j < i ==> !(es[j].inUse && es[j].name == name)
  }

  lemma {:induction false} FindFirst(es: seq<Entry>, name: seq<Byte>, from: nat)
    ensures Find(es, name, from).Some? ==> forall j :: from <= j < Find(es, name, from).value && j < |es| ==> !Matches(es[j], name)
    decreases |es| - from
  {
    FindIs(es, name, from);
    if from < |es| && !Matches(es[from], name) {
      FindFirst(es, name, from + 1);
      FindIs(es, name, from + 1);
    }
  }

  /** lookup whose read number good finds no memory returns the first slot under
      the name, if that is among those it could read. */
  lemma LookupExactly(es: seq<Entry>, name: seq<Byte>, good: nat, i: nat)
    ensures Find(Cut(es, good), name, 0) == Some(i) <==> FirstMatch(es, name, good, i)
  {
    var c := Cut(es, good);
    FindIs(c, name, 0);
    FindFirst(c, name, 0);
    hide Find;
    assert forall j :: 0 <= j < |c| ==> c[j] == es[j];
    if FirstMatch(es, name, good, i) { assert Matches(c[i], name); }
  }

  lemma LookupNothing(es: seq<Entry>, name: seq<Byte>, good: nat)
    ensures Find(Cut(es, good), name, 0) == None <==> forall i :: !FirstMatch(es, name, good, i)
  {
    hide Find, Cut;
    if Find(Cut(es, good), name, 0).Some? { LookupExactly(es, name, good, Find(Cut(es, good), name, 0).value); }
    forall i: nat | FirstMatch(es, name, good, i) ensures Find(Cut(es, good), name, 0) == Some(i) {
      LookupExactly(es, name, good, i);
    }
  }

  /** dir_add stops at slot i exactly when all slots before were read and are in
      use, and slot i is free, cannot be read, or is the end. */
  lemma SlotExactly(es: seq<Entry>, good: nat, i: nat)
    ensures Slot(es, good) == i <==>
      && i <= |es| && (forall j :: 0 <= j < i ==> j < good && es[j].inUse)
      && (i == |es| || i >= good || !es[i].inUse)
  {
    var c := Cut(es, good);
    FreeSlotSkips(c, 0);
    var n := FreeSlot(c, 0);
    assert Slot(es, good) == n && (n < |c| ==> !c[n].inUse);
    assert forall j :: 0 <= j < |c| ==> c[j] == es[j];
    assert forall j :: 0 <= j < n ==> c[j].inUse && es[j].inUse && j < good;
    hide FreeSlot;
    assert n < |es| && n < good ==> !es[n].inUse;
  }

  // ------------------------------------------- when reads find no memory

  /** dir_add keeps names unique and changes no name but its own exactly when
      no other slot has the name and the slot it writes was free or had it. */
  lemma AddExact(es: seq<Entry>, name: seq<Byte>, sector: nat, m: Memory)
    requires UniqueNames(es) && Addable(es, name, m)
    ensures
      var i, after := Slot(es, m.scan), Added(es, name, sector, m.scan);
      && i < |es|
      && (UniqueNames(after) && (forall n :: Lookup(after, n) == if n == name then Some(sector) else Lookup(es, n))
          <==> (!es[i].inUse || es[i].name == name) && forall j :: 0 <= j < |es| && j != i ==> !Matches(es[j], name))
  {
    var i, after := Slot(es, m.scan), Added(es, name, sector, m.scan);
    assert after == es[i := Entry(sector, name, true)];
    hide Slot, Added, Addable;
    if (!es[i].inUse || es[i].name == name) && forall j :: 0 <= j < |es| && j != i ==> !Matches(es[j], name) {
      Overwritten(es, name, sector, i);
    }
    if es[i].inUse && es[i].name != name {
      NameLost(es, name, sector, i);
    }
    if j :| 0 <= j < |es| && j != i && Matches(es[j], name) {
      assert Matches(after[j], after[i].name);
    }
  }

  lemma Overwritten(es: seq<Entry>, name: seq<Byte>, sector: nat, i: nat)
    requires UniqueNames(es) && i < |es| && (!es[i].inUse || es[i].name == name)
    requires forall j :: 0 <= j < |es| && j != i ==> !Matches(es[j], name)
    ensures
      var after := es[i := Entry(sector, name, true)];
      UniqueNames(after) && (forall n :: Lookup(after, n) == if n == name then Some(sector) else Lookup(es, n))
  {
    var after, free := es[i := Entry(sector, name, true)], es[i := es[i].(inUse := false)];
    FindIs(free, name, 0);
    assert after == free[i := Entry(sector, name, true)];
    if es[i].inUse { RemoveSpec(es, name, i); } else { assert free == es; }
    AddSpec(free, name, sector, i);
  }

  /** Another name that stood in the slot is gone. */
  lemma NameLost(es: seq<Entry>, name: seq<Byte>, sector: nat, i: nat)
    requires UniqueNames(es) && i < |es| && es[i].inUse && es[i].name != name
    ensures
      var after, lost := es[i := Entry(sector, name, true)], es[i].name;
      Lookup(es, lost) == Some(es[i].sector) && Lookup(after, lost) == None
  {
    var after, lost := es[i := Entry(sector, name, true)], es[i].name;
    assert Matches(es[i], lost);
    FindIs(es, lost, 0);
    FindIs(after, lost, 0);
    hide Find;
  }

  /** As long as every read finds memory, that is always so: success means a
      new name in a free slot. */
  lemma AddWithMemory(es: seq<Entry>, name: seq<Byte>, m: Memory)
    requires Addable(es, name, m) && m.lookup >= |es| && m.scan >= |es|
    ensures Slot(es, m.scan) < |es| && !es[Slot(es, m.scan)].inUse && Lookup(es, name) == None
  {
  }

  /** A read of slot 0 that finds no memory, followed by a write that does: the
      file that stood there is no longer in the directory. */
  lemma ShortReadOverwrites(es: seq<Entry>, name: seq<Byte>, sector: nat)
    requires UniqueNames(es) && es != [] && es[0].inUse && 0 < |name| <= NAME_MAX && Lookup(es, name) == None
    ensures
      var m := Memory(|es|, 0, true);
      && Addable(es, name, m) && Lookup(es, es[0].name) == Some(es[0].sector)
      && Lookup(Added(es, name, sector, m.scan), es[0].name) == None
  {
    FindIs(es, name, 0);
    assert !Matches(es[0], name);
    assert Cut(es, 0) == [] && Slot(es, 0) == 0;
    NameLost(es, name, sector, 0);
  }

  // ------------------------------------------------- a bounded finite map

  /** The names in use. */
  ghost function Names(es: seq<Entry>): (r: set<seq<Byte>>) {
    set i | 0 <= i < |es| && es[i].inUse :: es[i].name
  }

  /** The map from names to inode sectors that the entries stand for. */
  ghost function AsMap(es: seq<Entry>): (r: map<seq<Byte>, nat>) {
    map m | m in Names(es) && Lookup(es, m).Some? :: Lookup(es, m).value
  }

  lemma NameIs(es: seq<Entry>, m: seq<Byte>)
    ensures m in Names(es) <==> Lookup(es, m).Some?
    ensures m in AsMap(es) <==> Lookup(es, m).Some?
    ensures m in AsMap(es) ==> Lookup(es, m) == Some(AsMap(es)[m])
  {
    FindIs(es, m, 0);
    if m in Names(es) {
      var i :| 0 <= i < |es| && es[i].inUse && es[i].name == m;
      assert Matches(es[i], m);
    }
    hide Find;
  }

  /** dir_add and dir_remove are insertion into and deletion from the map. */
  lemma AddToMap(es: seq<Entry>, name: seq<Byte>, sector: nat, i: nat)
    requires UniqueNames(es) && Lookup(es, name) == None && i < |es| && !es[i].inUse
    ensures AsMap(es[i := Entry(sector, name, true)]) == AsMap(es)[name := sector]
  {
    var after := es[i := Entry(sector, name, true)];
    AddSpec(es, name, sector, i);
    hide Lookup, AsMap, Names;
    forall m ensures m in AsMap(after) <==> m in AsMap(es)[name := sector] {
      NameIs(es, m);
      NameIs(after, m);
    }
    forall m | m in AsMap(after) ensures AsMap(after)[m] == AsMap(es)[name := sector][m] {
      NameIs(es, m);
      NameIs(after, m);
    }
  }

  lemma RemoveFromMap(es: seq<Entry>, name: seq<Byte>, i: nat)
    requires UniqueNames(es) && i < |es| && Matches(es[i], name)
    ensures AsMap(es[i := es[i].(inUse := false)]) == AsMap(es) - {name}
  {
    var after := es[i := es[i].(inUse := false)];
    RemoveSpec(es, name, i);
    hide Lookup, AsMap, Names;
    forall m ensures m in AsMap(after) <==> m in AsMap(es) - {name} {
      NameIs(es, m);
      NameIs(after, m);
    }
    forall m | m in AsMap(after) ensures AsMap(after)[m] == (AsMap(es) - {name})[m] {
      NameIs(es, m);
      NameIs(after, m);
    }
  }

  function UsedCount(es: seq<Entry>): (n: nat)
    ensures n <= |es|
  {
    if es == [] then 0
    else UsedCount(es[..|es| - 1]) + if es[|es| - 1].inUse then 1 else 0
  }

  lemma {:induction false} UsedCountFull(es: seq<Entry>)
    ensures UsedCount(es) == |es| <==> forall i :: 0 <= i < |es| ==> es[i].inUse
  {
    if es != [] {
      var n := |es| - 1;
      UsedCountFull(es[..n]);
      assert forall i :: 0 <= i < n ==> es[..n][i] == es[i];
    }
  }

  lemma LastName(es: seq<Entry>)
    requires es != []
    ensures
      var n := |es| - 1;
      Names(es) == Names(es[..n]) + if es[n].inUse then {es[n].name} else {}
  {
    var n := |es| - 1;
    var rest := es[..n];
    forall m | m in Names(es) ensures m in Names(rest) || (es[n].inUse && m == es[n].name) {
      var i :| 0 <= i < |es| && es[i].inUse && es[i].name == m;
      assert i < n ==> rest[i] == es[i];
    }
    forall m | m in Names(rest) ensures m in Names(es) {
      var i :| 0 <= i < n && rest[i].inUse && rest[i].name == m;
      assert es[i] == rest[i];
    }
  }

  lemma LastNameNew(es: seq<Entry>)
    requires es != [] && UniqueNames(es)
    ensures
      var n := |es| - 1;
      UniqueNames(es[..n]) && (es[n].inUse ==> es[n].name !in Names(es[..n]))
  {
    var n := |es| - 1;
    var rest := es[..n];
    forall i, j | 0 <= i < |rest| && 0 <= j < |rest| && rest[i].inUse && Matches(rest[j], rest[i].name) ensures i == j {
      assert es[i] == rest[i] && es[j] == rest[j];
    }
    forall m | m in Names(rest) && es[n].inUse ensures m != es[n].name {
      var i :| 0 <= i < n && rest[i].inUse && rest[i].name == m;
      assert es[i] == rest[i];
      assert Matches(es[i], m) && !Matches(es[i], es[n].name);
    }
  }

  /** Distinct names: as many as entries in use. */
  lemma {:induction false} NamesCount(es: seq<Entry>)
    requires UniqueNames(es)
    ensures |Names(es)| == UsedCount(es)
  {
    if es != [] {
      LastName(es);
      LastNameNew(es);
      NamesCount(es[..|es| - 1]);
      hide Names, UniqueNames;
    } else {
      assert Names(es) == {};
    }
  }

  /** dir_add finds a slot exactly while the map has fewer names than slots. */
  lemma RoomIff(es: seq<Entry>)
    requires UniqueNames(es)
    ensures FreeSlot(es, 0) < |es| <==> |AsMap(es)| < |es|
  {
    NamesCount(es);
    UsedCountFull(es);
    forall m ensures m in AsMap(es) <==> m in Names(es) {
      NameIs(es, m);
    }
    assert AsMap(es).Keys == Names(es);
    FreeSlotSkips(es, 0);
  }

  lemma {:induction false} FreeSlotSkips(es: seq<Entry>, from: nat)
    requires from <= |es|
    ensures forall i :: from <= i < FreeSlot(es, from) ==> es[i].inUse
    decreases |es| - from
  {
    if from < |es| && es[from].inUse { FreeSlotSkips(es, from + 1); }
  }

  // --------------------------------------------------------------- readdir

  /** The slot dir_readdir stops at from slot pos on, or the end. */
  function NextUsed(es: seq<Entry>, pos: nat): (r: nat)
    requires pos <= |es|
    ensures pos <= r <= |es|
    ensures r < |es| ==> es[r].inUse
    decreases |es| - pos
  {
    if pos == |es| || es[pos].inUse then pos else NextUsed(es, pos + 1)
  }

  /** The names that repeated calls return. */
  function ReadAll(es: seq<Entry>, pos: nat): (r: seq<seq<Byte>>)
    requires pos <= |es|
    decreases |es| - pos
  {
    var i := NextUsed(es, pos);
    if i == |es| then [] else [es[i].name] + ReadAll(es, i + 1)
  }

  lemma {:induction false} NextUsedSkips(es: seq<Entry>, pos: nat)
    requires pos <= |es|
    ensures forall k :: pos <= k < NextUsed(es, pos) ==> !es[k].inUse
    decreases |es| - pos
  {
    if pos < |es| && !es[pos].inUse { NextUsedSkips(es, pos + 1); }
  }

  /** They are exactly the names in the map, each once. */
  lemma {:induction false} ReadAllOnce(es: seq<Entry>, pos: nat)
    requires pos <= |es| && UniqueNames(es)
    ensures forall m :: m in ReadAll(es, pos) <==> exists i :: pos <= i < |es| && Matches(es[i], m)
    ensures forall j, k :: 0 <= j < k < |ReadAll(es, pos)| ==> ReadAll(es, pos)[j] != ReadAll(es, pos)[k]
    decreases |es| - pos
  {
    var i := NextUsed(es, pos);
    NextUsedSkips(es, pos);
    if i < |es| {
      ReadAllOnce(es, i + 1);
      var rest := ReadAll(es, i + 1);
      assert Matches(es[i], es[i].name);
      assert es[i].name !in rest;
      forall m ensures m in [es[i].name] + rest <==> exists k :: pos <= k < |es| && Matches(es[k], m) {
        if k :| pos <= k < |es| && Matches(es[k], m) { assert k >= i; }
      }
    }
  }

  // -------------------------------------------------------- the code itself

  class Dir {
    const dev: Device
    /** The directory's inode. */
    const file: Extent
    var pos: nat

    /** dir_open on an open inode. */
    constructor (dev: Device, file: Extent)
      requires OnDevice(dev.bytes, file)
      ensures Valid() && this.dev == dev && this.file == file && pos == 0
    {
      this.dev, this.file, pos := dev, file, 0;
    }

    ghost predicate Valid()
      reads this, dev
    {
      OnDevice(dev.bytes, file) && pos % ENTRY == 0 && pos <= file.length
    }

    ghost function Bytes(): (c: seq<Byte>)
      requires Valid()
      reads this, dev
    {
      Content(dev.bytes, file)
    }

    ghost function View(): (es: seq<Entry>)
      requires Valid()
      reads this, dev
    {
      Entries(Bytes())
    }

    /** inode_read_at of one entry. */
    method ReadEntry(e: array<Byte>, i: nat, memory: bool) returns (ok: bool)
      requires Valid() && e.Length == ENTRY
      modifies e
      ensures ok <==> i < |View()| && memory
      ensures ok ==> e[..] == Raw(Bytes(), i) && Decode(e[..]) == View()[i]
    {
      ghost var was := e[..];
      var n := dev.ReadAt(file, e, ENTRY, i * ENTRY, memory);
      ok := n == ENTRY;
      if ok {
        ReadIsContent(dev.bytes, file, was, e[..], i * ENTRY, n);
      }
    }

    /** inode_write_at of one entry; a slot past the end is not written. */
    method WriteEntry(e: seq<Byte>, i: nat, memory: bool) returns (ok: bool)
      requires Valid() && |e| == ENTRY && i <= |View()|
      modifies dev
      ensures Valid() && (ok <==> i < |View()| && memory) && |View()| == |old(View())|
      ensures View() == if ok then old(View())[i := Decode(e)] else old(View())
      ensures OnlyFile(old(dev.bytes), dev.bytes, file)
    {
      ghost var was := dev.bytes;
      var n := dev.WriteAt(file, e, i * ENTRY, 0, memory);
      ok := n == ENTRY;
      EntryWritten(was, file, dev.bytes, e, i, n, memory);
      WriteStaysInside(was, file, dev.bytes, e, i * ENTRY, n);
    }

    /** lookup, whose read number good finds no memory. */
    method LookupSlot(name: seq<Byte>, good: nat) returns (r: Option<nat>)
      requires Valid() && Terminated(View()) && IsString(name)
      ensures r == Find(Cut(View(), good), name, 0)
    {
      hide OnDevice, Content, Entries;
      var e := new Byte[ENTRY];
      var i := 0;
      var ok := ReadEntry(e, i, i < good);
      ghost var es := Cut(View(), good);
      while ok
        invariant Valid() && View() == old(View()) && Find(es, name, 0) == Find(es, name, i)
        invariant ok <==> i < |es|
        invariant ok ==> Decode(e[..]) == es[i]
        decreases |es| - i
      {
        if e[19] != 0 && CString(e[4..19]) == name { return Some(i); }
        i := i + 1;
        ok := ReadEntry(e, i, i < good);
      }
      return None;
    }

    /** The free-slot search of dir_add; e is left holding what was read last. */
    method FindFreeSlot(e: array<Byte>, good: nat) returns (i: nat)
      requires Valid() && e.Length == ENTRY
      modifies e
      ensures Valid() && i == Slot(View(), good) && View() == old(View())
    {
      hide OnDevice, Content, Entries;
      i := 0;
      var ok := ReadEntry(e, i, i < good);
      ghost var es := Cut(View(), good);
      while ok && e[19] != 0
        invariant Valid() && i <= |es| && FreeSlot(es, 0) == FreeSlot(es, i)
        invariant ok <==> i < |es|
        invariant ok ==> Decode(e[..]) == es[i]
        decreases |es| - i
      {
        i := i + 1;
        ok := ReadEntry(e, i, i < good);
      }
    }

    /** dir_add: fails for a bad name, a name found in use, a slot behind the end
        or no memory for the write, and otherwise stores one entry. */
    method Add(name: seq<Byte>, sector: nat, m: Memory) returns (ok: bool)
      requires Valid() && Terminated(View()) && IsString(name) && sector < 0x1_0000_0000
      modifies dev
      ensures Valid() && Terminated(View()) && OnlyFile(old(dev.bytes), dev.bytes, file)
      ensures ok <==> Addable(old(View()), name, m)
      ensures View() == if ok then Added(old(View()), name, sector, m.scan) else old(View())
    {
      if |name| == 0 || |name| > NAME_MAX { return false; }
      hide Find, Slot, Decode, Encode, Entries, OnDevice, Content;
      var found := LookupSlot(name, m.lookup);
      if found.Some? { return false; }
      var e := new Byte[ENTRY];
      var i := FindFreeSlot(e, m.scan);
      DecodeEncode(e[..], name, sector);
      ok := WriteEntry(Encode(e[..], name, sector), i, m.write);
    }

    /** dir_remove: read number lookup of lookup finds no memory; memory and
        write say whether inode_open and the write of the entry find it.
        Returns the inode sector to mark removed. */
    method Remove(name: seq<Byte>, lookup: nat, memory: bool, write: bool) returns (r: Option<nat>)
      requires Valid() && Terminated(View()) && IsString(name)
      modifies dev
      ensures Valid() && Terminated(View()) && OnlyFile(old(dev.bytes), dev.bytes, file)
      ensures r == if memory && write then Lookup(Cut(old(View()), lookup), name) else None
      ensures
        var es, found := old(View()), Find(Cut(old(View()), lookup), name, 0);
        View() ==
        if r.Some? && found.Some? && found.value < |es|
        then es[found.value := es[found.value].(inUse := false)] else es
    {
      hide Find, Entries, OnDevice, Content;
      var found := LookupSlot(name, lookup);
      ghost var es := View();
      FindIs(Cut(es, lookup), name, 0);
      if found.None? || !memory { return None; }
      var i := found.value;
      var e := new Byte[ENTRY];
      var ok := ReadEntry(e, i, true);
      DecodeErase(e[..]);
      r := Some(Word(e[..4]));
      ok := WriteEntry(e[..19] + [0], i, write);
      if !ok { r := None; }
    }

    /** dir_readdir: the next name in use, and the position behind it; read
        number good finds no memory. */
    method ReadDir(good: nat) returns (r: Option<seq<Byte>>)
      requires Valid()
      modifies this
      ensures Valid() && View() == old(View())
      ensures
        var k := old(pos) / ENTRY;
        var es := Cut(View(), k + good);
        && k <= |es|
        && var i := NextUsed(es, k);
           if i < |es| then r == Some(es[i].name) && pos == (i + 1) * ENTRY else r == None && pos == i * ENTRY
    {
      hide OnDevice, Content, Entries;
      var e := new Byte[ENTRY];
      r := None;
      SlotOf(Bytes(), pos);
      var k := pos / ENTRY;
      ghost var es := Cut(View(), k + good);
      var ok := ReadEntry(e, k, 0 < good);
      while ok
        invariant Valid() && View() == old(View()) && r == None && k <= pos / ENTRY <= |es|
        invariant NextUsed(es, k) == NextUsed(es, pos / ENTRY)
        invariant ok <==> pos / ENTRY < |es|
        invariant ok ==> Decode(e[..]) == es[pos / ENTRY]
        decreases |es| - pos / ENTRY
      {
        SlotOf(Bytes(), pos);
        pos := pos + ENTRY;
        if e[19] != 0 {
          r := Some(CString(e[4..19]));
          return;
        }
        ok := ReadEntry(e, pos / ENTRY, pos / ENTRY < k + good);
      }
    }
  }

  lemma SlotOf(c: seq<Byte>, pos: nat)
    requires pos % ENTRY == 0 && pos <= |c|
    ensures pos / ENTRY <= |Entries(c)| && pos == pos / ENTRY * ENTRY
    ensures pos / ENTRY < |Entries(c)| ==> pos + ENTRY <= |c|
  {
  }

  lemma EntryWritten(was: seq<Byte>, file: Extent, bytes: seq<Byte>, e: seq<Byte>, i: nat, n: nat, memory: bool)
    requires OnDevice(was, file) && |e| == ENTRY && i <= Slots(Content(was, file))
    requires Put(was, file, bytes, e, i * ENTRY, n) && n == Moved(file.length, ENTRY, i * ENTRY, memory)
    ensures OnDevice(bytes, file) && (n == ENTRY <==> i < Slots(Content(was, file)) && memory)
    ensures
      var es := Entries(Content(was, file));
      Entries(Content(bytes, file)) == if n == ENTRY then es[i := Decode(e)] else es
  {
    var c := Content(was, file);
    if n > 0 {
      WriteIsSplice(was, file, bytes, e, i * ENTRY, n);
      if n == ENTRY {
        assert Sub(e, 0, n) == e;
        SlotWritten(c, i, e);
      } else {
        TailWritten(c, Sub(e, 0, n));
      }
    }
  }
}
