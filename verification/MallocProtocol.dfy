/** Every call of malloc and free keeps the allocator's invariant. */
module MallocProtocol {
  import opened Prelude
  import opened Arithmetic
  import opened Bitmap
  import opened Malloc

  // ------------------------------------------------------------- geometry

  /** A block lies inside its page, behind the arena header. */
  lemma AddrInside(p: nat, d: nat, i: nat)
    requires d < DESCS && i < PerArena(d)
    ensures p * PGSIZE + HDR <= Addr(p, d, i) && Addr(p, d, i) + BlockSize(d) <= (p + 1) * PGSIZE
    ensures PageOf(Addr(p, d, i)) == p
  {
    assert d == 0 || d == 1 || d == 2 || d == 3 || d == 4 || d == 5 || d == 6;
  }

  /** Different blocks of one arena do not overlap. */
  lemma AddrApart(p: nat, d: nat, i: nat, j: nat)
    requires d < DESCS && i < j
    ensures Addr(p, d, i) + BlockSize(d) <= Addr(p, d, j)
  {
    assert d == 0 || d == 1 || d == 2 || d == 3 || d == 4 || d == 5 || d == 6;
  }

  lemma BlocksOnPage(p: nat, d: nat)
    requires d < DESCS
    ensures NoDup(Blocks(p, d))
    ensures forall a :: a in Blocks(p, d) ==> PageOf(a) == p
  {
    forall i, j | 0 <= i < j < |Blocks(p, d)| ensures Blocks(p, d)[i] != Blocks(p, d)[j] {
      AddrApart(p, d, i, j);
    }
    forall a | a in Blocks(p, d) ensures PageOf(a) == p {
      var i: nat :| i < |Blocks(p, d)| && Blocks(p, d)[i] == a;
      AddrInside(p, d, i);
    }
  }

  lemma {:induction false} NoDupCard(s: seq<nat>)
    requires NoDup(s)
    ensures |Elements(s)| == |s|
  {
    if s != [] {
      var n := |s| - 1;
      NoDupCard(s[..n]);
      assert s == s[..n] + [s[n]];
      assert Elements(s) == Elements(s[..n]) + {s[n]};
    }
  }

  lemma SubsetCard(a: set<nat>, b: set<nat>)
    requires a <= b
    ensures |a| <= |b| && (|a| == |b| ==> a == b)
  {
    assert b == a + (b - a) && a !! b - a;
    assert |b| == |a| + |b - a|;
  }

  /** The free blocks of an arena are some of its blocks; if they are as many,
      they are all of them. */
  lemma OnPageBlocks(arenas: map<nat, Header>, free: seq<seq<nat>>, p: nat)
    requires Lists(arenas, free) && p in arenas && arenas[p].Small? && arenas[p].desc < DESCS
    ensures
      var d := arenas[p].desc;
      && OnPage(free[d], p) <= Elements(Blocks(p, d))
      && |Elements(Blocks(p, d))| == PerArena(d)
  {
    var d := arenas[p].desc;
    BlocksOnPage(p, d);
    NoDupCard(Blocks(p, d));
    forall a | a in OnPage(free[d], p) ensures a in Blocks(p, d) {
      assert BlockOf(arenas, d, a);
    }
  }

  // ----------------------------------------------------------------- pages

  lemma TakePagesKeeps(used: seq<bool>, arenas: map<nat, Header>, owner: seq<Owner>, p: nat, a: Header)
    requires Pages(used, arenas, owner) && Len(a) > 0 && Group(used, p, Len(a), false)
    ensures p !in arenas
    ensures Pages(Fill(used, p, Len(a), true), arenas[p := a], Assign(owner, p, Len(a), Arena(p)))
  {
    assert p in arenas ==> InArena(arenas, p, p);
    var arenas1, owner1 := arenas[p := a], Assign(owner, p, Len(a), Arena(p));
    forall k | 0 <= k < |used| && owner1[k].Arena?
      ensures owner1[k].start in arenas1 && InArena(arenas1, owner1[k].start, k)
    {
    }
    forall q, k | q in arenas1 && InArena(arenas1, q, k) ensures 0 <= k < |used| && owner1[k] == Arena(q) {
      assert q != p ==> InArena(arenas, q, k);
    }
  }

  lemma ReleasePagesKeeps(used: seq<bool>, arenas: map<nat, Header>, owner: seq<Owner>, p: nat)
    requires Pages(used, arenas, owner) && p in arenas
    ensures
      var n := Len(arenas[p]);
      p + n <= |used| && Pages(Fill(used, p, n, false), arenas - {p}, Assign(owner, p, n, Nobody))
  {
    var n := Len(arenas[p]);
    var arenas1, owner1 := arenas - {p}, Assign(owner, p, n, Nobody);
    forall k | 0 <= k < |used| && owner1[k].Arena?
      ensures owner1[k].start in arenas1 && InArena(arenas1, owner1[k].start, k)
    {
      assert InArena(arenas, owner[k].start, k);
      assert !InArena(arenas, p, k);
    }
    forall q, k | q in arenas1 && InArena(arenas1, q, k) ensures 0 <= k < |used| && owner1[k] == Arena(q) {
      assert InArena(arenas, q, k);
      assert InArena(arenas, p, k) ==> p == q;
    }
  }

  // ----------------------------------------------------- setting up an arena

  lemma StockLists(arenas: map<nat, Header>, free: seq<seq<nat>>, p: nat, d: nat)
    requires Lists(arenas, free) && d < DESCS && p !in arenas
    ensures Lists(arenas[p := Small(d, PerArena(d))], free[d := Blocks(p, d)])
  {
    var arenas1, free1 := arenas[p := Small(d, PerArena(d))], free[d := Blocks(p, d)];
    BlocksOnPage(p, d);
    hide Blocks, NoDup;
    forall e, a | 0 <= e < DESCS && a in free1[e] ensures BlockOf(arenas1, e, a) {
      assert e != d ==> BlockOf(arenas, e, a);
    }
  }

  lemma StockCounts(arenas: map<nat, Header>, free: seq<seq<nat>>, p: nat, d: nat)
    requires Lists(arenas, free) && Counts(arenas, free, None) && d < DESCS && free[d] == [] && p !in arenas
    ensures Counts(arenas[p := Small(d, PerArena(d))], free[d := Blocks(p, d)], Some(p))
  {
    var arenas1, free1 := arenas[p := Small(d, PerArena(d))], free[d := Blocks(p, d)];
    BlocksOnPage(p, d);
    NoDupCard(Blocks(p, d));
    assert OnPage(free1[d], p) == Elements(Blocks(p, d));
    hide Blocks, NoDup, Lists;
    forall q | q in arenas1 ensures CountAt(arenas1, free1, Some(p), q) {
      if q != p {
        assert CountAt(arenas, free, None, q);
        assert OnPage(free1[d], q) == {} == OnPage(free[d], q);
      }
    }
  }

  lemma StockClients(arenas: map<nat, Header>, free: seq<seq<nat>>, live: map<nat, nat>, p: nat, d: nat)
    requires Lists(arenas, free) && Clients(arenas, free, live) && d < DESCS && free[d] == [] && p !in arenas
    ensures Clients(arenas[p := Small(d, PerArena(d))], free[d := Blocks(p, d)], live)
  {
    var arenas1, free1 := arenas[p := Small(d, PerArena(d))], free[d := Blocks(p, d)];
    BlocksOnPage(p, d);
    hide Blocks, NoDup, Lists;
    forall a | a in live ensures LiveAt(arenas1, free1, a, live[a]) {
      assert LiveAt(arenas, free, a, live[a]);
    }
    forall q | q in arenas1 ensures Accounted(arenas1, free1, live, q) {
      assert q != p ==> Accounted(arenas, free, live, q);
    }
  }

  /** The descriptor has a block to give, and only the arena of the first block
      may be wholly free. */
  lemma StockedInv(h: Heap, d: nat)
    requires HeapInv(h) && d < DESCS
    ensures
      Stocked(h, d).Some? ==>
        var h1 := Stocked(h, d).value;
        HeapInv(h1, Some(PageOf(h1.free[d][0]))) && h1.live == h.live
  {
    assert |h.free| == DESCS;
    hide Lists, Counts, Clients, Pages, BlockOf;
    if h.free[d] != [] {
      CountsSpare(h.arenas, h.free, PageOf(h.free[d][0]));
    } else if Scan(h.used, 0, 1, false).Some? {
      var p := Scan(h.used, 0, 1, false).value;
      ScanIsFirst(h.used, 0, 1, false);
      TakePagesKeeps(h.used, h.arenas, h.owner, p, Small(d, PerArena(d)));
      StockLists(h.arenas, h.free, p, d);
      StockCounts(h.arenas, h.free, p, d);
      StockClients(h.arenas, h.free, h.live, p, d);
      AddrInside(p, d, 0);
    }
  }

  lemma CountsSpare(arenas: map<nat, Header>, free: seq<seq<nat>>, p: nat)
    requires Counts(arenas, free, None)
    ensures Counts(arenas, free, Some(p))
  {
    forall q | q in arenas ensures CountAt(arenas, free, Some(p), q) {
      assert CountAt(arenas, free, None, q);
    }
  }

  // ---------------------------------------------------------- taking a block

  /** What the first block of a free list is. */
  lemma HeadBlock(arenas: map<nat, Header>, free: seq<seq<nat>>, live: map<nat, nat>, d: nat, spare: Option<nat>)
    requires Lists(arenas, free) && Counts(arenas, free, spare) && Clients(arenas, free, live)
    requires d < DESCS && free[d] != []
    ensures BlockOf(arenas, d, free[d][0]) && arenas[PageOf(free[d][0])].freeCnt > 0 && free[d][0] !in live
  {
    var a := free[d][0];
    assert BlockOf(arenas, d, a) && CountAt(arenas, free, spare, PageOf(a));
    assert a in OnPage(free[d], PageOf(a));
    assert a in live ==> LiveAt(arenas, free, a, live[a]);
  }

  lemma PopLists(arenas: map<nat, Header>, free: seq<seq<nat>>, d: nat, cnt: nat)
    requires Lists(arenas, free) && d < DESCS && free[d] != [] && BlockOf(arenas, d, free[d][0])
    ensures Lists(arenas[PageOf(free[d][0]) := Small(d, cnt)], free[d := free[d][1..]])
  {
    var p := PageOf(free[d][0]);
    var arenas1, free1 := arenas[p := Small(d, cnt)], free[d := free[d][1..]];
    hide Blocks;
    forall e, a | 0 <= e < DESCS && a in free1[e] ensures BlockOf(arenas1, e, a) {
      assert BlockOf(arenas, e, a);
    }
  }

  lemma PopOnPage(list: seq<nat>, q: nat)
    requires NoDup(list) && list != []
    ensures OnPage(list[1..], q) == OnPage(list, q) - {list[0]}
    ensures |OnPage(list[1..], q)| == |OnPage(list, q)| - if PageOf(list[0]) == q then 1 else 0
  {
    assert list == [list[0]] + list[1..];
  }

  lemma PopCounts(arenas: map<nat, Header>, free: seq<seq<nat>>, d: nat, cnt: nat)
    requires Lists(arenas, free) && d < DESCS && free[d] != [] && BlockOf(arenas, d, free[d][0])
    requires Counts(arenas, free, Some(PageOf(free[d][0]))) && arenas[PageOf(free[d][0])].freeCnt == cnt + 1
    ensures Counts(arenas[PageOf(free[d][0]) := Small(d, cnt)], free[d := free[d][1..]], None)
  {
    var p := PageOf(free[d][0]);
    var arenas1, free1 := arenas[p := Small(d, cnt)], free[d := free[d][1..]];
    assert NoDup(free[d]);
    hide Blocks, Lists, NoDup, OnPage, PageOf;
    forall q | q in arenas1 ensures CountAt(arenas1, free1, None, q) {
      assert CountAt(arenas, free, Some(p), q);
      PopOnPage(free[d], q);
    }
  }

  lemma PopClients(arenas: map<nat, Header>, free: seq<seq<nat>>, live: map<nat, nat>, d: nat, cnt: nat, size: nat)
    requires Lists(arenas, free) && Clients(arenas, free, live)
    requires d < DESCS && free[d] != [] && size <= BlockSize(d) && BlockOf(arenas, d, free[d][0])
    ensures Clients(arenas[PageOf(free[d][0]) := Small(d, cnt)], free[d := free[d][1..]], live[free[d][0] := size])
  {
    var a := free[d][0];
    var p := PageOf(a);
    assert free[d] == [a] + free[d][1..];
    var arenas1, free1, live1 := arenas[p := Small(d, cnt)], free[d := free[d][1..]], live[a := size];
    assert a !in free1[d] by { assert NoDup(free[d]); }
    hide Blocks, Lists, NoDup, PageOf;
    forall b | b in live1 ensures LiveAt(arenas1, free1, b, live1[b]) {
      assert b != a ==> LiveAt(arenas, free, b, live[b]);
    }
    forall q | q in arenas1 ensures Accounted(arenas1, free1, live1, q) {
      assert Accounted(arenas, free, live, q);
    }
  }

  lemma PopInv(h: Heap, d: nat, size: nat)
    requires |h.free| == DESCS && d < DESCS && h.free[d] != [] && size <= BlockSize(d)
    requires HeapInv(h, Some(PageOf(h.free[d][0])))
    ensures
      var (h1, r) := Pop(h, d, size);
      HeapInv(h1) && r == Some(h.free[d][0]) && r.value !in h.live
  {
    var a := h.free[d][0];
    var p := PageOf(a);
    hide Lists, Counts, Clients, Blocks;
    HeadBlock(h.arenas, h.free, h.live, d, Some(p));
    var cnt := h.arenas[p].freeCnt - 1;
    PopLists(h.arenas, h.free, d, cnt);
    PopCounts(h.arenas, h.free, d, cnt);
    PopClients(h.arenas, h.free, h.live, d, cnt, size);
    SameLengths(h.used, h.arenas, h.owner, p, Small(d, cnt));
  }

  lemma SameLengths(used: seq<bool>, arenas: map<nat, Header>, owner: seq<Owner>, p: nat, a: Header)
    requires Pages(used, arenas, owner) && p in arenas && Len(arenas[p]) == Len(a)
    ensures Pages(used, arenas[p := a], owner)
  {
    forall q, k | q in arenas[p := a] && InArena(arenas[p := a], q, k) ensures 0 <= k < |used| && owner[k] == Arena(q) {
      assert InArena(arenas, q, k);
    }
  }

  // -------------------------------------------------------------- big blocks

  lemma BigClients(arenas: map<nat, Header>, free: seq<seq<nat>>, live: map<nat, nat>, p: nat, cnt: nat, size: nat)
    requires Lists(arenas, free) && Counts(arenas, free, None) && Clients(arenas, free, live) && p !in arenas
    requires size + HDR < W32 ==> size + HDR <= cnt * PGSIZE
    ensures p * PGSIZE + HDR !in live
    ensures
      var arenas1, live1 := arenas[p := Big(cnt)], live[p * PGSIZE + HDR := size];
      Lists(arenas1, free) && Counts(arenas1, free, None) && Clients(arenas1, free, live1)
  {
    var arenas1, live1 := arenas[p := Big(cnt)], live[p * PGSIZE + HDR := size];
    assert PageOf(p * PGSIZE + HDR) == p;
    assert forall a :: a in live ==> LiveAt(arenas, free, a, live[a]);
    hide Blocks, NoDup, PageOf, OnPage;
    forall d, a | 0 <= d < DESCS && a in free[d] ensures BlockOf(arenas1, d, a) {
      assert BlockOf(arenas, d, a);
    }
    forall q | q in arenas1 ensures CountAt(arenas1, free, None, q) && Accounted(arenas1, free, live1, q) {
      assert q != p ==> CountAt(arenas, free, None, q) && Accounted(arenas, free, live, q);
    }
    forall b | b in live1 ensures LiveAt(arenas1, free, b, live1[b]) {
      assert b != p * PGSIZE + HDR ==> LiveAt(arenas, free, b, live[b]);
    }
  }

  /** DIV_ROUND_UP gives enough pages unless size plus header wraps around. */
  lemma PageCountEnough(size: nat)
    requires size < W32 && PageCount(size) > 0
    ensures size + HDR <= PageCount(size) * PGSIZE <==> size + HDR < W32
  {
  }

  lemma TakeBigInv(h: Heap, p: nat, cnt: nat, size: nat)
    requires HeapInv(h) && cnt > 0 && Group(h.used, p, cnt, false)
    requires size + HDR < W32 ==> size + HDR <= cnt * PGSIZE
    ensures
      var a := p * PGSIZE + HDR;
      a !in h.live && HeapInv(TakePages(h, p, Big(cnt)).(live := h.live[a := size]))
  {
    TakePagesKeeps(h.used, h.arenas, h.owner, p, Big(cnt));
    hide Lists, Counts, Clients, Pages, Fill;
    BigClients(h.arenas, h.free, h.live, p, cnt, size);
  }

  /** A call of malloc that leaves h1 and returns r. */
  ghost predicate Served(h: Heap, h1: Heap, r: Option<nat>, size: nat) {
    && HeapInv(h1)
    && match r
       case None => h1 == h
       case Some(a) => a !in h.live && h1.live == h.live[a := size]
  }

  lemma BigInv(h: Heap, size: nat)
    requires HeapInv(h) && size < W32 && |h.free| == DESCS
    ensures Served(h, MallocBig(h, size).0, MallocBig(h, size).1, size)
  {
    hide HeapInv, PageCount, Scan, Fill, Group;
    var cnt := PageCount(size);
    if cnt > 0 {
      ScanIsFirst(h.used, 0, cnt, false);
      PageCountEnough(size);
      var r := Scan(h.used, 0, cnt, false);
      if r.Some? {
        TakeBigInv(h, r.value, cnt, size);
      }
    }
  }

  /** malloc keeps the invariant, hands out only blocks nobody holds, and
      changes nothing when it fails. */
  lemma MallocInv(h: Heap, size: nat)
    requires HeapInv(h) && size < W32
    ensures |h.free| == DESCS && Served(h, DoMalloc(h, size).0, DoMalloc(h, size).1, size)
  {
    FreeLists(h);
    hide HeapInv, MallocBig;
    var d := DescFor(size);
    if size == 0 {
    } else if d == DESCS {
      BigInv(h, size);
    } else {
      StockedInv(h, d);
      if Stocked(h, d).Some? {
        PopInv(Stocked(h, d).value, d, size);
      }
    }
  }

  lemma FreeLists(h: Heap)
    requires HeapInv(h)
    ensures |h.free| == DESCS
  {
  }

  // ------------------------------------------------------------------- free

  lemma {:induction false} DropSpec(list: seq<nat>, gone: set<nat>)
    requires NoDup(list)
    ensures NoDup(Drop(list, gone))
    ensures forall a :: a in Drop(list, gone) <==> a in list && a !in gone
  {
    if list != [] {
      var rest := list[1..];
      DropSpec(rest, gone);
      assert list == [list[0]] + rest;
      assert list[0] !in rest;
    }
  }

  /** A freed block of a small arena: where it was, and what its count becomes. */
  lemma FreedBlock(h: Heap, a: nat)
    requires HeapInv(h) && a in h.live && h.arenas[PageOf(a)].Small?
    ensures
      var p := PageOf(a);
      var d := h.arenas[p].desc;
      && d < DESCS && BlockOf(h.arenas, d, a) && a !in h.free[d] && NoDup([a] + h.free[d])
      && |OnPage([a] + h.free[d], p)| == h.arenas[p].freeCnt + 1 <= PerArena(d)
      && OnPage([a] + h.free[d], p) <= Elements(Blocks(p, d))
      && |Elements(Blocks(p, d))| == PerArena(d)
  {
    var p := PageOf(a);
    assert LiveAt(h.arenas, h.free, a, h.live[a]) && CountAt(h.arenas, h.free, None, p);
    var d := h.arenas[p].desc;
    OnPageBlocks(h.arenas, h.free, p);
    assert OnPage([a] + h.free[d], p) == OnPage(h.free[d], p) + {a};
    SubsetCard(OnPage([a] + h.free[d], p), Elements(Blocks(p, d)));
  }

  /** The arena still has a block in use: the block goes to the free list. */
  lemma PushLists(arenas: map<nat, Header>, free: seq<seq<nat>>, a: nat, d: nat, cnt: nat)
    requires Lists(arenas, free) && d < DESCS && BlockOf(arenas, d, a) && NoDup([a] + free[d])
    ensures Lists(arenas[PageOf(a) := Small(d, cnt)], free[d := [a] + free[d]])
  {
    var arenas1, free1 := arenas[PageOf(a) := Small(d, cnt)], free[d := [a] + free[d]];
    hide Blocks, NoDup, PageOf;
    forall e, b | 0 <= e < DESCS && b in free1[e] ensures BlockOf(arenas1, e, b) {
      assert BlockOf(arenas, e, b);
    }
  }

  lemma PushCounts(arenas: map<nat, Header>, free: seq<seq<nat>>, a: nat, d: nat, cnt: nat)
    requires Counts(arenas, free, None) && d < DESCS && BlockOf(arenas, d, a)
    requires cnt == |OnPage([a] + free[d], PageOf(a))| < PerArena(d)
    ensures Counts(arenas[PageOf(a) := Small(d, cnt)], free[d := [a] + free[d]], None)
  {
    var p := PageOf(a);
    var arenas1, free1 := arenas[p := Small(d, cnt)], free[d := [a] + free[d]];
    hide Blocks, PageOf;
    forall q | q in arenas1 ensures CountAt(arenas1, free1, None, q) {
      if q != p {
        assert CountAt(arenas, free, None, q);
        assert OnPage([a] + free[d], q) == OnPage(free[d], q);
      }
    }
  }

  lemma PushClients(arenas: map<nat, Header>, free: seq<seq<nat>>, live: map<nat, nat>, a: nat, d: nat, cnt: nat)
    requires Clients(arenas, free, live) && d < DESCS && BlockOf(arenas, d, a)
    ensures Clients(arenas[PageOf(a) := Small(d, cnt)], free[d := [a] + free[d]], live - {a})
  {
    var p := PageOf(a);
    var arenas1, free1, live1 := arenas[p := Small(d, cnt)], free[d := [a] + free[d]], live - {a};
    hide Blocks, PageOf, NoDup;
    forall b | b in live1 ensures LiveAt(arenas1, free1, b, live1[b]) {
      assert LiveAt(arenas, free, b, live[b]);
    }
    forall q | q in arenas1 ensures Accounted(arenas1, free1, live1, q) {
      assert Accounted(arenas, free, live, q);
      if arenas[q].Small? {
        BlocksOnPage(q, arenas[q].desc);
      }
    }
  }

  /** The arena is wholly free: all its blocks leave the free list. */
  lemma ReleaseLists(arenas: map<nat, Header>, free: seq<seq<nat>>, a: nat, d: nat)
    requires Lists(arenas, free) && d < DESCS && BlockOf(arenas, d, a) && NoDup([a] + free[d])
    ensures Lists(arenas - {PageOf(a)}, free[d := Drop([a] + free[d], Elements(Blocks(PageOf(a), d)))])
  {
    var p := PageOf(a);
    var list := Drop([a] + free[d], Elements(Blocks(p, d)));
    DropSpec([a] + free[d], Elements(Blocks(p, d)));
    var arenas1, free1 := arenas - {p}, free[d := list];
    hide Blocks, NoDup, Drop, PageOf;
    forall e, b | 0 <= e < DESCS && b in free1[e] ensures BlockOf(arenas1, e, b) {
      assert BlockOf(arenas, e, b);
    }
  }

  lemma ReleaseCounts(arenas: map<nat, Header>, free: seq<seq<nat>>, a: nat, d: nat)
    requires Lists(arenas, free) && Counts(arenas, free, None) && d < DESCS && BlockOf(arenas, d, a) && NoDup([a] + free[d])
    ensures Counts(arenas - {PageOf(a)}, free[d := Drop([a] + free[d], Elements(Blocks(PageOf(a), d)))], None)
  {
    var p := PageOf(a);
    var list := Drop([a] + free[d], Elements(Blocks(p, d)));
    DropSpec([a] + free[d], Elements(Blocks(p, d)));
    BlocksOnPage(p, d);
    var arenas1, free1 := arenas - {p}, free[d := list];
    hide Blocks, NoDup, Drop, PageOf, Lists;
    forall q | q in arenas1 ensures CountAt(arenas1, free1, None, q) {
      assert CountAt(arenas, free, None, q);
      assert OnPage(list, q) == OnPage(free[d], q);
    }
  }

  lemma ReleaseLive(arenas: map<nat, Header>, free: seq<seq<nat>>, a: nat, d: nat, b: nat, size: nat)
    requires |free| == DESCS && d < DESCS && BlockOf(arenas, d, a) && LiveAt(arenas, free, b, size) && b != a
    requires NoDup([a] + free[d]) && OnPage([a] + free[d], PageOf(a)) == Elements(Blocks(PageOf(a), d))
    ensures
      LiveAt(arenas - {PageOf(a)}, free[d := Drop([a] + free[d], Elements(Blocks(PageOf(a), d)))], b, size)
  {
    DropSpec([a] + free[d], Elements(Blocks(PageOf(a), d)));
    hide Blocks, NoDup, Drop, PageOf;
    assert b !in OnPage([a] + free[d], PageOf(a));
  }

  lemma ReleaseAccounted(arenas: map<nat, Header>, free: seq<seq<nat>>, live: map<nat, nat>, a: nat, d: nat, q: nat)
    requires |free| == DESCS && d < DESCS && q in arenas && q != PageOf(a) && Accounted(arenas, free, live, q)
    requires NoDup([a] + free[d])
    ensures
      Accounted(arenas - {PageOf(a)}, free[d := Drop([a] + free[d], Elements(Blocks(PageOf(a), d)))], live - {a}, q)
  {
    var p := PageOf(a);
    DropSpec([a] + free[d], Elements(Blocks(p, d)));
    BlocksOnPage(p, d);
    if arenas[q].Small? {
      BlocksOnPage(q, arenas[q].desc);
      hide Blocks, NoDup, Drop, PageOf;
    }
  }

  lemma ReleaseClients(arenas: map<nat, Header>, free: seq<seq<nat>>, live: map<nat, nat>, a: nat, d: nat)
    requires Clients(arenas, free, live) && d < DESCS && BlockOf(arenas, d, a)
    requires NoDup([a] + free[d]) && OnPage([a] + free[d], PageOf(a)) == Elements(Blocks(PageOf(a), d))
    ensures
      Clients(arenas - {PageOf(a)}, free[d := Drop([a] + free[d], Elements(Blocks(PageOf(a), d)))], live - {a})
  {
    var p := PageOf(a);
    hide Blocks, NoDup, Drop, PageOf, LiveAt, Accounted, BlockOf, OnPage, Elements;
    var arenas1, free1, live1 := arenas - {p}, free[d := Drop([a] + free[d], Elements(Blocks(p, d)))], live - {a};
    forall b | b in live1 ensures LiveAt(arenas1, free1, b, live1[b]) {
      ReleaseLive(arenas, free, a, d, b, live[b]);
    }
    forall q | q in arenas1 ensures Accounted(arenas1, free1, live1, q) {
      ReleaseAccounted(arenas, free, live, a, d, q);
    }
  }

  lemma ReleaseInv(h: Heap, a: nat, d: nat)
    requires HeapInv(h) && Freeable(h, a) && d < DESCS && BlockOf(h.arenas, d, a) && NoDup([a] + h.free[d])
    requires OnPage([a] + h.free[d], PageOf(a)) == Elements(Blocks(PageOf(a), d))
    ensures
      var list := Drop([a] + h.free[d], Elements(Blocks(PageOf(a), d)));
      HeapInv(ReleasePages(h, PageOf(a)).(free := h.free[d := list], live := h.live - {a}))
  {
    hide Blocks, NoDup, Lists, Counts, Clients, Pages, BlockOf, OnPage, Fill, PageOf, Elements, Drop;
    ReleasePagesKeeps(h.used, h.arenas, h.owner, PageOf(a));
    ReleaseLists(h.arenas, h.free, a, d);
    ReleaseCounts(h.arenas, h.free, a, d);
    ReleaseClients(h.arenas, h.free, h.live, a, d);
  }

  lemma PushInv(h: Heap, a: nat, d: nat, cnt: nat)
    requires HeapInv(h) && Freeable(h, a) && d < DESCS && BlockOf(h.arenas, d, a) && NoDup([a] + h.free[d])
    requires cnt == |OnPage([a] + h.free[d], PageOf(a))| < PerArena(d)
    ensures
      HeapInv(h.(arenas := h.arenas[PageOf(a) := Small(d, cnt)], free := h.free[d := [a] + h.free[d]], live := h.live - {a}))
  {
    assert h.arenas[PageOf(a)].Small?;
    hide Blocks, NoDup, Lists, Counts, Clients, Pages, BlockOf, OnPage, PageOf;
    PushLists(h.arenas, h.free, a, d, cnt);
    PushCounts(h.arenas, h.free, a, d, cnt);
    PushClients(h.arenas, h.free, h.live, a, d, cnt);
    SameLengths(h.used, h.arenas, h.owner, PageOf(a), Small(d, cnt));
  }

  lemma FreeSmallInv(h: Heap, a: nat)
    requires HeapInv(h) && a in h.live && Freeable(h, a) && h.arenas[PageOf(a)].Small?
    ensures HeapInv(FreeSmall(h, a))
  {
    hide Blocks, NoDup, HeapInv, OnPage, Fill, Drop, PageOf, Elements, BlockOf, PerArena, ReleasePages;
    FreedBlock(h, a);
    var p := PageOf(a);
    var d, cnt := h.arenas[p].desc, h.arenas[p].freeCnt + 1;
    if cnt >= PerArena(d) {
      SubsetCard(OnPage([a] + h.free[d], p), Elements(Blocks(p, d)));
      ReleaseInv(h, a, d);
    } else {
      PushInv(h, a, d, cnt);
    }
  }

  lemma FreeBigLists(arenas: map<nat, Header>, free: seq<seq<nat>>, p: nat)
    requires Lists(arenas, free) && Counts(arenas, free, None) && p in arenas && arenas[p].Big?
    ensures Lists(arenas - {p}, free) && Counts(arenas - {p}, free, None)
  {
    var arenas1 := arenas - {p};
    hide Blocks, NoDup, OnPage, PageOf;
    forall d, b | 0 <= d < DESCS && b in free[d] ensures BlockOf(arenas1, d, b) {
      assert BlockOf(arenas, d, b);
    }
    forall q | q in arenas1 ensures CountAt(arenas1, free, None, q) {
      assert CountAt(arenas, free, None, q);
    }
  }

  lemma FreeBigAccounted(arenas: map<nat, Header>, free: seq<seq<nat>>, live: map<nat, nat>, p: nat, a: nat, q: nat)
    requires |free| == DESCS && q in arenas && q != p && a == p * PGSIZE + HDR && Accounted(arenas, free, live, q)
    ensures Accounted(arenas - {p}, free, live - {a}, q)
  {
    assert PageOf(a) == p;
    if arenas[q].Small? {
      BlocksOnPage(q, arenas[q].desc);
      hide Blocks, NoDup, PageOf;
    }
  }

  lemma FreeBigClients(arenas: map<nat, Header>, free: seq<seq<nat>>, live: map<nat, nat>, p: nat, a: nat)
    requires Clients(arenas, free, live) && p in arenas && arenas[p].Big? && a == p * PGSIZE + HDR
    ensures Clients(arenas - {p}, free, live - {a})
  {
    var arenas1, live1 := arenas - {p}, live - {a};
    hide Blocks, PageOf;
    forall b | b in live1 ensures LiveAt(arenas1, free, b, live1[b]) {
      assert LiveAt(arenas, free, b, live[b]);
    }
    hide Accounted, LiveAt;
    forall q | q in arenas1 ensures Accounted(arenas1, free, live1, q) {
      FreeBigAccounted(arenas, free, live, p, a, q);
    }
  }

  /** A live block is where free expects it. */
  lemma LiveBlock(h: Heap, a: nat)
    requires HeapInv(h) && a in h.live
    ensures Freeable(h, a) && (h.arenas[PageOf(a)].Big? ==> a == PageOf(a) * PGSIZE + HDR)
  {
    assert LiveAt(h.arenas, h.free, a, h.live[a]);
  }

  lemma FreeBigInv(h: Heap, a: nat)
    requires HeapInv(h) && a in h.live && Freeable(h, a) && h.arenas[PageOf(a)].Big?
    ensures HeapInv(ReleasePages(h, PageOf(a)).(live := h.live - {a}))
  {
    LiveBlock(h, a);
    hide Lists, Counts, Clients, Pages, Fill, PageOf;
    ReleasePagesKeeps(h.used, h.arenas, h.owner, PageOf(a));
    FreeBigLists(h.arenas, h.free, PageOf(a));
    FreeBigClients(h.arenas, h.free, h.live, PageOf(a), a);
  }

  /** free keeps the invariant for every block it may be given. */
  lemma FreeInv(h: Heap, a: nat)
    requires HeapInv(h) && a in h.live
    ensures Freeable(h, a) && HeapInv(DoFree(h, a)) && DoFree(h, a).live == h.live - {a}
  {
    hide HeapInv, PageOf, Fill, Drop, Blocks, Assign, Elements, PerArena;
    LiveBlock(h, a);
    if h.arenas[PageOf(a)].Small? {
      FreeSmallInv(h, a);
    } else {
      FreeBigInv(h, a);
    }
  }
}
