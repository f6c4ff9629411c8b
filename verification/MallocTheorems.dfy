/** What malloc and free promise over whole runs. */
module MallocTheorems {
  import opened Prelude
  import opened Arithmetic
  import opened Bitmap
  import opened Malloc
  import opened MallocProtocol

  // -------------------------------------------------------------- every run

  /** malloc and free, and other users of the page pool. */
  datatype Event =
    | Alloc(size: nat)
    | Release(a: nat)
    | PagesTaken(cnt: nat)
    | PagesReturned(p: nat, cnt: nat)

  /** A caller may free only what it was given and has not freed. */
  predicate Enabled(h: Heap, e: Event) {
    match e
    case Alloc(size) => size < W32
    case Release(a) => a in h.live
    case PagesTaken(cnt) => cnt > 0
    case PagesReturned(p, cnt) => p + cnt <= |h.owner| && forall k :: p <= k < p + cnt ==> h.owner[k] == Other
  }

  function TakeOther(h: Heap, cnt: nat): (r: Heap) {
    match Scan(h.used, 0, cnt, false)
    case None => h
    case Some(p) =>
      ScanIsFirst(h.used, 0, cnt, false);
      h.(used := Fill(h.used, p, cnt, true), owner := Assign(h.owner, p, cnt, Other))
  }

  /** One call.  The guards only make the function total: they hold in every
      reachable heap (FreeLists, LiveBlock). */
  function Next(h: Heap, e: Event): (r: Heap) {
    match e
    case Alloc(size) => if |h.free| == DESCS then DoMalloc(h, size).0 else h
    case Release(a) => if Freeable(h, a) then DoFree(h, a) else h
    case PagesTaken(cnt) => TakeOther(h, cnt)
    case PagesReturned(p, cnt) =>
      if p + cnt <= |h.used| then
        h.(used := Fill(h.used, p, cnt, false), owner := Assign(h.owner, p, cnt, Nobody))
      else h
  }

  lemma OtherPages(used: seq<bool>, arenas: map<nat, Header>, owner: seq<Owner>, p: nat, cnt: nat, o: Owner)
    requires Pages(used, arenas, owner) && p + cnt <= |used| && !o.Arena?
    requires forall k :: p <= k < p + cnt ==> !owner[k].Arena?
    ensures Pages(Fill(used, p, cnt, o != Nobody), arenas, Assign(owner, p, cnt, o))
  {
  }

  lemma NextInv(h: Heap, e: Event)
    requires HeapInv(h) && Enabled(h, e)
    ensures HeapInv(Next(h, e))
  {
    match e
    case Alloc(size) => MallocInv(h, size);
    case Release(a) => FreeInv(h, a);
    case PagesTaken(cnt) =>
      ScanIsFirst(h.used, 0, cnt, false);
      var r := Scan(h.used, 0, cnt, false);
      if r.Some? {
        OtherPages(h.used, h.arenas, h.owner, r.value, cnt, Other);
      }
    case PagesReturned(p, cnt) =>
      OtherPages(h.used, h.arenas, h.owner, p, cnt, Nobody);
  }

  /** malloc_init and palloc_init: no arenas, and only others' pages in use. */
  ghost predicate Init(h: Heap) {
    && h.arenas == map[] && h.live == map[] && h.free == seq(DESCS, d => [])
    && |h.owner| == |h.used|
    && forall k :: 0 <= k < |h.used| ==> !h.owner[k].Arena? && (h.used[k] <==> h.owner[k] == Other)
  }

  ghost predicate Run(states: seq<Heap>, events: seq<Event>) {
    && |states| == |events| + 1
    && Init(states[0])
    && forall i :: 0 <= i < |events| ==>
      Enabled(states[i], events[i]) && states[i + 1] == Next(states[i], events[i])
  }

  lemma {:induction false} RunInv(states: seq<Heap>, events: seq<Event>, i: nat)
    requires Run(states, events) && i < |states|
    ensures HeapInv(states[i])
    decreases i
  {
    if i > 0 {
      RunInv(states, events, i - 1);
      hide HeapInv, Next, Enabled;
      NextInv(states[i - 1], events[i - 1]);
    }
  }

  // ------------------------------------------------------------ the promises

  /** block_size: the bytes a block may be used for. */
  function Room(h: Heap, a: nat): (r: nat)
    requires Freeable(h, a)
  {
    var x := h.arenas[PageOf(a)];
    if x.Small? then BlockSize(x.desc) else if x.pages > 0 then PGSIZE * x.pages - HDR else 0
  }

  /** A block lies within the pages of its arena, behind the header, and is as
      big as was asked for, except for requests within 12 bytes of 2^32. */
  lemma BlockWithin(h: Heap, a: nat)
    requires HeapInv(h) && a in h.live
    ensures
      var p := PageOf(a);
      && Freeable(h, a)
      && p * PGSIZE + HDR <= a
      && a + Room(h, a) <= (p + Len(h.arenas[p])) * PGSIZE
      && (h.live[a] + HDR < W32 ==> h.live[a] <= Room(h, a))
  {
    LiveBlock(h, a);
    assert LiveAt(h.arenas, h.free, a, h.live[a]);
    var p := PageOf(a);
    if h.arenas[p].Small? {
      var d := h.arenas[p].desc;
      var i: nat :| i < |Blocks(p, d)| && Blocks(p, d)[i] == a;
      AddrInside(p, d, i);
    }
  }

  lemma ArenasApart(h: Heap, p: nat, q: nat)
    requires HeapInv(h) && p in h.arenas && q in h.arenas && p < q
    ensures p + Len(h.arenas[p]) <= q
  {
    assert InArena(h.arenas, q, q);
    assert h.owner[q] == Arena(q) && !InArena(h.arenas, p, q);
  }

  lemma SamePageApart(h: Heap, a: nat, b: nat)
    requires HeapInv(h) && a in h.live && b in h.live && a < b && PageOf(a) == PageOf(b)
    ensures Freeable(h, a) && a + Room(h, a) <= b
  {
    LiveBlock(h, a);
    assert LiveAt(h.arenas, h.free, a, h.live[a]) && LiveAt(h.arenas, h.free, b, h.live[b]);
    hide HeapInv, Blocks, BlockSize, PageOf;
    BlocksApart(PageOf(a), h.arenas[PageOf(a)].desc, a, b);
  }

  lemma BlocksApart(p: nat, d: nat, a: nat, b: nat)
    requires d < DESCS && a in Blocks(p, d) && b in Blocks(p, d) && a < b
    ensures a + BlockSize(d) <= b
  {
    var i: nat :| i < |Blocks(p, d)| && Blocks(p, d)[i] == a;
    var j: nat :| j < |Blocks(p, d)| && Blocks(p, d)[j] == b;
    if j < i {
      AddrApart(p, d, j, i);
    }
    AddrApart(p, d, i, j);
  }

  /** No two live blocks overlap. */
  lemma LiveBlocksDisjoint(h: Heap, a: nat, b: nat)
    requires HeapInv(h) && a in h.live && b in h.live && a < b
    ensures Freeable(h, a) && a + Room(h, a) <= b
  {
    hide HeapInv;
    BlockWithin(h, a);
    BlockWithin(h, b);
    if PageOf(a) == PageOf(b) {
      SamePageApart(h, a, b);
    } else {
      ArenasApart(h, PageOf(a), PageOf(b));
    }
  }

  /** When every block has been freed nothing is kept back: no arena is left,
      all free lists are empty, and only others' pages are in use. */
  lemma AllFreed(h: Heap)
    requires HeapInv(h) && h.live == map[]
    ensures h.arenas == map[]
    ensures forall d :: 0 <= d < DESCS ==> h.free[d] == []
    ensures |h.owner| == |h.used| && forall k :: 0 <= k < |h.used| ==> (h.used[k] <==> h.owner[k] == Other)
  {
    forall p | p in h.arenas ensures false {
      NoIdleArena(h, p);
    }
    forall d | 0 <= d < DESCS ensures h.free[d] == [] {
      NoMember(h.free[d]);
    }
  }

  lemma NoMember(s: seq<nat>)
    requires forall a :: a !in s
    ensures s == []
  {
    if s != [] { HasMember(s); }
  }

  lemma HasMember(s: seq<nat>)
    requires s != []
    ensures exists a :: a in s
  {
    assert s[0] in s;
  }

  /** Every arena holds a live block. */
  lemma NoIdleArena(h: Heap, p: nat)
    requires HeapInv(h) && p in h.arenas
    ensures exists a :: a in h.live && PageOf(a) == p
  {
    assert Accounted(h.arenas, h.free, h.live, p) && CountAt(h.arenas, h.free, None, p);
    if h.arenas[p].Big? {
      assert PageOf(p * PGSIZE + HDR) == p;
    } else {
      var d := h.arenas[p].desc;
      OnPageBlocks(h.arenas, h.free, p);
      BlocksOnPage(p, d);
      var all := Elements(Blocks(p, d));
      SubsetCard(OnPage(h.free[d], p), all);
      assert OnPage(h.free[d], p) != all;
      var a :| a in all && a !in OnPage(h.free[d], p);
    }
  }

  // ---------------------------------------------- free undoes malloc exactly

  lemma TakeThenRelease(h: Heap, p: nat, x: Header)
    requires Pages(h.used, h.arenas, h.owner) && Len(x) > 0 && Group(h.used, p, Len(x), false) && p !in h.arenas
    ensures
      var h1 := TakePages(h, p, x);
      Fill(h1.used, p, Len(x), false) == h.used && h1.arenas - {p} == h.arenas && Assign(h1.owner, p, Len(x), Nobody) == h.owner
  {
    FillBack(h.used, p, Len(x), false);
  }

  lemma BigUndone(h: Heap, p: nat, cnt: nat, size: nat)
    requires HeapInv(h) && cnt > 0 && Group(h.used, p, cnt, false)
    ensures
      var a := p * PGSIZE + HDR;
      var h1 := TakePages(h, p, Big(cnt)).(live := h.live[a := size]);
      Freeable(h1, a) && DoFree(h1, a) == h
  {
    var a := p * PGSIZE + HDR;
    assert PageOf(a) == p;
    TakePagesKeeps(h.used, h.arenas, h.owner, p, Big(cnt));
    TakeThenRelease(h, p, Big(cnt));
    assert a in h.live ==> LiveAt(h.arenas, h.free, a, h.live[a]);
    assert h.live[a := size] - {a} == h.live;
  }

  lemma PopUndone(h: Heap, d: nat, size: nat)
    requires HeapInv(h) && d < DESCS && |h.free| == DESCS && h.free[d] != []
    ensures
      var (h1, r) := Pop(h, d, size);
      r.Some? && Freeable(h1, r.value) && DoFree(h1, r.value) == h
  {
    var a := h.free[d][0];
    var p := PageOf(a);
    HeadBlock(h.arenas, h.free, h.live, d, None);
    assert CountAt(h.arenas, h.free, None, p);
    assert [a] + h.free[d][1..] == h.free[d];
    PushBack(h, a, d, size);
  }

  /** A block pushed back on the list it was popped from. */
  lemma PushBack(h: Heap, a: nat, d: nat, size: nat)
    requires d < DESCS && |h.free| == DESCS && h.free[d] != [] && h.free[d][0] == a && a !in h.live && Freeable(h, a)
    requires h.arenas[PageOf(a)].Small? && h.arenas[PageOf(a)].desc == d
    requires 0 < h.arenas[PageOf(a)].freeCnt < PerArena(d)
    ensures
      var (h1, r) := Pop(h, d, size);
      r == Some(a) && Freeable(h1, a) && DoFree(h1, a) == h
  {
    hide HeapInv, PageOf, Blocks, Drop, PerArena, Elements, ReleasePages;
    var p := PageOf(a);
    var h1 := Pop(h, d, size).0;
    assert h1.arenas[p := h.arenas[p]] == h.arenas;
    assert [a] + h.free[d][1..] == h.free[d];
    assert h1.free[d := [a] + h1.free[d]] == h.free;
    assert h1.live - {a} == h.live;
  }

  lemma FreshUndone(h: Heap, p: nat, d: nat, size: nat)
    requires HeapInv(h) && d < DESCS && |h.free| == DESCS && h.free[d] == [] && Group(h.used, p, 1, false)
    ensures
      var h0 := TakePages(h, p, Small(d, PerArena(d))).(free := h.free[d := Blocks(p, d)]);
      var (h1, r) := Pop(h0, d, size);
      r.Some? && Freeable(h1, r.value) && DoFree(h1, r.value) == h
  {
    var x := Small(d, PerArena(d));
    TakePagesKeeps(h.used, h.arenas, h.owner, p, x);
    TakeThenRelease(h, p, x);
    var list := Blocks(p, d);
    var a := list[0];
    AddrInside(p, d, 0);
    assert a in h.live ==> LiveAt(h.arenas, h.free, a, h.live[a]);
    assert [a] + list[1..] == list;
    BlocksOnPage(p, d);
    DropSpec(list, Elements(list));
    NoMember(Drop(list, Elements(list)));
    FreshBack(h, TakePages(h, p, x), p, d, list, size);
  }

  /** The one block taken from a fresh arena comes back: the arena goes. */
  lemma FreshBack(h: Heap, t: Heap, p: nat, d: nat, list: seq<nat>, size: nat)
    requires d < DESCS && |h.free| == DESCS && h.free[d] == [] && p < |t.used|
    requires list == Blocks(p, d) && list != [] && PageOf(list[0]) == p && list[0] !in h.live
    requires Drop(list, Elements(list)) == [] && [list[0]] + list[1..] == list
    requires t.arenas == h.arenas[p := Small(d, PerArena(d))] && t.live == h.live && t.free == h.free && p !in h.arenas
    requires Fill(t.used, p, 1, false) == h.used && Assign(t.owner, p, 1, Nobody) == h.owner
    ensures
      var (h1, r) := Pop(t.(free := h.free[d := list]), d, size);
      r == Some(list[0]) && Freeable(h1, list[0]) && DoFree(h1, list[0]) == h
  {
    hide HeapInv, PageOf, Blocks, Drop, Elements, Fill, Assign, BlockSize;
    var a := list[0];
    var h1 := Pop(t.(free := h.free[d := list]), d, size).0;
    assert h1.arenas - {p} == h.arenas;
    assert h1.free[d := []] == h.free;
    assert h1.live - {a} == h.live;
  }

  /** Freeing the block that malloc just returned restores the heap exactly:
      bitmap, arenas, counts and the order of every free list. */
  lemma FreeUndoesMalloc(h: Heap, size: nat)
    requires HeapInv(h) && size < W32 && |h.free| == DESCS && DoMalloc(h, size).1.Some?
    ensures
      var (h1, r) := DoMalloc(h, size);
      Freeable(h1, r.value) && DoFree(h1, r.value) == h
  {
    hide HeapInv, DoFree, Freeable, Pop, Scan, PageCount, Fill;
    var d := DescFor(size);
    if d == DESCS {
      var cnt := PageCount(size);
      ScanIsFirst(h.used, 0, cnt, false);
      BigUndone(h, Scan(h.used, 0, cnt, false).value, cnt, size);
    } else if h.free[d] != [] {
      PopUndone(h, d, size);
    } else {
      ScanIsFirst(h.used, 0, 1, false);
      FreshUndone(h, Scan(h.used, 0, 1, false).value, d, size);
    }
  }

  /** malloc fails exactly for size zero and when the pages it needs are not
      there. */
  lemma FailsExactly(h: Heap, size: nat)
    requires HeapInv(h) && size < W32 && |h.free| == DESCS
    ensures
      var d := DescFor(size);
      DoMalloc(h, size).1.None? <==>
      size == 0
      || (d < DESCS && h.free[d] == [] && forall i :: 0 <= i < |h.used| ==> h.used[i])
      || (d == DESCS && (PageCount(size) == 0 || forall i :: 0 <= i ==> !Group(h.used, i, PageCount(size), false)))
  {
    hide HeapInv, PageCount, Scan, Fill;
    var d := DescFor(size);
    if size > 0 && d == DESCS {
      ScanIsFirst(h.used, 0, PageCount(size), false);
    } else if size > 0 {
      ScanIsFirst(h.used, 0, 1, false);
      OnePage(h.used);
      StockedInv(h, d);
      if Stocked(h, d).Some? {
        PopInv(Stocked(h, d).value, d, size);
      }
    }
  }

  lemma OnePage(used: seq<bool>)
    ensures (forall i :: 0 <= i ==> !Group(used, i, 1, false)) <==> forall i :: 0 <= i < |used| ==> used[i]
  {
    forall i | 0 <= i < |used| ensures Group(used, i, 1, false) <==> !used[i] {
    }
  }

  /** A block that malloc returns is as big as was asked for exactly when size
      plus header does not wrap around. */
  lemma ServedEnough(h: Heap, size: nat)
    requires HeapInv(h) && size < W32 && |h.free| == DESCS
    ensures
      var (h1, r) := DoMalloc(h, size);
      r.Some? ==> Freeable(h1, r.value) && (size <= Room(h1, r.value) <==> size + HDR < W32)
  {
    MallocInv(h, size);
    var (h1, r) := DoMalloc(h, size);
    if r.Some? {
      BlockWithin(h1, r.value);
      if DescFor(size) == DESCS { BigRoom(h, size); }
    }
  }

  lemma BigRoom(h: Heap, size: nat)
    requires size < W32 && |h.free| == DESCS && MallocBig(h, size).1.Some?
    ensures
      var (h1, r) := MallocBig(h, size);
      Freeable(h1, r.value) ==> (size <= Room(h1, r.value) <==> size + HDR < W32)
  {
    var cnt := PageCount(size);
    PageCountEnough(size);
    hide PageCount, Scan, Fill;
    var p := Scan(h.used, 0, cnt, false).value;
    assert PageOf(p * PGSIZE + HDR) == p;
  }

  /** So a request 8 bytes below 2^32 gets one page whenever one is free, and does
      not fit in it. */
  lemma HugeRequestWraps(h: Heap)
    requires HeapInv(h) && |h.free| == DESCS && exists i :: 0 <= i < |h.used| && !h.used[i]
    ensures
      var (h1, r) := DoMalloc(h, W32 - 8);
      r.Some? && Freeable(h1, r.value) && Room(h1, r.value) < W32 - 8
  {
    FailsExactly(h, W32 - 8);
    OnePage(h.used);
    assert PageCount(W32 - 8) == 1;
    ServedEnough(h, W32 - 8);
    hide HeapInv, DoMalloc, Room, Freeable;
  }
}
