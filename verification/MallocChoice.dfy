/** Which block malloc returns and what free does with it (threads/malloc.c), told
    by addresses, pages and lists. */
module MallocChoice {
  import opened Prelude
  import opened Arithmetic
  import opened Bitmap
  import opened Malloc
  import opened MallocProtocol
  import opened MallocTheorems

  /** The blocks have 16, 32, ... 1024 bytes. */
  lemma SizesDouble(d: nat)
    requires d < 7
    ensures BlockSize(d) == 16 * Pow2(d)
  {
    assert Pow2(1) == 2 && Pow2(2) == 4 && Pow2(3) == 8;
    assert Pow2(4) == 2 * Pow2(3) && Pow2(5) == 2 * Pow2(4) && Pow2(6) == 2 * Pow2(5);
  }

  /** Class d is the one for a request: the smallest blocks that are big enough. */
  ghost predicate ClassFor(size: nat, d: nat) {
    d < 7 && size <= 16 * Pow2(d) && (d > 0 ==> size > 16 * Pow2(d - 1))
  }

  lemma ClassIs(size: nat, d: nat)
    ensures DescFor(size) == d && d < 7 <==> ClassFor(size, d)
    ensures DescFor(size) == 7 <==> size > 1024
  {
    forall c: nat | c < 7 ensures BlockSize(c) == 16 * Pow2(c) { SizesDouble(c); }
    if ClassFor(size, d) {
      assert size <= BlockSize(d) && (d > 0 ==> size > BlockSize(d - 1));
    }
    hide Pow2;
  }

  /** From the free list of its class malloc takes the first block. */
  lemma TakesFirst(h: Heap, size: nat, d: nat)
    requires HeapInv(h) && size > 0 && ClassFor(size, d) && |h.free| == 7 && h.free[d] != []
    ensures
      var (h1, r) := DoMalloc(h, size);
      var a := h.free[d][0];
      && r == Some(a) && h1.free == h.free[d := h.free[d][1..]] && h1.live == h.live[a := size]
      && h1.used == h.used && h1.owner == h.owner
      && a / 4096 in h.arenas && h.arenas[a / 4096].Small? && h.arenas[a / 4096].freeCnt > 0
      && h1.arenas == h.arenas[a / 4096 := Small(d, h.arenas[a / 4096].freeCnt - 1)]
  {
    ClassIs(size, d);
    FirstCounted(h, d);
    hide HeapInv, ClassFor, DescFor;
  }

  lemma FirstCounted(h: Heap, d: nat)
    requires HeapInv(h) && d < DESCS && |h.free| == DESCS && h.free[d] != []
    ensures
      var p := PageOf(h.free[d][0]);
      p in h.arenas && h.arenas[p].Small? && h.arenas[p].desc == d && h.arenas[p].freeCnt > 0
  {
    var a := h.free[d][0];
    assert BlockOf(h.arenas, d, a);
    assert CountAt(h.arenas, h.free, None, PageOf(a));
    assert a in OnPage(h.free[d], PageOf(a));
  }

  /** With an empty free list it takes the lowest free page, returns the block
      behind its header and lists the other blocks in the order of their
      addresses. */
  lemma TakesFreshPage(h: Heap, size: nat, d: nat, p: nat)
    requires HeapInv(h) && size > 0 && ClassFor(size, d) && |h.free| == 7 && h.free[d] == [] && LowestRun(h.used, p, 1)
    ensures
      var (h1, r) := DoMalloc(h, size);
      var n := (4096 - 12) / (16 * Pow2(d));
      && r == Some(p * 4096 + 12) && h1.live == h.live[p * 4096 + 12 := size]
      && n > 1 && |h1.free| == 7 && |h1.free[d]| == n - 1
      && (forall i :: 0 <= i < n - 1 ==> h1.free[d][i] == p * 4096 + 12 + (i + 1) * (16 * Pow2(d)))
      && (forall c :: 0 <= c < 7 && c != d ==> h1.free[c] == h.free[c])
      && h1.used == h.used[p := true] && h1.arenas == h.arenas[p := Small(d, n - 1)]
  {
    ClassIs(size, d);
    SizesDouble(d);
    LowestIsScan(h.used, p, 1);
    hide HeapInv, ClassFor, DescFor, Scan, LowestRun, Pow2;
    var h0 := TakePages(h, p, Small(d, PerArena(d))).(free := h.free[d := Blocks(p, d)]);
    assert Stocked(h, d) == Some(h0);
    FreshPops(h, d, p, size);
  }

  lemma FreshPops(h: Heap, d: nat, p: nat, size: nat)
    requires d < DESCS && |h.free| == DESCS && p < |h.used|
    ensures
      var h0 := TakePages(h, p, Small(d, PerArena(d))).(free := h.free[d := Blocks(p, d)]);
      var (h1, r) := Pop(h0, d, size);
      && r == Some(p * PGSIZE + HDR) && h1.live == h.live[p * PGSIZE + HDR := size]
      && |h1.free| == DESCS && |h1.free[d]| == PerArena(d) - 1
      && (forall i :: 0 <= i < PerArena(d) - 1 ==> h1.free[d][i] == p * PGSIZE + HDR + (i + 1) * BlockSize(d))
      && (forall c :: 0 <= c < DESCS && c != d ==> h1.free[c] == h.free[c])
      && h1.used == h.used[p := true] && h1.arenas == h.arenas[p := Small(d, PerArena(d) - 1)]
  {
    hide BlockSize, PerArena;
    var b := Blocks(p, d);
    assert b[0] == p * PGSIZE + HDR && PageOf(b[0]) == p;
    assert Fill(h.used, p, 1, true) == h.used[p := true];
  }

  /** How many pages a request above 1024 bytes asks for: as few as hold it and the
      12 bytes of the header, computed in 32 bits; none when the rounding wraps. */
  lemma PagesExactly(size: nat)
    requires size < W32
    ensures
      var m, cnt := (size + 12) % W32, PageCount(size);
      if m <= W32 - 4096 then cnt * 4096 - 4096 < m <= cnt * 4096 else cnt == 0
  {
  }

  /** They are the lowest run of free pages, and the block starts behind the
      header. */
  lemma TakesPages(h: Heap, size: nat, p: nat)
    requires HeapInv(h) && 1024 < size < W32 && |h.free| == 7 && PageCount(size) > 0 && LowestRun(h.used, p, PageCount(size))
    ensures
      var (h1, r) := DoMalloc(h, size);
      var a, cnt := p * 4096 + 12, PageCount(size);
      && r == Some(a) && h1.live == h.live[a := size] && h1.free == h.free
      && h1.arenas == h.arenas[p := Big(cnt)] && |h1.used| == |h.used|
      && forall k :: 0 <= k < |h.used| ==> h1.used[k] == (h.used[k] || p <= k < p + cnt)
  {
    ClassIs(size, 0);
    LowestIsScan(h.used, p, PageCount(size));
    hide HeapInv, DescFor, Scan, LowestRun, PageCount;
  }

  // ------------------------------------------------------------------- free

  /** The elements of a list that are not gone, in their order. */
  lemma {:induction false} DropSplits(s: seq<nat>, t: seq<nat>, gone: set<nat>)
    ensures Drop(s + t, gone) == Drop(s, gone) + Drop(t, gone)
  {
    if s == [] {
      assert s + t == t;
    } else {
      var head := if s[0] in gone then [] else [s[0]];
      DropSplits(s[1..], t, gone);
      DropHead(s, gone, head);
      assert (s + t)[1..] == s[1..] + t;
      DropHead(s + t, gone, head);
      hide Drop;
      assert head + (Drop(s[1..], gone) + Drop(t, gone)) == (head + Drop(s[1..], gone)) + Drop(t, gone);
    }
  }

  lemma DropHead(s: seq<nat>, gone: set<nat>, head: seq<nat>)
    requires s != [] && head == if s[0] in gone then [] else [s[0]]
    ensures Drop(s, gone) == head + Drop(s[1..], gone)
  {
  }

  lemma DropOne(a: nat, gone: set<nat>)
    ensures Drop([a], gone) == if a in gone then [] else [a]
  {
    assert [a][1..] == [];
  }

  /** free of a small block puts it at the front of its class's list; if that
      leaves its arena without a block in use, the page is given back and all its
      blocks leave the list. */
  lemma FreesSmall(h: Heap, a: nat)
    requires HeapInv(h) && a in h.live && a / 4096 in h.arenas && h.arenas[a / 4096].Small?
    ensures
      var p := a / 4096;
      var d := h.arenas[p].desc;
      && Freeable(h, a) && d < 7 && |h.free| == 7
      && var h1 := DoFree(h, a);
      && h1.live == h.live - {a}
      && if exists b :: b in h.live && b != a && b / 4096 == p then
           && h1.free == h.free[d := [a] + h.free[d]] && h1.used == h.used
           && h1.arenas == h.arenas[p := Small(d, h.arenas[p].freeCnt + 1)]
         else
           && h1.used == h.used[p := false] && h1.arenas == h.arenas - {p}
           && h1.free == h.free[d := Drop([a] + h.free[d], Elements(Blocks(p, d)))]
  {
    LiveBlock(h, a);
    FullExactly(h, a);
    var p := a / 4096;
    hide HeapInv, Blocks, Drop, Elements;
    assert Fill(h.used, p, 1, false) == h.used[p := false];
  }

  /** The count after this free reaches the number of blocks exactly when no other
      block of the arena is in use. */
  lemma FullExactly(h: Heap, a: nat)
    requires HeapInv(h) && a in h.live && PageOf(a) in h.arenas && h.arenas[PageOf(a)].Small?
    ensures
      var p := PageOf(a);
      var d := h.arenas[p].desc;
      && d < DESCS && |h.free| == DESCS
      && (h.arenas[p].freeCnt + 1 >= PerArena(d) <==> forall b :: b in h.live && PageOf(b) == p ==> b == a)
  {
    var p := PageOf(a);
    assert LiveAt(h.arenas, h.free, a, h.live[a]) && CountAt(h.arenas, h.free, None, p) && Accounted(h.arenas, h.free, h.live, p);
    var d := h.arenas[p].desc;
    var blocks, listed := Elements(Blocks(p, d)), OnPage(h.free[d], p);
    BlocksCount(p, d);
    ListedAreBlocks(h, p, d);
    assert a in blocks && a !in listed;
    forall b | b in h.live && PageOf(b) == p ensures b in blocks && b !in listed {
      assert LiveAt(h.arenas, h.free, b, h.live[b]);
    }
    var rest := blocks - {a};
    assert |rest| == PerArena(d) - 1 && listed <= rest;
    if |listed| >= |rest| {
      SameSize(listed, rest);
    }
    if forall b :: b in h.live && PageOf(b) == p ==> b == a {
      forall b | b in rest ensures b in listed {
        assert b in Blocks(p, d) && (b in h.free[d] || b in h.live);
        BlockPage(p, d, b);
      }
      assert listed == rest;
    }
  }

  lemma SameSize(a: set<nat>, b: set<nat>)
    requires a <= b && |a| >= |b|
    ensures a == b
  {
    assert b == a + (b - a);
    assert |b - a| == 0;
  }

  lemma ListedAreBlocks(h: Heap, p: nat, d: nat)
    requires HeapInv(h) && d < DESCS && |h.free| == DESCS
    ensures OnPage(h.free[d], p) <= Elements(Blocks(p, d))
  {
    forall b | b in OnPage(h.free[d], p) ensures b in Blocks(p, d) {
      assert BlockOf(h.arenas, d, b);
    }
  }

  lemma BlockPage(p: nat, d: nat, b: nat)
    requires d < DESCS && b in Blocks(p, d)
    ensures PageOf(b) == p
  {
    var i: nat :| i < |Blocks(p, d)| && Blocks(p, d)[i] == b;
    AddrInside(p, d, i);
  }

  lemma BlocksCount(p: nat, d: nat)
    requires d < DESCS
    ensures |Elements(Blocks(p, d))| == PerArena(d)
  {
    NoDupCard(Blocks(p, d));
  }

  /** The block freed last is the one the next request of its class gets, as long
      as its arena is still there. */
  lemma FreedIsNext(h: Heap, a: nat, size: nat, b: nat)
    requires HeapInv(h) && a in h.live && a / 4096 in h.arenas && h.arenas[a / 4096].Small? && 0 < size < W32
    requires ClassFor(size, h.arenas[a / 4096].desc)
    requires b in h.live && b != a && b / 4096 == a / 4096
    ensures Freeable(h, a) && |DoFree(h, a).free| == DESCS && DoMalloc(DoFree(h, a), size).1 == Some(a)
  {
    FreesSmall(h, a);
    FreeInv(h, a);
    hide HeapInv, DoFree, DoMalloc, ClassFor;
    TakesFirst(DoFree(h, a), size, h.arenas[a / 4096].desc);
  }

  /** free of a big block gives its pages back. */
  lemma FreesBig(h: Heap, a: nat)
    requires HeapInv(h) && a in h.live && a / 4096 in h.arenas && h.arenas[a / 4096].Big?
    ensures
      var p := a / 4096;
      && Freeable(h, a)
      && var h1 := DoFree(h, a);
      && h1.live == h.live - {a} && h1.free == h.free && h1.arenas == h.arenas - {p} && |h1.used| == |h.used|
      && forall k :: 0 <= k < |h.used| ==> h1.used[k] == (h.used[k] && !(p <= k < p + h.arenas[p].pages))
  {
    LiveBlock(h, a);
    hide HeapInv;
  }
}
