/** malloc, free and realloc in place, over the page allocator's bitmap. */
module MallocKernel {
  import opened Prelude
  import opened Arithmetic
  import opened Bitmap
  import opened Malloc
  import opened MallocProtocol
  import opened MallocTheorems

  /** malloc_init: the descriptors' block sizes and blocks per arena. */
  method InitDescs() returns (sizes: seq<nat>, perArena: seq<nat>)
    ensures |sizes| == |perArena| == DESCS
    ensures forall d :: 0 <= d < DESCS ==> sizes[d] == BlockSize(d) && perArena[d] == PerArena(d)
  {
    sizes, perArena := [], [];
    var blockSize := 16;
    while blockSize < PGSIZE / 2
      invariant |sizes| == |perArena| <= DESCS
      invariant blockSize == if |sizes| < DESCS then BlockSize(|sizes|) else PGSIZE / 2
      invariant forall d :: 0 <= d < |sizes| ==> sizes[d] == BlockSize(d) && perArena[d] == PerArena(d)
      decreases PGSIZE - blockSize
    {
      sizes := sizes + [blockSize];
      perArena := perArena + [(PGSIZE - HDR) / blockSize];
      blockSize := blockSize * 2;
    }
  }

  /** The search of malloc for the smallest sufficient descriptor. */
  method FindDesc(size: nat) returns (d: nat)
    ensures d == DescFor(size)
  {
    d := 0;
    while d < DESCS && BlockSize(d) < size
      invariant d <= DescFor(size)
    {
      d := d + 1;
    }
  }

  /** Removing the blocks one by one removes them all. */
  lemma {:induction false} DropMore(list: seq<nat>, gone: set<nat>, a: nat)
    ensures Drop(Drop(list, gone), {a}) == Drop(list, gone + {a})
  {
    if list != [] {
      DropMore(list[1..], gone, a);
      var rest := Drop(list[1..], gone);
      assert ([list[0]] + rest)[1..] == rest;
      assert [] + rest == rest;
    }
  }

  lemma {:induction false} DropNothing(list: seq<nat>)
    ensures Drop(list, {}) == list
  {
    if list != [] {
      DropNothing(list[1..]);
      assert list == [list[0]] + list[1..];
    }
  }

  /** The loop of free that unlinks every block of an arena. */
  method UnlinkBlocks(list: seq<nat>, p: nat, d: nat) returns (r: seq<nat>)
    requires d < DESCS
    ensures r == Drop(list, Elements(Blocks(p, d)))
  {
    hide Blocks, Drop, BlockSize, Elements;
    r := list;
    DropNothing(list);
    NoElements();
    var i := 0;
    ghost var all := Blocks(p, d);
    BlockAt(p, d);
    while i < PerArena(d)
      invariant 0 <= i <= PerArena(d) == |all|
      invariant r == Drop(list, Elements(all[..i]))
    {
      var b := Addr(p, d, i);
      r := Drop(r, {b});
      DropMore(list, Elements(all[..i]), b);
      OneMore(all, i);
      i := i + 1;
    }
    assert all[..i] == all;
  }

  lemma BlockAt(p: nat, d: nat)
    requires d < DESCS
    ensures |Blocks(p, d)| == PerArena(d)
    ensures forall i :: 0 <= i < PerArena(d) ==> Blocks(p, d)[i] == Addr(p, d, i)
  {
  }

  lemma NoElements()
    ensures forall s: seq<nat> :: Elements(s[..0]) == {}
  {
  }

  lemma OneMore(all: seq<nat>, i: nat)
    requires i < |all|
    ensures Elements(all[..i + 1]) == Elements(all[..i]) + {all[i]}
  {
    assert all[..i + 1] == all[..i] + [all[i]];
  }

  class Allocator {
    /** The kernel pool's used_map. */
    const used: BitArray
    var arenas: map<nat, Header>
    var free: seq<seq<nat>>
    ghost var live: map<nat, nat>
    ghost var owner: seq<Owner>

    /** malloc_init over a pool of cnt pages. */
    constructor (cnt: nat)
      ensures used.Valid() && fresh(used.words) && MallocTheorems.Init(St())
    {
      used := new BitArray(cnt);
      arenas, live := map[], map[];
      free := seq(DESCS, d => []);
      owner := seq(cnt, k => Nobody);
    }

    ghost function St(): (h: Heap)
      requires used.Valid()
      reads this, used.words
    {
      Heap(used.View(), arenas, free, live, owner)
    }

    /** palloc_get_multiple on the kernel pool. */
    method GetPages(cnt: nat) returns (p: Option<nat>)
      requires used.Valid()
      modifies used.words
      ensures p == if cnt == 0 then None else Scan(old(used.View()), 0, cnt, false)
      ensures p.Some? ==> Group(old(used.View()), p.value, cnt, false) && used.View() == Fill(old(used.View()), p.value, cnt, true)
      ensures p.None? ==> used.View() == old(used.View())
    {
      if cnt == 0 { return None; }
      p := used.ScanAndFlip(0, cnt, false);
    }

    method MallocLarge(size: nat) returns (r: Option<nat>)
      requires used.Valid()
      requires |free| == DESCS
      modifies this, used.words
      ensures (St(), r) == MallocBig(old(St()), size)
    {
      hide PageCount, Scan, Fill;
      var cnt := PageCount(size);
      var p := GetPages(cnt);
      if p.None? { return None; }
      var a := p.value * PGSIZE + HDR;
      arenas := arenas[p.value := Big(cnt)];
      owner := Assign(owner, p.value, cnt, Arena(p.value));
      live := live[a := size];
      return Some(a);
    }

    /** Refill an empty free list from a new arena. */
    method Restock(d: nat) returns (ok: bool)
      requires used.Valid()
      requires |free| == DESCS && d < DESCS
      modifies this, used.words
      ensures if ok then Stocked(old(St()), d) == Some(St()) else Stocked(old(St()), d) == None && St() == old(St())
    {
      hide Scan, Fill, Blocks;
      if free[d] != [] { return true; }
      var p := GetPages(1);
      if p.None? { return false; }
      arenas := arenas[p.value := Small(d, PerArena(d))];
      owner := Assign(owner, p.value, 1, Arena(p.value));
      ghost var all := Blocks(p.value, d);
      BlockAt(p.value, d);
      ghost var was := free;
      var i := 0;
      while i < PerArena(d)
        invariant 0 <= i <= PerArena(d) == |all| && |free| == DESCS
        invariant free == was[d := all[..i]]
        invariant arenas == old(arenas)[p.value := Small(d, PerArena(d))] && live == old(live)
        invariant owner == Assign(old(owner), p.value, 1, Arena(p.value))
        invariant used.View() == Fill(old(used.View()), p.value, 1, true)
      {
        assert all[..i + 1] == all[..i] + [all[i]];
        free := free[d := free[d] + [Addr(p.value, d, i)]];
        i := i + 1;
      }
      assert all[..i] == all;
      return true;
    }

    method Allocate(size: nat) returns (r: Option<nat>)
      requires used.Valid()
      requires HeapInv(St()) && size < W32
      modifies this, used.words
      ensures (St(), r) == DoMalloc(old(St()), size)
      ensures Served(old(St()), St(), r, size)
    {
      hide HeapInv, MallocBig, Stocked, Pop, PageOf;
      FreeLists(St());
      MallocInv(St(), size);
      if size == 0 { return None; }
      var d := FindDesc(size);
      if d == DESCS {
        r := MallocLarge(size);
        return;
      }
      ghost var h := St();
      StockedInv(h, d);
      var ok := Restock(d);
      if !ok { return None; }
      PopInv(St(), d, size);
      r := TakeFirst(d, size);
    }

    /** Take the first block of a descriptor that has one. */
    method TakeFirst(d: nat, ghost size: nat) returns (r: Option<nat>)
      requires used.Valid()
      requires |free| == DESCS && d < DESCS && free[d] != [] && HeapInv(St(), Some(PageOf(free[d][0])))
      modifies this
      ensures (St(), r) == Pop(old(St()), d, size)
    {
      HeadBlock(arenas, free, live, d, Some(PageOf(free[d][0])));
      hide HeapInv, Blocks;
      var b := free[d][0];
      free := free[d := free[d][1..]];
      var p := PageOf(b);
      arenas := arenas[p := Small(d, arenas[p].freeCnt - 1)];
      live := live[b := size];
      return Some(b);
    }

    method Deallocate(block: Option<nat>)
      requires used.Valid()
      requires HeapInv(St()) && (block.Some? ==> block.value in live)
      modifies this, used.words
      ensures block.None? ==> St() == old(St())
      ensures block.Some? ==> Freeable(old(St()), block.value) && St() == DoFree(old(St()), block.value)
      ensures HeapInv(St())
    {
      if block.None? { return; }
      FreeInv(St(), block.value);
      hide HeapInv;
      FreeBlock(block.value);
    }

    method FreeBlock(a: nat)
      requires used.Valid()
      requires Freeable(St(), a)
      modifies this, used.words
      ensures St() == DoFree(old(St()), a)
    {
      hide HeapInv, Fill, Assign, Drop, Blocks, PageOf;
      var p := PageOf(a);
      if arenas[p].Big? {
        owner := Assign(owner, p, arenas[p].pages, Nobody);
        used.SetMultiple(p, arenas[p].pages, false);
        arenas := arenas - {p};
      } else {
        var d := arenas[p].desc;
        free := free[d := [a] + free[d]];
        arenas := arenas[p := Small(d, arenas[p].freeCnt + 1)];
        if arenas[p].freeCnt >= PerArena(d) {
          var list := UnlinkBlocks(free[d], p, d);
          free := free[d := list];
          owner := Assign(owner, p, 1, Nobody);
          used.SetMultiple(p, 1, false);
          arenas := arenas - {p};
        }
      }
      live := live - {a};
    }

    /** realloc.  copied is the length passed to memcpy, the smaller of the new
        size and the old block; on failure the old block is untouched. */
    method Reallocate(block: Option<nat>, size: nat) returns (r: Option<nat>, copied: nat)
      requires used.Valid()
      requires HeapInv(St()) && (block.Some? ==> block.value in live) && size < W32
      modifies this, used.words
      ensures HeapInv(St())
      ensures size == 0 ==> r.None? && live == old(if block.Some? then live - {block.value} else live)
      ensures size > 0 && r.None? ==> St() == old(St())
      ensures
        size > 0 && r.Some? ==>
          && r.value !in old(live)
          && live == old(live)[r.value := size] - (if block.Some? then {block.value} else {})
      ensures
        block.Some? && r.Some? ==>
          && Freeable(old(St()), block.value)
          && copied == var room := Room(old(St()), block.value); if size < room then size else room
    {
      hide HeapInv, DoMalloc, DoFree, Room;
      r, copied := None, 0;
      if block.Some? { FreeInv(St(), block.value); }
      if size == 0 {
        Deallocate(block);
        return;
      }
      ghost var h := St();
      r := Allocate(size);
      if block.Some? && r.Some? {
        SameRoom(h, size, block.value);
        var oldSize := BlockRoom(block.value);
        copied := if size < oldSize then size else oldSize;
        FreeInv(St(), block.value);
        Deallocate(block);
      }
    }

    /** block_size. */
    method BlockRoom(a: nat) returns (n: nat)
      requires used.Valid() && HeapInv(St()) && a in live
      ensures Freeable(St(), a) && n == Room(St(), a)
      ensures live[a] + HDR < W32 ==> live[a] <= n
      ensures a + n <= (PageOf(a) + Len(arenas[PageOf(a)])) * PGSIZE
    {
      BlockWithin(St(), a);
      assert Len(arenas[PageOf(a)]) > 0;
      hide HeapInv;
      var x := arenas[PageOf(a)];
      n := if x.Small? then BlockSize(x.desc) else PGSIZE * x.pages - HDR;
    }
  }

  /** Arenas keep their kind, descriptor and length. */
  ghost predicate SameShape(h: Heap, h1: Heap) {
    forall q :: q in h.arenas ==>
      && q in h1.arenas
      && match h.arenas[q]
         case Small(d, _) => h1.arenas[q].Small? && h1.arenas[q].desc == d
         case Big(_) => h1.arenas[q] == h.arenas[q]
  }

  lemma TakeShape(h: Heap, p: nat, x: Header)
    requires HeapInv(h) && Len(x) > 0 && Group(h.used, p, Len(x), false)
    ensures SameShape(h, TakePages(h, p, x))
  {
    TakePagesKeeps(h.used, h.arenas, h.owner, p, x);
  }

  lemma StockShape(h: Heap, d: nat)
    requires HeapInv(h) && d < DESCS && |h.free| == DESCS && Stocked(h, d).Some?
    ensures SameShape(h, Stocked(h, d).value)
  {
    hide HeapInv, Blocks, Fill, Scan, PerArena;
    if h.free[d] == [] {
      ScanIsFirst(h.used, 0, 1, false);
      TakeShape(h, Scan(h.used, 0, 1, false).value, Small(d, PerArena(d)));
    }
  }

  lemma PopShape(h: Heap, d: nat, size: nat)
    requires |h.free| == DESCS && d < DESCS && h.free[d] != [] && HeapInv(h, Some(PageOf(h.free[d][0])))
    ensures SameShape(h, Pop(h, d, size).0)
  {
    HeadBlock(h.arenas, h.free, h.live, d, Some(PageOf(h.free[d][0])));
    hide HeapInv, Blocks;
  }

  lemma MallocShape(h: Heap, size: nat)
    requires HeapInv(h) && size < W32 && |h.free| == DESCS
    ensures SameShape(h, DoMalloc(h, size).0)
  {
    hide HeapInv, PageCount, Scan, Fill, Stocked, Pop, PageOf;
    var d := DescFor(size);
    if d == DESCS {
      var cnt := PageCount(size);
      ScanIsFirst(h.used, 0, cnt, false);
      var r := Scan(h.used, 0, cnt, false);
      if cnt > 0 && r.Some? {
        TakeShape(h, r.value, Big(cnt));
      }
    } else if size > 0 && Stocked(h, d).Some? {
      StockShape(h, d);
      StockedInv(h, d);
      PopShape(Stocked(h, d).value, d, size);
    }
  }

  /** An allocation leaves the size of every other live block alone. */
  lemma SameRoom(h: Heap, size: nat, a: nat)
    requires HeapInv(h) && size < W32 && a in h.live && |h.free| == DESCS
    ensures
      var h1 := DoMalloc(h, size).0;
      Freeable(h, a) && Freeable(h1, a) && Room(h1, a) == Room(h, a)
  {
    hide HeapInv, DoMalloc, PageOf;
    LiveBlock(h, a);
    MallocInv(h, size);
    LiveBlock(DoMalloc(h, size).0, a);
    MallocShape(h, size);
  }
}
