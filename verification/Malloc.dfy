/** threads/malloc.c over the page allocator: descriptors, arenas, free lists
    and big blocks. */
module Malloc {
  import opened Prelude
  import opened Arithmetic
  import opened Bitmap

  const PGSIZE := 4096
  /** sizeof (struct arena). */
  const HDR := 12
  const DESCS := 7

  // ------------------------------------------------------------- geometry

  function BlockSize(d: nat): (r: nat)
    requires d < DESCS
    ensures 16 <= r <= 1024
  {
    [16, 32, 64, 128, 256, 512, 1024][d]
  }

  function PerArena(d: nat): (r: nat)
    requires d < DESCS
    ensures 3 <= r <= 255
  {
    (PGSIZE - HDR) / BlockSize(d)
  }

  /** arena_to_block; addresses count bytes from the pool's base. */
  function Addr(p: nat, d: nat, i: nat): (a: nat)
    requires d < DESCS
  {
    p * PGSIZE + HDR + i * BlockSize(d)
  }

  function PageOf(a: nat): (p: nat) { a / PGSIZE }

  function Blocks(p: nat, d: nat): (r: seq<nat>)
    requires d < DESCS
  {
    seq(PerArena(d), i requires i >= 0 => Addr(p, d, i))
  }

  function Elements(s: seq<nat>): (r: set<nat>) { set a | a in s }

  /** The first descriptor with big enough blocks, or DESCS. */
  function DescFor(size: nat): (d: nat)
    ensures d <= DESCS
    ensures d < DESCS ==> size <= BlockSize(d)
    ensures d > 0 ==> size > BlockSize(d - 1)
  {
    if size <= 16 then 0 else if size <= 32 then 1 else if size <= 64 then 2 else if size <= 128 then 3
    else if size <= 256 then 4 else if size <= 512 then 5 else if size <= 1024 then 6 else DESCS
  }

  /** DIV_ROUND_UP (size + sizeof (struct arena), PGSIZE) in 32-bit size_t. */
  function PageCount(size: nat): (r: nat) {
    ((size + HDR) % W32 + PGSIZE - 1) % W32 / PGSIZE
  }

  // ---------------------------------------------------------------- state

  /** struct arena, by its desc field. */
  datatype Header = Small(desc: nat, freeCnt: nat) | Big(pages: nat)

  datatype Owner = Nobody | Arena(start: nat) | Other

  /** used, arenas and free are the allocator's memory.  live records the blocks
      handed out with the sizes asked for; owner says of every page of the pool
      which arena it belongs to, or that some other caller took it. */
  datatype Heap = Heap(used: seq<bool>, arenas: map<nat, Header>, free: seq<seq<nat>>,
                       live: map<nat, nat>, owner: seq<Owner>)

  function Len(a: Header): (r: nat) { if a.Small? then 1 else a.pages }

  function Assign(owner: seq<Owner>, p: nat, cnt: nat, o: Owner): (r: seq<Owner>) {
    seq(|owner|, k requires 0 <= k < |owner| => if p <= k < p + cnt then o else owner[k])
  }

  // ----------------------------------------------------------- operations

  function TakePages(h: Heap, p: nat, a: Header): (r: Heap)
    requires p + Len(a) <= |h.used|
  {
    h.(used := Fill(h.used, p, Len(a), true), arenas := h.arenas[p := a], owner := Assign(h.owner, p, Len(a), Arena(p)))
  }

  function MallocBig(h: Heap, size: nat): (r: (Heap, Option<nat>))
    requires |h.free| == DESCS
  {
    var cnt := PageCount(size);
    if cnt == 0 then (h, None)
    else
      match Scan(h.used, 0, cnt, false)
      case None => (h, None)
      case Some(p) =>
        ScanIsFirst(h.used, 0, cnt, false);
        var a := p * PGSIZE + HDR;
        (TakePages(h, p, Big(cnt)).(live := h.live[a := size]), Some(a))
  }

  /** Make sure the descriptor has a free block. */
  function Stocked(h: Heap, d: nat): (r: Option<Heap>)
    requires |h.free| == DESCS && d < DESCS
    ensures r.Some? ==> |r.value.free| == DESCS && r.value.free[d] != []
  {
    if h.free[d] != [] then Some(h)
    else
      match Scan(h.used, 0, 1, false)
      case None => None
      case Some(p) =>
        ScanIsFirst(h.used, 0, 1, false);
        Some(TakePages(h, p, Small(d, PerArena(d))).(free := h.free[d := Blocks(p, d)]))
  }

  function Pop(h: Heap, d: nat, size: nat): (r: (Heap, Option<nat>))
    requires |h.free| == DESCS && d < DESCS && h.free[d] != []
  {
    var a := h.free[d][0];
    var p := PageOf(a);
    if p in h.arenas && h.arenas[p].Small? && h.arenas[p].freeCnt > 0 then
      (h.(arenas := h.arenas[p := Small(d, h.arenas[p].freeCnt - 1)],
          free := h.free[d := h.free[d][1..]],
          live := h.live[a := size]),
       Some(a))
    else (h, None)
  }

  function DoMalloc(h: Heap, size: nat): (r: (Heap, Option<nat>))
    requires |h.free| == DESCS
  {
    var d := DescFor(size);
    if size == 0 then (h, None)
    else if d == DESCS then MallocBig(h, size)
    else
      match Stocked(h, d)
      case None => (h, None)
      case Some(h1) => Pop(h1, d, size)
  }

  function Drop(list: seq<nat>, gone: set<nat>): (r: seq<nat>) {
    if list == [] then [] else (if list[0] in gone then [] else [list[0]]) + Drop(list[1..], gone)
  }

  function ReleasePages(h: Heap, p: nat): (r: Heap)
    requires p in h.arenas && p + Len(h.arenas[p]) <= |h.used|
  {
    var cnt := Len(h.arenas[p]);
    h.(used := Fill(h.used, p, cnt, false), arenas := h.arenas - {p}, owner := Assign(h.owner, p, cnt, Nobody))
  }

  /** What free and block_to_arena take for granted about a block. */
  predicate Freeable(h: Heap, a: nat) {
    var p := PageOf(a);
    && p in h.arenas && p + Len(h.arenas[p]) <= |h.used|
    && |h.free| == DESCS && (h.arenas[p].Small? ==> h.arenas[p].desc < DESCS)
  }

  function FreeSmall(h: Heap, a: nat): (r: Heap)
    requires Freeable(h, a) && h.arenas[PageOf(a)].Small?
  {
    var p := PageOf(a);
    var d, cnt := h.arenas[p].desc, h.arenas[p].freeCnt + 1;
    var list := [a] + h.free[d];
    if cnt >= PerArena(d) then
      ReleasePages(h, p).(free := h.free[d := Drop(list, Elements(Blocks(p, d)))], live := h.live - {a})
    else
      h.(arenas := h.arenas[p := Small(d, cnt)], free := h.free[d := list], live := h.live - {a})
  }

  /** free; the caller must pass a block it was given. */
  function DoFree(h: Heap, a: nat): (r: Heap)
    requires Freeable(h, a)
  {
    var p := PageOf(a);
    if h.arenas[p].Small? then FreeSmall(h, a) else ReleasePages(h, p).(live := h.live - {a})
  }

  // ------------------------------------------------------------ invariant

  ghost predicate NoDup(s: seq<nat>) {
    forall i, j :: 0 <= i < j < |s| ==> s[i] != s[j]
  }

  /** a is one of the blocks of a small arena of descriptor d. */
  ghost predicate BlockOf(arenas: map<nat, Header>, d: nat, a: nat)
    requires d < DESCS
  {
    && PageOf(a) in arenas && arenas[PageOf(a)].Small? && arenas[PageOf(a)].desc == d
    && a in Blocks(PageOf(a), d)
  }

  ghost predicate Lists(arenas: map<nat, Header>, free: seq<seq<nat>>) {
    && |free| == DESCS
    && forall d :: 0 <= d < DESCS ==> NoDup(free[d]) && forall a :: a in free[d] ==> BlockOf(arenas, d, a)
  }

  function OnPage(list: seq<nat>, p: nat): (r: set<nat>) {
    set a | a in list && PageOf(a) == p
  }

  ghost predicate CountAt(arenas: map<nat, Header>, free: seq<seq<nat>>, spare: Option<nat>, p: nat)
    requires |free| == DESCS && p in arenas
  {
    match arenas[p]
    case Small(d, cnt) => d < DESCS && cnt == |OnPage(free[d], p)| <= PerArena(d) && (spare == Some(p) || cnt < PerArena(d))
    case Big(_) => true
  }

  /** free_cnt counts the arena's blocks on its free list, and at least one
      block of every arena is in use, except for a spare arena just set up. */
  ghost predicate Counts(arenas: map<nat, Header>, free: seq<seq<nat>>, spare: Option<nat>) {
    && |free| == DESCS
    && forall p :: p in arenas ==> CountAt(arenas, free, spare, p)
  }

  ghost predicate LiveAt(arenas: map<nat, Header>, free: seq<seq<nat>>, a: nat, size: nat)
    requires |free| == DESCS
  {
    var p := PageOf(a);
    && p in arenas
    && match arenas[p]
       case Small(d, _) => d < DESCS && a in Blocks(p, d) && a !in free[d] && size <= BlockSize(d)
       case Big(cnt) => a == p * PGSIZE + HDR && (size + HDR < W32 ==> size + HDR <= cnt * PGSIZE)
  }

  /** A block of an arena is on the free list or in use, never lost. */
  ghost predicate Accounted(arenas: map<nat, Header>, free: seq<seq<nat>>, live: map<nat, nat>, p: nat)
    requires |free| == DESCS && p in arenas
  {
    match arenas[p]
    case Small(d, _) => d < DESCS && forall a :: a in Blocks(p, d) ==> a in free[d] || a in live
    case Big(_) => p * PGSIZE + HDR in live
  }

  ghost predicate Clients(arenas: map<nat, Header>, free: seq<seq<nat>>, live: map<nat, nat>) {
    && |free| == DESCS
    && (forall a :: a in live ==> LiveAt(arenas, free, a, live[a]))
    && (forall p :: p in arenas ==> Accounted(arenas, free, live, p))
  }

  /** The bitmap marks exactly the pages that have an owner, and an arena owns
      exactly its pages: arenas never overlap. */
  ghost predicate Pages(used: seq<bool>, arenas: map<nat, Header>, owner: seq<Owner>) {
    && |owner| == |used|
    && (forall k :: 0 <= k < |used| ==> (used[k] <==> owner[k] != Nobody))
    && (forall k :: 0 <= k < |used| && owner[k].Arena? ==> owner[k].start in arenas && InArena(arenas, owner[k].start, k))
    && (forall p :: p in arenas ==> Len(arenas[p]) > 0 && p + Len(arenas[p]) <= |used|)
    && (forall p, k :: p in arenas && InArena(arenas, p, k) ==> 0 <= k < |used| && owner[k] == Arena(p))
  }

  ghost predicate InArena(arenas: map<nat, Header>, p: nat, k: int)
    requires p in arenas
  {
    p <= k < p + Len(arenas[p])
  }

  ghost predicate HeapInv(h: Heap, spare: Option<nat> := None) {
    && Lists(h.arenas, h.free)
    && Counts(h.arenas, h.free, spare)
    && Clients(h.arenas, h.free, h.live)
    && Pages(h.used, h.arenas, h.owner)
  }
}
