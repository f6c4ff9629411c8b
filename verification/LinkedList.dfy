/** The doubly linked list of lib/kernel/list.c: two sentinels, pointers
    rewritten in place, and the natural merge sort that splices nodes. */
module LinkedList {
  import opened ListSpec

  /** The nodes ns, sentinels included, are chained both ways in this order. */
  ghost predicate Linked<K>(ns: seq<Elem<K>>)
    reads ns
  {
    && |ns| >= 2
    && (forall i, j :: 0 <= i < j < |ns| ==> ns[i] != ns[j])
    && ns[0].prev == null && ns[|ns| - 1].next == null
    && (forall i {:trigger ns[i].next} :: 0 <= i < |ns| - 1 ==> ns[i].next == ns[i + 1])
    && (forall i {:trigger ns[i].prev} :: 1 <= i < |ns| ==> ns[i].prev == ns[i - 1])
  }

  /** list_insert */
  method ListInsert<K>(before: Elem<K>, elem: Elem<K>, ghost ns: seq<Elem<K>>, ghost i: nat)
    requires Linked(ns) && 1 <= i < |ns| && before == ns[i] && elem !in ns
    modifies elem, ns[i - 1], before
    ensures Linked(ns[..i] + [elem] + ns[i..])
  {
    elem.prev := before.prev;
    elem.next := before;
    before.prev.next := elem;
    before.prev := elem;
  }

  /** list_remove */
  method ListRemove<K>(elem: Elem<K>, ghost ns: seq<Elem<K>>, ghost i: nat) returns (next: Elem<K>)
    requires Linked(ns) && 1 <= i < |ns| - 1 && elem == ns[i]
    modifies ns[i - 1], ns[i + 1]
    ensures Linked(ns[..i] + ns[i + 1..])
    ensures next == ns[i + 1]
  {
    elem.prev.next := elem.next;
    elem.next.prev := elem.prev;
    next := elem.next;
  }

  /** The nodes bs are chained both ways, whatever lies beyond their ends. */
  ghost predicate Chain<K>(bs: seq<Elem<K>>)
    reads bs
  {
    && (forall i, j :: 0 <= i < j < |bs| ==> bs[i] != bs[j])
    && (forall i {:trigger bs[i].next} :: 0 <= i < |bs| - 1 ==> bs[i].next == bs[i + 1])
    && (forall i {:trigger bs[i].prev} :: 1 <= i < |bs| ==> bs[i].prev == bs[i - 1])
  }

  ghost predicate Disjoint<T>(a: seq<T>, b: seq<T>) {
    forall i, j :: 0 <= i < |a| && 0 <= j < |b| ==> a[i] != b[j]
  }

  /** The first two assignments of list_splice: cut ns[j..k] out. */
  method CutOut<K>(first: Elem<K>, end: Elem<K>, ghost ns: seq<Elem<K>>, ghost j: nat, ghost k: nat)
    requires Linked(ns) && 1 <= j < k < |ns| && first == ns[j] && end == ns[k - 1]
    modifies ns[j - 1], ns[k]
    ensures Linked(ns[..j] + ns[k..]) && Chain(ns[j..k]) && Disjoint(ns[..j] + ns[k..], ns[j..k])
  {
    first.prev.next := end.next;
    end.next.prev := first.prev;
  }

  /** Its last four: link the block bs in before ns[i]. */
  method LinkIn<K>(before: Elem<K>, first: Elem<K>, end: Elem<K>, ghost ns: seq<Elem<K>>, ghost i: nat, ghost bs: seq<Elem<K>>)
    requires Linked(ns) && 1 <= i < |ns| && before == ns[i]
    requires Chain(bs) && bs != [] && first == bs[0] && end == bs[|bs| - 1] && Disjoint(ns, bs)
    modifies first, end, ns[i - 1], before
    ensures Linked(ns[..i] + bs + ns[i..])
  {
    first.prev := before.prev;
    end.next := before;
    before.prev.next := first;
    before.prev := end;
  }

  /** The nodes after moving ns[j..k] to just before ns[i]. */
  ghost function Spliced<T>(ns: seq<T>, i: nat, j: nat, k: nat): (r: seq<T>)
    requires j <= k <= |ns| && i <= |ns| && (i <= j || k <= i)
  {
    if i <= j then ns[..i] + ns[j..k] + ns[i..j] + ns[k..]
    else ns[..j] + ns[k..i] + ns[j..k] + ns[i..]
  }

  lemma SplicedIsCutAndLink<T>(ns: seq<T>, i: nat, j: nat, k: nat)
    requires 1 <= j < k < |ns| && 1 <= i < |ns| && (i < j || k <= i)
    ensures
      var rest := ns[..j] + ns[k..];
      var at := if i < j then i else i - (k - j);
      && 1 <= at < |rest| && rest[at] == ns[i] && rest[at - 1] in ns
      && rest[..at] + ns[j..k] + rest[at..] == Spliced(ns, i, j, k)
      && ns[j..k][0] == ns[j] && ns[j..k][k - j - 1] == ns[k - 1]
  {
    if i < j {
      SplicedForward(ns, i, j, k);
    } else {
      SplicedBack(ns, i, j, k);
    }
  }

  lemma SplicedForward<T>(ns: seq<T>, i: nat, j: nat, k: nat)
    requires i < j < k < |ns|
    ensures
      var rest := ns[..j] + ns[k..];
      rest[..i] + ns[j..k] + rest[i..] == Spliced(ns, i, j, k)
  {
    var a, b, c, d := ns[..i], ns[i..j], ns[j..k], ns[k..];
    assert ns[..j] == a + b;
    Assoc(a, b, d);
    Halves(a, b + d, ns[..j] + d);
    Assoc(a + c, b, d);
  }

  lemma SplicedBack<T>(ns: seq<T>, i: nat, j: nat, k: nat)
    requires j < k <= i < |ns|
    ensures
      var rest := ns[..j] + ns[k..];
      var at := i - (k - j);
      rest[..at] + ns[j..k] + rest[at..] == Spliced(ns, i, j, k)
  {
    var a, b, d := ns[..j], ns[k..i], ns[i..];
    assert ns[k..] == b + d;
    Assoc(a, b, d);
    Halves(a + b, d, a + ns[k..]);
  }

  lemma Halves<T>(a: seq<T>, b: seq<T>, s: seq<T>)
    requires s == a + b
    ensures s[..|a|] == a && s[|a|..] == b
  {
  }

  lemma SplicedNothing<T>(ns: seq<T>, i: nat, j: nat)
    requires i <= j <= |ns|
    ensures Spliced(ns, i, j, j) == ns
  {
  }

  /** list_splice within one list; before must not be one of the moved nodes. */
  method ListSplice<K>(before: Elem<K>, first: Elem<K>, last: Elem<K>,
                       ghost ns: seq<Elem<K>>, ghost i: nat, ghost j: nat, ghost k: nat)
    requires Linked(ns)
    requires 1 <= i < |ns| && 1 <= j <= k < |ns| && (j == k ==> i <= j) && (j < k ==> i < j || k <= i)
    requires before == ns[i] && first == ns[j] && last == ns[k]
    modifies ns
    ensures Linked(Spliced(ns, i, j, k))
  {
    hide Linked, Chain, Disjoint, Spliced;
    LinkedAt(ns, j, k, k);
    if first == last {
      SplicedNothing(ns, i, j);
      return;
    }
    LinkedPrev(ns, k);
    var end := last.prev;
    SplicedIsCutAndLink(ns, i, j, k);
    CutOut(first, end, ns, j, k);
    LinkIn(before, first, end, ns[..j] + ns[k..], if i < j then i else i - (k - j), ns[j..k]);
  }

  // ------------------------------------------------------------- sorting

  /** find_end_of_run: the end of the run that starts at a, at most b. */
  method FindEndOfRun<K>(a0: Elem<K>, b: Elem<K>, less: Less<K>, ghost ns: seq<Elem<K>>, ghost lo: nat, ghost hi: nat)
    returns (a: Elem<K>, ghost end: nat)
    requires Linked(ns) && 1 <= lo < hi < |ns| && a0 == ns[lo] && b == ns[hi]
    ensures end == lo + RunLen(less, ns[lo..hi]) && end <= hi && a == ns[end]
  {
    a := a0.next;
    end := lo + 1;
    while a != b && !less(a.data, a.prev.data)
      invariant lo < end <= hi && a == ns[end]
      invariant RunLen(less, ns[lo..hi]) == (end - 1 - lo) + RunLen(less, ns[end - 1..hi])
      decreases hi - end
    {
      assert ns[end - 1..hi][1..] == ns[end..hi];
      a := a.next;
      end := end + 1;
    }
  }

  /** Midway through inplace_merge: cur[lo..i] is merged, cur[i..m] and
      cur[m..hi] remain of the two runs, and the rest of the list is as it was. */
  ghost predicate Merging<K>(less: Less<K>, ns: seq<Elem<K>>, lo: nat, mid: nat, hi: nat,
                             cur: seq<Elem<K>>, i: nat, m: nat)
    requires lo <= mid <= hi <= |ns| && lo <= i <= m <= hi && |cur| == |ns|
  {
    && cur[..lo] == ns[..lo] && cur[hi..] == ns[hi..]
    && (forall k :: 0 <= k < |cur| ==> cur[k] in ns)
    && cur[lo..i] + Merge(less, cur[i..m], cur[m..hi]) == Merge(less, ns[lo..mid], ns[mid..hi])
  }

  lemma MergeTakesFirst<K>(less: Less<K>, ns: seq<Elem<K>>, lo: nat, mid: nat, hi: nat,
                           cur: seq<Elem<K>>, i: nat, m: nat)
    requires lo <= mid <= hi <= |ns| && lo <= i < m < hi && |cur| == |ns| && Merging(less, ns, lo, mid, hi, cur, i, m)
    requires !less(cur[m].data, cur[i].data)
    ensures Merging(less, ns, lo, mid, hi, cur, i + 1, m)
  {
    MergeStep(less, cur[i..m], cur[m..hi]);
    hide Merge;
    assert cur[i..m][1..] == cur[i + 1..m];
    Snoc(cur, lo, i, Merge(less, cur[i + 1..m], cur[m..hi]));
  }

  lemma Snoc<T>(s: seq<T>, lo: nat, i: nat, rest: seq<T>)
    requires lo <= i < |s|
    ensures s[lo..i] + ([s[i]] + rest) == s[lo..i + 1] + rest
  {
  }

  /** Splicing the head of the second run before the first run is one step of
      the merge. */
  lemma MergeTakesSecond<K>(less: Less<K>, ns: seq<Elem<K>>, lo: nat, mid: nat, hi: nat,
                            cur: seq<Elem<K>>, i: nat, m: nat)
    requires lo <= mid <= hi <= |ns| && lo <= i < m < hi && |cur| == |ns| && Merging(less, ns, lo, mid, hi, cur, i, m)
    requires less(cur[m].data, cur[i].data)
    ensures
      var next := Spliced(cur, i, m, m + 1);
      && |next| == |cur| && next[i + 1] == cur[i] && (m + 1 < |cur| ==> next[m + 1] == cur[m + 1])
      && Merging(less, ns, lo, mid, hi, next, i + 1, m + 1)
  {
    var next := Spliced(cur, i, m, m + 1);
    SpliceSlices(cur, lo, i, m, hi);
    MergeStep(less, cur[i..m], cur[m..hi]);
    hide Spliced, Merge;
    assert cur[m..hi][1..] == cur[m + 1..hi];
    Assoc(cur[lo..i], [cur[m]], Merge(less, cur[i..m], cur[m + 1..hi]));
  }

  lemma SpliceSlices<T>(cur: seq<T>, lo: nat, i: nat, m: nat, hi: nat)
    requires lo <= i < m < hi <= |cur|
    ensures
      var next := Spliced(cur, i, m, m + 1);
      && |next| == |cur| && next[..lo] == cur[..lo] && next[hi..] == cur[hi..]
      && next[lo..i + 1] == cur[lo..i] + [cur[m]]
      && next[i + 1..m + 1] == cur[i..m] && next[m + 1..hi] == cur[m + 1..hi]
      && next[i + 1] == cur[i] && (m + 1 < |cur| ==> next[m + 1] == cur[m + 1])
      && forall k :: 0 <= k < |next| ==> next[k] in cur
  {
    var next := Spliced(cur, i, m, m + 1);
    SpliceBlocks(cur, i, m);
    hide Spliced;
    assert next[..lo] == next[..i][..lo] && cur[..lo] == cur[..i][..lo];
    assert next[lo..i + 1] == next[..i][lo..] + [next[i]] && cur[lo..i] == cur[..i][lo..];
    assert next[m + 1..hi] == next[m + 1..][..hi - m - 1] && cur[m + 1..hi] == cur[m + 1..][..hi - m - 1];
    assert next[hi..] == next[m + 1..][hi - m - 1..] && cur[hi..] == cur[m + 1..][hi - m - 1..];
  }

  lemma SpliceBlocks<T>(cur: seq<T>, i: nat, m: nat)
    requires i < m < |cur|
    ensures
      var next := Spliced(cur, i, m, m + 1);
      && |next| == |cur| && next[..i] == cur[..i] && next[i] == cur[m]
      && next[i + 1..m + 1] == cur[i..m] && next[m + 1..] == cur[m + 1..]
      && next[i + 1] == cur[i] && (m + 1 < |cur| ==> next[m + 1] == cur[m + 1])
      && forall k :: 0 <= k < |next| ==> next[k] in cur
  {
    var next := Spliced(cur, i, m, m + 1);
    var front := cur[..i] + [cur[m]];
    assert next == front + cur[i..m] + cur[m + 1..];
    assert next[i] == front[i] == cur[m];
  }

  lemma MergeDone<K>(less: Less<K>, ns: seq<Elem<K>>, lo: nat, mid: nat, hi: nat,
                     cur: seq<Elem<K>>, i: nat, m: nat)
    requires lo <= mid <= hi <= |ns| && lo <= i <= m <= hi && |cur| == |ns| && Merging(less, ns, lo, mid, hi, cur, i, m)
    requires i == m || m == hi
    ensures cur == Merged(less, ns, lo, mid, hi)
  {
    assert cur[lo..i] + Merge(less, cur[i..m], cur[m..hi]) == cur[lo..hi];
    assert cur == cur[..lo] + cur[lo..hi] + cur[hi..];
  }

  /** The nodes after merging the runs ns[lo..mid] and ns[mid..hi]. */
  ghost function Merged<K>(less: Less<K>, ns: seq<Elem<K>>, lo: nat, mid: nat, hi: nat): (rs: seq<Elem<K>>)
    requires lo <= mid <= hi <= |ns|
  {
    ns[..lo] + Merge(less, ns[lo..mid], ns[mid..hi]) + ns[hi..]
  }

  /** inplace_merge */
  method InplaceMerge<K>(a0_: Elem<K>, a1b0_: Elem<K>, b1: Elem<K>, less: Less<K>,
                         ghost ns: seq<Elem<K>>, ghost lo: nat, ghost mid: nat, ghost hi: nat)
    requires Linked(ns) && 1 <= lo < mid < hi < |ns|
    requires a0_ == ns[lo] && a1b0_ == ns[mid] && b1 == ns[hi]
    modifies ns
    ensures Linked(Merged(less, ns, lo, mid, hi))
  {
    hide Linked, Merge, Merging, Spliced;
    var a0, a1b0 := a0_, a1b0_;
    ghost var cur, i, m := ns, lo, mid;
    MergeStart(less, ns, lo, mid, hi);
    while a0 != a1b0 && a1b0 != b1
      invariant lo <= i <= m <= hi && |cur| == |ns| && cur[hi] == b1
      invariant Linked(cur) && Merging(less, ns, lo, mid, hi, cur, i, m)
      invariant a0 == cur[i] && a1b0 == cur[m]
      decreases hi - i + (hi - m)
    {
      LinkedAt(cur, i, m, hi);
      if !less(a1b0.data, a0.data) {
        MergeTakesFirst(less, ns, lo, mid, hi, cur, i, m);
        a0 := a0.next;
        i := i + 1;
      } else {
        a1b0 := a1b0.next;
        LinkedPrev(cur, m + 1);
        SameNodes(less, ns, lo, mid, hi, cur, i, m);
        MergeTakesSecond(less, ns, lo, mid, hi, cur, i, m);
        ListSplice(a0, a1b0.prev, a1b0, cur, i, m, m + 1);
        cur, i, m := Spliced(cur, i, m, m + 1), i + 1, m + 1;
        MergingEnd(less, ns, lo, mid, hi, cur, i, m);
      }
    }
    LinkedAt(cur, i, m, hi);
    MergeDone(less, ns, lo, mid, hi, cur, i, m);
  }

  lemma MergeStart<K>(less: Less<K>, ns: seq<Elem<K>>, lo: nat, mid: nat, hi: nat)
    requires lo <= mid <= hi <= |ns|
    ensures Merging(less, ns, lo, mid, hi, ns, lo, mid)
  {
    assert ns[lo..lo] == [];
  }

  lemma SameNodes<K>(less: Less<K>, ns: seq<Elem<K>>, lo: nat, mid: nat, hi: nat,
                     cur: seq<Elem<K>>, i: nat, m: nat)
    requires lo <= mid <= hi <= |ns| && lo <= i <= m <= hi && |cur| == |ns| && Merging(less, ns, lo, mid, hi, cur, i, m)
    ensures forall k :: 0 <= k < |cur| ==> cur[k] in ns
  {
  }

  lemma MergingEnd<K>(less: Less<K>, ns: seq<Elem<K>>, lo: nat, mid: nat, hi: nat,
                      cur: seq<Elem<K>>, i: nat, m: nat)
    requires lo <= mid <= hi < |ns| && lo <= i <= m <= hi && |cur| == |ns| && Merging(less, ns, lo, mid, hi, cur, i, m)
    ensures cur[hi] == ns[hi]
  {
    assert cur[hi] == cur[hi..][0];
  }

  /** Nodes of a chain are equal exactly when their positions are, and next
      leads to the next position. */
  lemma LinkedAt<K>(ns: seq<Elem<K>>, i: nat, m: nat, hi: nat)
    requires Linked(ns) && i <= m <= hi < |ns|
    ensures ns[i] == ns[m] <==> i == m
    ensures ns[m] == ns[hi] <==> m == hi
    ensures i < |ns| - 1 ==> ns[i].next == ns[i + 1]
    ensures m < |ns| - 1 ==> ns[m].next == ns[m + 1]
  {
  }

  lemma LinkedPrev<K>(ns: seq<Elem<K>>, i: nat)
    requires Linked(ns) && 1 <= i < |ns|
    ensures ns[i].prev == ns[i - 1]
  {
  }

  // -------------------------------------------------------- struct list

  class List<K> {
    const head: Elem<K>
    const tail: Elem<K>
    /** The interior elements, front to back. */
    ghost var elems: seq<Elem<K>>

    ghost function Nodes(): (ns: seq<Elem<K>>)
      reads this
    {
      [head] + elems + [tail]
    }

    ghost predicate Valid()
      reads this, Nodes()
    {
      Linked(Nodes())
    }

    /** list_init */
    constructor (none: K)
      ensures Valid() && elems == [] && fresh(head) && fresh(tail)
    {
      head := new Elem<K>(none);
      tail := new Elem<K>(none);
      elems := [];
      new;
      head.next := tail;
      tail.prev := head;
    }

    /** list_empty */
    method IsEmpty() returns (b: bool)
      requires Valid()
      ensures b <==> elems == []
    {
      b := head.next == tail;
      assert Nodes()[1] == if elems == [] then tail else elems[0];
    }

    /** list_push_back */
    method PushBack(elem: Elem<K>)
      requires Valid() && elem !in Nodes()
      modifies this`elems, Nodes(), elem
      ensures Valid() && elems == old(elems) + [elem]
    {
      ghost var ns, n := Nodes(), |elems| + 1;
      assert ns[n] == tail;
      ListInsert(tail, elem, ns, n);
      elems := elems + [elem];
      assert ns[..n] + [elem] + ns[n..] == Nodes();
    }

    /** list_push_front */
    method PushFront(elem: Elem<K>)
      requires Valid() && elem !in Nodes()
      modifies this`elems, Nodes(), elem
      ensures Valid() && elems == [elem] + old(elems)
    {
      ghost var ns := Nodes();
      assert ns[0].next == ns[1];
      ListInsert(head.next, elem, ns, 1);
      elems := [elem] + elems;
      assert ns[..1] + [elem] + ns[1..] == Nodes();
    }

    /** list_remove */
    method Remove(elem: Elem<K>, ghost i: nat) returns (next: Elem<K>)
      requires Valid() && i < |elems| && elem == elems[i]
      modifies this`elems, Nodes()
      ensures Valid() && elems == old(elems)[..i] + old(elems)[i + 1..]
      ensures next == (old(elems) + [tail])[i + 1]
    {
      ghost var ns := Nodes();
      assert ns[i + 1] == elem && ns[i + 2] == (elems + [tail])[i + 1];
      next := ListRemove(elem, ns, i + 1);
      elems := elems[..i] + elems[i + 1..];
      assert ns[..i + 1] + ns[i + 2..] == Nodes();
    }

    /** list_pop_front */
    method PopFront() returns (front: Elem<K>)
      requires Valid() && elems != []
      modifies this`elems, Nodes()
      ensures Valid() && front == old(elems)[0] && elems == old(elems)[1..]
    {
      assert Nodes()[0].next == Nodes()[1] == elems[0];
      front := head.next;
      var _ := Remove(front, 0);
    }

    /** The search of list_insert_ordered. */
    method FindGreater(elem: Elem<K>, less: Less<K>) returns (e: Elem<K>, ghost i: nat)
      requires Valid()
      ensures i <= |elems| && e == Nodes()[i + 1]
      ensures forall k :: 0 <= k < i ==> !less(elem.data, elems[k].data)
      ensures i < |elems| ==> less(elem.data, elems[i].data)
    {
      ghost var ns := Nodes();
      hide Linked;
      LinkedAt(ns, 0, 0, 0);
      NodeAt(head, elems, tail, 0);
      e := head.next;
      i := 0;
      while e != tail && !less(elem.data, e.data)
        invariant 0 <= i <= |elems| && e == ns[i + 1]
        invariant forall k :: 0 <= k < i ==> !less(elem.data, elems[k].data)
        decreases |elems| - i
      {
        NodeAt(head, elems, tail, i);
        LinkedAt(ns, i + 1, i + 1, |elems| + 1);
        e := e.next;
        i := i + 1;
      }
      NodeAt(head, elems, tail, i);
      LinkedAt(ns, i + 1, i + 1, |elems| + 1);
    }

    /** list_insert_ordered */
    method InsertOrdered(elem: Elem<K>, less: Less<K>)
      requires Valid() && elem !in Nodes()
      modifies this`elems, Nodes(), elem
      ensures Valid() && elems == ListSpec.InsertOrdered(less, old(elems), elem)
    {
      hide Linked, ListSpec.InsertOrdered;
      ghost var ns := Nodes();
      var e, i := FindGreater(elem, less);
      ListInsert(e, elem, ns, i + 1);
      InsertAt(less, elems, i, elem);
      InsertNodes(head, elems, tail, i, elem);
      elems := elems[..i] + [elem] + elems[i..];
    }

    /** One pass of list_sort over the list. */
    method SortPass(less: Less<K>) returns (outputRuns: nat)
      requires Valid()
      modifies this`elems, Nodes()
      ensures Valid() && outputRuns == PassCount(less, old(elems)) && elems == Pass(less, old(elems))
      ensures forall k :: 0 <= k < |Nodes()| ==> Nodes()[k] in old(Nodes())
    {
      hide Linked, Passing, Pass, PassCount;
      ghost var all, n := elems, |elems| + 1;
      ghost var ns, a := Nodes(), 1;
      NodeAt(head, elems, tail, 0);
      LinkedAt(ns, 0, 0, 0);
      PassStart(less, ns, all, n);
      var a0 := head.next;
      outputRuns := 0;
      while a0 != tail
        invariant |ns| == n + 1 && 1 <= a <= n && ns[0] == head && ns[n] == tail && a0 == ns[a]
        invariant Linked(ns) && Passing(less, old(Nodes()), all, ns, a, n, outputRuns)
        decreases n - a
      {
        LinkedAt(ns, a, n, n);
        PassNodes(less, old(Nodes()), all, ns, a, n, outputRuns);
        var b1, next, hi := MergePair(a0, tail, less, ns, a, n);
        PassAdvances(less, old(Nodes()), all, ns, a, n, outputRuns);
        outputRuns := outputRuns + 1;
        ns, a, a0 := next, hi, b1;
      }
      LinkedAt(ns, a, n, n);
      elems := ns[1..n];
      PassEnd(less, old(Nodes()), all, ns, n, outputRuns);
      Ends(ns);
    }
  }

  /** Where the next two runs from a end: the second, or the only one. */
  ghost function PairEnd<K>(less: Less<K>, ns: seq<Elem<K>>, a: nat, n: nat): (hi: nat)
    requires a < n <= |ns|
    ensures a < hi <= n
  {
    var mid := a + RunLen(less, ns[a..n]);
    if mid == n then n else mid + RunLen(less, ns[mid..n])
  }

  /** The nodes after the next two runs from a have been merged. */
  ghost function PairMerged<K>(less: Less<K>, ns: seq<Elem<K>>, a: nat, n: nat): (rs: seq<Elem<K>>)
    requires a < n <= |ns|
  {
    var mid := a + RunLen(less, ns[a..n]);
    if mid == n then ns else Merged(less, ns, a, mid, PairEnd(less, ns, a, n))
  }

  /** One iteration of a pass: find two adjacent runs and merge them.  When
      there is only one run left, the returned node is the tail, which ends the
      pass. */
  method MergePair<K>(a0: Elem<K>, tail: Elem<K>, less: Less<K>, ghost ns: seq<Elem<K>>, ghost a: nat, ghost n: nat)
    returns (b1: Elem<K>, ghost next: seq<Elem<K>>, ghost hi: nat)
    requires Linked(ns) && 1 <= a < n && |ns| == n + 1 && a0 == ns[a] && tail == ns[n]
    modifies ns
    ensures hi == PairEnd(less, ns, a, n) && next == PairMerged(less, ns, a, n)
    ensures Linked(next) && b1 == ns[hi]
  {
    hide Linked, Merged, RunLen;
    hi, next := PairEnd(less, ns, a, n), PairMerged(less, ns, a, n);
    RunPositive(less, ns, a, n);
    var a1b0, mid := FindEndOfRun(a0, tail, less, ns, a, n);
    LinkedAt(ns, mid, n, n);
    if a1b0 == tail {
      b1 := tail;
      return;
    }
    RunPositive(less, ns, mid, n);
    ghost var end;
    b1, end := FindEndOfRun(a1b0, tail, less, ns, mid, n);
    InplaceMerge(a0, a1b0, b1, less, ns, a, mid, hi);
  }

  lemma PassAdvances<K>(less: Less<K>, nodes: seq<Elem<K>>, all: seq<Elem<K>>, ns: seq<Elem<K>>, a: nat, n: nat, cnt: nat)
    requires 1 <= a < n && |ns| == n + 1 && Passing(less, nodes, all, ns, a, n, cnt)
    ensures
      var next, hi := PairMerged(less, ns, a, n), PairEnd(less, ns, a, n);
      && |next| == |ns| && next[0] == ns[0] && next[n] == ns[n] && next[hi] == ns[hi]
      && Passing(less, nodes, all, next, hi, n, cnt + 1)
  {
    hide Passing, RunLen, Merged;
    var mid := a + RunLen(less, ns[a..n]);
    RunPositive(less, ns, a, n);
    if mid == n {
      PassLast(less, nodes, all, ns, a, n, cnt);
    } else {
      RunPositive(less, ns, mid, n);
      PassMerges(less, nodes, all, ns, a, mid, PairEnd(less, ns, a, n), n, cnt);
    }
  }

  /** list_min: the first least element, or the tail of an empty list. */
  method ListMin<K(!new)>(list: List<K>, less: Less<K>) returns (min: Elem<K>, ghost k: nat)
    requires list.Valid() && StrictWeak(less)
    ensures list.elems == [] ==> min == list.tail
    ensures list.elems != [] ==> k < |list.elems| && min == list.elems[k] && FirstLeast(less, list.elems, k, |list.elems|)
  {
    hide StrictWeak, Linked, FirstLeast;
    ghost var elems, ns := list.elems, list.Nodes();
    LinkedAt(ns, 0, 0, 0);
    NodeAt(list.head, elems, list.tail, 0);
    LinkedAt(ns, 1, 1, |elems| + 1);
    min := list.head.next;
    k := 0;
    if min != list.tail {
      var e := min.next;
      ghost var i := 1;
      LeastStart(less, elems);
      while e != list.tail
        invariant 1 <= i <= |elems| && e == ns[i + 1] && k < i && min == elems[k]
        invariant FirstLeast(less, elems, k, i)
        decreases |elems| - i
      {
        NodeAt(list.head, elems, list.tail, i);
        LinkedAt(ns, i + 1, i + 1, |elems| + 1);
        LeastStep(less, elems, k, i);
        if less(e.data, min.data) {
          min := e;
          k := i;
        }
        e := e.next;
        i := i + 1;
      }
      LinkedAt(ns, i + 1, i + 1, |elems| + 1);
    }
  }

  /** s[k] is least among the first n, and strictly less than those before it. */
  ghost predicate FirstLeast<K>(less: Less<K>, s: seq<Elem<K>>, k: nat, n: nat)
    requires k < n <= |s|
  {
    && (forall i :: 0 <= i < n ==> !less(s[i].data, s[k].data))
    && (forall i :: 0 <= i < k ==> less(s[k].data, s[i].data))
  }

  lemma LeastStart<K(!new)>(less: Less<K>, s: seq<Elem<K>>)
    requires StrictWeak(less) && s != []
    ensures FirstLeast(less, s, 0, 1)
  {
  }

  lemma LeastStep<K(!new)>(less: Less<K>, s: seq<Elem<K>>, k: nat, i: nat)
    requires StrictWeak(less) && k < i < |s| && FirstLeast(less, s, k, i)
    ensures FirstLeast(less, s, if less(s[i].data, s[k].data) then i else k, i + 1)
  {
    if less(s[i].data, s[k].data) {
      forall j | 0 <= j < i ensures less(s[i].data, s[j].data) && !less(s[j].data, s[i].data) {
        assert !less(s[j].data, s[k].data);
      }
    }
  }

  // ---------------------------------------------------- positions of nodes

  lemma NodeAt<T>(head: T, elems: seq<T>, tail: T, i: nat)
    requires i <= |elems|
    ensures ([head] + elems + [tail])[i + 1] == if i < |elems| then elems[i] else tail
    ensures ([head] + elems + [tail])[0] == head && ([head] + elems + [tail])[|elems| + 1] == tail
  {
  }

  lemma Ends<T>(ns: seq<T>)
    requires |ns| >= 2
    ensures [ns[0]] + ns[1..|ns| - 1] + [ns[|ns| - 1]] == ns
  {
  }

  lemma InsertNodes<T>(head: T, elems: seq<T>, tail: T, i: nat, x: T)
    requires i <= |elems|
    ensures
      var ns := [head] + elems + [tail];
      ns[..i + 1] + [x] + ns[i + 1..] == [head] + (elems[..i] + [x] + elems[i..]) + [tail]
  {
    var ns := [head] + elems + [tail];
    assert ns[..i + 1] == [head] + elems[..i];
    assert ns[i + 1..] == elems[i..] + [tail];
  }

  lemma {:induction false} InsertAt<K>(less: Less<K>, s: seq<Elem<K>>, i: nat, x: Elem<K>)
    requires i <= |s| && (i < |s| ==> less(x.data, s[i].data))
    requires forall k :: 0 <= k < i ==> !less(x.data, s[k].data)
    ensures ListSpec.InsertOrdered(less, s, x) == s[..i] + [x] + s[i..]
    decreases i
  {
    if i > 0 {
      InsertAt(less, s[1..], i - 1, x);
      assert s[..i] == [s[0]] + s[1..][..i - 1] && s[i..] == s[1..][i - 1..];
    } else {
      assert s[..0] == [] && s[0..] == s;
    }
  }

  // ---------------------------------------------------------- one sort pass

  /** Midway through a pass over all: ns[1..a] is put out in cnt runs. */
  ghost predicate Passing<K>(less: Less<K>, nodes: seq<Elem<K>>, all: seq<Elem<K>>, ns: seq<Elem<K>>, a: nat, n: nat, cnt: nat)
    requires 1 <= a <= n < |ns|
  {
    && (forall k :: 0 <= k < |ns| ==> ns[k] in nodes)
    && ns[1..a] + Pass(less, ns[a..n]) == Pass(less, all)
    && cnt + PassCount(less, ns[a..n]) == PassCount(less, all)
  }

  lemma PassStart<K>(less: Less<K>, ns: seq<Elem<K>>, all: seq<Elem<K>>, n: nat)
    requires 1 <= n < |ns| && ns[1..n] == all
    ensures Passing(less, ns, all, ns, 1, n, 0)
  {
    assert ns[1..1] == [];
  }

  lemma PassNodes<K>(less: Less<K>, nodes: seq<Elem<K>>, all: seq<Elem<K>>, ns: seq<Elem<K>>, a: nat, n: nat, cnt: nat)
    requires 1 <= a <= n < |ns| && Passing(less, nodes, all, ns, a, n, cnt)
    ensures forall k :: 0 <= k < |ns| ==> ns[k] in nodes
  {
  }

  lemma RunPositive<K>(less: Less<K>, ns: seq<Elem<K>>, a: nat, n: nat)
    requires a < n <= |ns|
    ensures 1 <= RunLen(less, ns[a..n]) <= n - a
  {
  }

  lemma PassLast<K>(less: Less<K>, nodes: seq<Elem<K>>, all: seq<Elem<K>>, ns: seq<Elem<K>>, a: nat, n: nat, cnt: nat)
    requires 1 <= a < n < |ns| && Passing(less, nodes, all, ns, a, n, cnt)
    requires RunLen(less, ns[a..n]) == n - a
    ensures Passing(less, nodes, all, ns, n, n, cnt + 1)
  {
    assert ns[n..n] == [] && ns[1..a] + ns[a..n] == ns[1..n];
  }

  lemma PassEnd<K>(less: Less<K>, nodes: seq<Elem<K>>, all: seq<Elem<K>>, ns: seq<Elem<K>>, n: nat, cnt: nat)
    requires 1 <= n < |ns| && Passing(less, nodes, all, ns, n, n, cnt)
    ensures ns[1..n] == Pass(less, all) && cnt == PassCount(less, all)
    ensures forall k :: 0 <= k < |ns| ==> ns[k] in nodes
  {
    assert ns[n..n] == [];
  }

  /** Merging the two runs at a is one iteration of the pass. */
  lemma PassMerges<K>(less: Less<K>, nodes: seq<Elem<K>>, all: seq<Elem<K>>, ns: seq<Elem<K>>,
                      a: nat, mid: nat, hi: nat, n: nat, cnt: nat)
    requires 1 <= a < mid < hi <= n < |ns| && Passing(less, nodes, all, ns, a, n, cnt)
    requires mid == a + RunLen(less, ns[a..n]) && hi == mid + RunLen(less, ns[mid..n])
    ensures
      var next := Merged(less, ns, a, mid, hi);
      && |next| == |ns| && next[0] == ns[0] && next[n] == ns[n] && next[hi] == ns[hi]
      && Passing(less, nodes, all, next, hi, n, cnt + 1)
  {
    var next := Merged(less, ns, a, mid, hi);
    var merged := Merge(less, ns[a..mid], ns[mid..hi]);
    PassUnfolds(less, ns, a, mid, hi, n);
    MergeSize(less, ns[a..mid], ns[mid..hi]);
    MergedSlices(ns, merged, a, hi, n);
    forall k | 0 <= k < |next| ensures next[k] in nodes { MergedIn(less, ns, a, mid, hi, k); }
    hide Merge, Pass, PassCount, RunLen;
    Assoc(ns[1..a], merged, Pass(less, ns[hi..n]));
  }

  lemma PassUnfolds<K>(less: Less<K>, ns: seq<Elem<K>>, a: nat, mid: nat, hi: nat, n: nat)
    requires 1 <= a < mid < hi <= n < |ns|
    requires mid == a + RunLen(less, ns[a..n]) && hi == mid + RunLen(less, ns[mid..n])
    ensures Pass(less, ns[a..n]) == Merge(less, ns[a..mid], ns[mid..hi]) + Pass(less, ns[hi..n])
    ensures PassCount(less, ns[a..n]) == 1 + PassCount(less, ns[hi..n])
  {
    hide RunLen, Merge;
    SubSlices(ns, a, mid, hi, n);
  }

  lemma SubSlices<T>(ns: seq<T>, a: nat, mid: nat, hi: nat, n: nat)
    requires a <= mid <= hi <= n <= |ns|
    ensures ns[a..n][mid - a..] == ns[mid..n] && ns[a..n][..mid - a] == ns[a..mid]
    ensures ns[a..n][mid - a..hi - a] == ns[mid..hi] && ns[a..n][hi - a..] == ns[hi..n]
  {
    var s := ns[a..n];
    assert s[mid - a..hi - a] == s[mid - a..][..hi - mid];
    assert ns[mid..hi] == ns[mid..n][..hi - mid];
  }

  lemma MergeSize<K>(less: Less<K>, a: seq<Elem<K>>, b: seq<Elem<K>>)
    ensures |Merge(less, a, b)| == |a| + |b|
  {
    MergeMultiset(less, a, b);
    assert |multiset(Merge(less, a, b))| == |Merge(less, a, b)|;
  }

  lemma MergedSlices<T>(ns: seq<T>, mid: seq<T>, a: nat, hi: nat, n: nat)
    requires 1 <= a <= hi <= n < |ns| && |mid| == hi - a
    ensures
      var next := ns[..a] + mid + ns[hi..];
      && |next| == |ns| && next[0] == ns[0] && next[n] == ns[n] && next[hi] == ns[hi]
      && next[1..hi] == ns[1..a] + mid && next[hi..n] == ns[hi..n]
  {
  }

  lemma MergedIn<K>(less: Less<K>, ns: seq<Elem<K>>, a: nat, mid: nat, hi: nat, k: nat)
    requires a <= mid <= hi <= |ns| && k < |Merged(less, ns, a, mid, hi)|
    ensures Merged(less, ns, a, mid, hi)[k] in ns
  {
    var merged := Merge(less, ns[a..mid], ns[mid..hi]);
    var x := Merged(less, ns, a, mid, hi)[k];
    MergeMultiset(less, ns[a..mid], ns[mid..hi]);
    if x in merged {
      assert multiset(merged)[x] > 0;
      assert x in ns[a..mid] || x in ns[mid..hi];
    }
  }

  /** list_sort */
  method ListSort<K(!new)>(list: List<K>, less: Less<K>)
    requires list.Valid() && StrictWeak(less)
    modifies list`elems, list.Nodes()
    ensures list.Valid() && list.elems == Sort(less, old(list.elems))
    ensures Sorted(less, list.elems) && multiset(list.elems) == multiset(old(list.elems))
    ensures Stable(less, old(list.elems), list.elems)
  {
    ghost var all := list.elems;
    hide Linked, Sort, Pass, PassCount, Runs, StrictWeak, Sorted, Stable;
    SortCorrect(less, all);
    SortUnfolds(less, all);
    var outputRuns := list.SortPass(less);
    ghost var before := all;
    while outputRuns > 1
      invariant list.Valid() && (forall k :: 0 <= k < |list.Nodes()| ==> list.Nodes()[k] in old(list.Nodes()))
      invariant list.elems == Pass(less, before) && outputRuns == PassCount(less, before)
      invariant Sort(less, all) == if outputRuns > 1 then Sort(less, list.elems) else list.elems
      decreases Runs(less, before)
    {
      PassHalves(less, before);
      before := list.elems;
      SortUnfolds(less, before);
      outputRuns := list.SortPass(less);
    }
  }

  lemma SortUnfolds<K(!new)>(less: Less<K>, s: seq<Elem<K>>)
    requires StrictWeak(less)
    ensures Sort(less, s) == if PassCount(less, s) > 1 then Sort(less, Pass(less, s)) else Pass(less, s)
  {
  }

  // ---------------------------------------------------------------- reverse

  function Rev<T>(s: seq<T>): (r: seq<T>)
    ensures |r| == |s| && forall i :: 0 <= i < |s| ==> r[i] == s[|s| - 1 - i]
  {
    seq(|s|, i requires 0 <= i < |s| => s[|s| - 1 - i])
  }

  /** The interior links ns[1..i] have had prev and next exchanged; the others,
      and the sentinels', are still those of the chain ns. */
  ghost predicate Flipped<K>(ns: seq<Elem<K>>, i: nat)
    requires 1 <= i < |ns|
    reads ns
  {
    && (forall k {:trigger ns[k].next} :: 0 <= k < |ns| - 1 ==> ns[k].next == if 1 <= k < i then ns[k - 1] else ns[k + 1])
    && (forall k {:trigger ns[k].prev} :: 1 <= k < |ns| ==> ns[k].prev == if k < i then ns[k + 1] else ns[k - 1])
    && ns[0].prev == null && ns[|ns| - 1].next == null
    && (forall k, m :: 0 <= k < m < |ns| ==> ns[k] != ns[m])
  }

  /** One exchange of prev and next in the loop of list_reverse. */
  method FlipLinks<K>(e: Elem<K>, ghost ns: seq<Elem<K>>, ghost i: nat) returns (next: Elem<K>)
    requires 1 <= i < |ns| - 1 && Flipped(ns, i) && e == ns[i]
    modifies e
    ensures Flipped(ns, i + 1) && next == ns[i + 1]
  {
    assert e.next == ns[i + 1] && e.prev == ns[i - 1];
    next := e.next;
    e.prev, e.next := e.next, e.prev;
  }

  lemma NoneFlipped<K>(ns: seq<Elem<K>>)
    requires |ns| >= 3 && Linked(ns)
    ensures Flipped(ns, 1) && ns[0].next == ns[1]
  {
  }

  /** The loop of list_reverse, from the front element to the tail. */
  method FlipAll<K>(front: Elem<K>, tail: Elem<K>, ghost ns: seq<Elem<K>>)
    requires |ns| >= 3 && Flipped(ns, 1) && front == ns[1] && tail == ns[|ns| - 1]
    modifies ns
    ensures Flipped(ns, |ns| - 1)
  {
    var e := front;
    ghost var i := 1;
    while e != tail
      invariant 1 <= i <= |ns| - 1 && e == ns[i] && Flipped(ns, i)
      decreases |ns| - i
    {
      e := FlipLinks(e, ns, i);
      i := i + 1;
    }
  }

  /** list_reverse */
  method ListReverse<K>(list: List<K>)
    requires list.Valid()
    modifies list`elems, list.Nodes()
    ensures list.Valid() && list.elems == Rev(old(list.elems))
  {
    ghost var ns := list.Nodes();
    var empty := list.IsEmpty();
    if !empty {
      assert ns[0] == list.head && ns[|ns| - 1] == list.tail && |ns| >= 3;
      NoneFlipped(ns);
      hide Linked, Flipped;
      FlipAll(list.head.next, list.tail, ns);
      FinishReverse(list.head, list.tail, ns);
    }
    list.elems := Rev(list.elems);
    ReversedNodes(list.head, old(list.elems), list.tail);
  }

  lemma ReversedNodes<T>(head: T, elems: seq<T>, tail: T)
    ensures
      var ns := [head] + elems + [tail];
      [head] + Rev(elems) + [tail] == [ns[0]] + Rev(ns[1..|ns| - 1]) + [ns[|ns| - 1]]
  {
    assert ([head] + elems + [tail])[1..|elems| + 1] == elems;
  }

  /** The two exchanges at the sentinels that end list_reverse. */
  method FinishReverse<K>(head: Elem<K>, tail: Elem<K>, ghost ns: seq<Elem<K>>)
    requires |ns| >= 3 && Flipped(ns, |ns| - 1) && head == ns[0] && tail == ns[|ns| - 1]
    modifies ns
    ensures Linked([head] + Rev(ns[1..|ns| - 1]) + [tail])
  {
    ghost var n := |ns| - 1;
    var t := head.next;
    head.next := tail.prev;
    tail.prev := t;
    var u := head.next.prev;
    head.next.prev := tail.prev.next;
    tail.prev.next := u;
    ghost var rs := [head] + Rev(ns[1..n]) + [tail];
    assert |rs| == n + 1;
    assert forall k :: 0 < k < n ==> rs[k] == ns[n - k];
    assert rs[0] == ns[0] && rs[n] == ns[n];
  }
}
