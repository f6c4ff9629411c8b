/** Sequences of list elements and the sorting theory of lib/kernel/list.c:
    nondecreasing runs, merging, stability. */
module ListSpec {

  /** struct list_elem inside some structure; data stands for the part of the
      structure that comparison functions look at. */
  class Elem<K> {
    const data: K
    var prev: Elem?<K>
    var next: Elem?<K>

    constructor (data: K)
      ensures this.data == data && prev == null && next == null
    {
      this.data := data;
      prev, next := null, null;
    }
  }

  type Less<!K> = (K, K) -> bool

  /** What list.h asks of a list_less_func: a strict weak ordering. */
  ghost predicate StrictWeak<K(!new)>(less: Less<K>) {
    && (forall a :: !less(a, a))
    && (forall a, b, c :: less(a, b) && less(b, c) ==> less(a, c))
    && (forall a, b, c :: !less(a, b) && !less(b, c) ==> !less(a, c))
  }

  predicate Equiv<K>(less: Less<K>, a: K, b: K) {
    !less(a, b) && !less(b, a)
  }

  /** Nondecreasing, between any two elements. */
  ghost predicate Sorted<K>(less: Less<K>, s: seq<Elem<K>>) {
    forall i, j :: 0 <= i < j < |s| ==> !less(s[j].data, s[i].data)
  }

  // ------------------------------------------------------------------ runs

  /** Number of maximal nondecreasing runs. */
  function Runs<K>(less: Less<K>, s: seq<Elem<K>>): (n: nat) {
    if |s| <= 1 then |s|
    else Runs(less, s[1..]) + if less(s[1].data, s[0].data) then 1 else 0
  }

  /** Length of the first run (find_end_of_run). */
  function RunLen<K>(less: Less<K>, s: seq<Elem<K>>): (n: nat)
    ensures n <= |s| && (s != [] ==> 1 <= n)
  {
    if |s| <= 1 then |s|
    else if less(s[1].data, s[0].data) then 1
    else 1 + RunLen(less, s[1..])
  }

  lemma {:induction false} FirstRun<K(!new)>(less: Less<K>, s: seq<Elem<K>>)
    requires StrictWeak(less) && s != []
    ensures
      var n := RunLen(less, s);
      && Sorted(less, s[..n])
      && (n < |s| ==> less(s[n].data, s[n - 1].data))
      && Runs(less, s) == 1 + Runs(less, s[n..])
  {
    if |s| > 1 && !less(s[1].data, s[0].data) {
      var t := s[1..];
      FirstRun(less, t);
      var n := RunLen(less, t);
      assert s[n + 1..] == t[n..];
      forall i, j | 0 <= i < j < n + 1 ensures !less(s[j].data, s[i].data) {
        assert j > 0 ==> s[j] == t[j - 1];
        if i == 0 {
          assert !less(t[j - 1].data, t[0].data);
        } else {
          assert s[i] == t[i - 1];
        }
      }
      assert s[n] == t[n - 1];
    }
  }

  lemma {:induction false} SortedRuns<K>(less: Less<K>, s: seq<Elem<K>>)
    requires Sorted(less, s)
    ensures Runs(less, s) <= 1
  {
    if |s| > 1 { SortedRuns(less, s[1..]); }
  }

  lemma {:induction false} RunsSorted<K(!new)>(less: Less<K>, s: seq<Elem<K>>)
    requires StrictWeak(less) && Runs(less, s) <= 1
    ensures Sorted(less, s)
  {
    if |s| > 1 {
      FirstRun(less, s);
      var n := RunLen(less, s);
      if n < |s| {
        RunsPositive(less, s[n..]);
      }
      assert s[..n] == s;
    }
  }

  lemma {:induction false} RunsPositive<K>(less: Less<K>, s: seq<Elem<K>>)
    requires s != []
    ensures Runs(less, s) >= 1
  {
    if |s| > 1 { RunsPositive(less, s[1..]); }
  }

  /** Joining two lists joins at most their border runs. */
  lemma {:induction false} RunsConcat<K>(less: Less<K>, a: seq<Elem<K>>, b: seq<Elem<K>>)
    ensures Runs(less, a + b) <= Runs(less, a) + Runs(less, b)
  {
    if a == [] {
      assert a + b == b;
    } else if |a| == 1 {
      if b != [] { assert (a + b)[1..] == b; } else { assert a + b == a; }
    } else {
      RunsConcat(less, a[1..], b);
      assert (a + b)[1..] == a[1..] + b;
    }
  }

  // ----------------------------------------------------------------- merge

  /** inplace_merge on values: on a tie the element of the first run goes first. */
  function Merge<K>(less: Less<K>, a: seq<Elem<K>>, b: seq<Elem<K>>): (r: seq<Elem<K>>)
    decreases |a| + |b|
  {
    if a == [] then b
    else if b == [] then a
    else if less(b[0].data, a[0].data) then [b[0]] + Merge(less, a, b[1..])
    else [a[0]] + Merge(less, a[1..], b)
  }

  lemma MergeStep<K>(less: Less<K>, a: seq<Elem<K>>, b: seq<Elem<K>>)
    requires a != [] && b != []
    ensures Merge(less, a, b) ==
      if less(b[0].data, a[0].data) then [b[0]] + Merge(less, a, b[1..]) else [a[0]] + Merge(less, a[1..], b)
  {
  }

  lemma {:induction false} MergeMultiset<K>(less: Less<K>, a: seq<Elem<K>>, b: seq<Elem<K>>)
    ensures multiset(Merge(less, a, b)) == multiset(a) + multiset(b)
    decreases |a| + |b|
  {
    if a != [] && b != [] {
      MergeStep(less, a, b);
      hide Merge;
      if less(b[0].data, a[0].data) {
        MergeMultiset(less, a, b[1..]);
        MultisetHead(b);
      } else {
        MergeMultiset(less, a[1..], b);
        MultisetHead(a);
      }
    }
  }

  lemma MultisetHead<T>(s: seq<T>)
    requires s != []
    ensures multiset(s) == multiset{s[0]} + multiset(s[1..])
  {
    assert s == [s[0]] + s[1..];
  }

  /** x is no larger than anything in s. */
  ghost predicate Below<K>(less: Less<K>, x: Elem<K>, s: seq<Elem<K>>) {
    forall i :: 0 <= i < |s| ==> !less(s[i].data, x.data)
  }

  lemma {:induction false} MergeBelow<K>(less: Less<K>, x: Elem<K>, a: seq<Elem<K>>, b: seq<Elem<K>>)
    requires Below(less, x, a) && Below(less, x, b)
    ensures Below(less, x, Merge(less, a, b))
    decreases |a| + |b|
  {
    if a != [] && b != [] {
      if less(b[0].data, a[0].data) {
        MergeBelow(less, x, a, b[1..]);
      } else {
        MergeBelow(less, x, a[1..], b);
      }
    }
  }

  lemma ConsSorted<K>(less: Less<K>, x: Elem<K>, s: seq<Elem<K>>)
    requires Sorted(less, s) && Below(less, x, s)
    ensures Sorted(less, [x] + s)
  {
    var r := [x] + s;
    forall i, j | 0 <= i < j < |r| ensures !less(r[j].data, r[i].data) {
      assert r[j] == s[j - 1];
      if i > 0 { assert r[i] == s[i - 1]; }
    }
  }

  lemma {:induction false} MergeSorted<K(!new)>(less: Less<K>, a: seq<Elem<K>>, b: seq<Elem<K>>)
    requires StrictWeak(less) && Sorted(less, a) && Sorted(less, b)
    ensures Sorted(less, Merge(less, a, b))
    decreases |a| + |b|
  {
    if a != [] && b != [] {
      if less(b[0].data, a[0].data) {
        MergeSorted(less, a, b[1..]);
        MergeBelow(less, b[0], a, b[1..]);
        ConsSorted(less, b[0], Merge(less, a, b[1..]));
      } else {
        MergeSorted(less, a[1..], b);
        MergeBelow(less, a[0], a[1..], b);
        ConsSorted(less, a[0], Merge(less, a[1..], b));
      }
    }
  }

  // ------------------------------------------------------------- stability

  /** The elements equivalent to x, in order. */
  function Class<K>(less: Less<K>, x: K, s: seq<Elem<K>>): (r: seq<Elem<K>>) {
    if s == [] then []
    else (if Equiv(less, x, s[0].data) then [s[0]] else []) + Class(less, x, s[1..])
  }

  /** Equivalent elements keep their relative order. */
  ghost predicate Stable<K(!new)>(less: Less<K>, s: seq<Elem<K>>, r: seq<Elem<K>>) {
    forall x :: Class(less, x, r) == Class(less, x, s)
  }

  function ClassHead<K>(less: Less<K>, x: K, y: Elem<K>): (r: seq<Elem<K>>) {
    if Equiv(less, x, y.data) then [y] else []
  }

  lemma ClassCons<K>(less: Less<K>, x: K, y: Elem<K>, s: seq<Elem<K>>)
    ensures Class(less, x, [y] + s) == ClassHead(less, x, y) + Class(less, x, s)
  {
    assert ([y] + s)[1..] == s;
  }

  lemma Assoc<T>(a: seq<T>, b: seq<T>, c: seq<T>)
    ensures a + (b + c) == (a + b) + c
  {
  }

  lemma {:induction false} ClassConcat<K>(less: Less<K>, x: K, a: seq<Elem<K>>, b: seq<Elem<K>>)
    ensures Class(less, x, a + b) == Class(less, x, a) + Class(less, x, b)
  {
    if a == [] {
      assert a + b == b;
    } else {
      hide Class;
      var y, rest := a[0], a[1..];
      ClassConcat(less, x, rest, b);
      ClassCons(less, x, y, rest);
      ClassCons(less, x, y, rest + b);
      assert a == [y] + rest;
      Assoc([y], rest, b);
      Assoc(ClassHead(less, x, y), Class(less, x, rest), Class(less, x, b));
    }
  }

  /** Nothing in a sorted list that starts above y is equivalent to y. */
  lemma {:induction false} ClassEmpty<K(!new)>(less: Less<K>, x: K, y: Elem<K>, a: seq<Elem<K>>)
    requires StrictWeak(less) && Equiv(less, x, y.data)
    requires forall i :: 0 <= i < |a| ==> less(y.data, a[i].data)
    ensures Class(less, x, a) == []
  {
    if a != [] {
      assert less(y.data, a[0].data);
      ClassEmpty(less, x, y, a[1..]);
    }
  }

  lemma {:induction false} MergeStable<K(!new)>(less: Less<K>, x: K, a: seq<Elem<K>>, b: seq<Elem<K>>)
    requires StrictWeak(less) && Sorted(less, a)
    ensures Class(less, x, Merge(less, a, b)) == Class(less, x, a) + Class(less, x, b)
    decreases |a| + |b|
  {
    if a == [] || b == [] {
    } else if less(b[0].data, a[0].data) {
      MergeStable(less, x, a, b[1..]);
      if Equiv(less, x, b[0].data) {
        AboveHead(less, b[0], a);
        ClassEmpty(less, x, b[0], a);
      }
      hide StrictWeak, Sorted, Class;
      ClassCons(less, x, b[0], Merge(less, a, b[1..]));
      ClassCons(less, x, b[0], b[1..]);
      assert b == [b[0]] + b[1..];
    } else {
      MergeStable(less, x, a[1..], b);
      hide StrictWeak, Sorted, Class;
      ClassCons(less, x, a[0], Merge(less, a[1..], b));
      ClassCons(less, x, a[0], a[1..]);
      assert a == [a[0]] + a[1..];
    }
  }

  lemma AboveHead<K(!new)>(less: Less<K>, y: Elem<K>, a: seq<Elem<K>>)
    requires StrictWeak(less) && Sorted(less, a) && a != [] && less(y.data, a[0].data)
    ensures forall i :: 0 <= i < |a| ==> less(y.data, a[i].data)
  {
    forall i | 0 <= i < |a| ensures less(y.data, a[i].data) {
      if i > 0 {
        assert !less(a[i].data, a[0].data);
      }
    }
  }

  // ------------------------------------------------------------ the passes

  /** Where the second run ends, if there is one. */
  function TwoRuns<K>(less: Less<K>, s: seq<Elem<K>>): (m: nat)
    requires RunLen(less, s) < |s|
    ensures RunLen(less, s) < m <= |s|
  {
    RunLen(less, s) + RunLen(less, s[RunLen(less, s)..])
  }

  /** One pass of list_sort: pairs of adjacent runs are merged. */
  function Pass<K>(less: Less<K>, s: seq<Elem<K>>): (r: seq<Elem<K>>)
    decreases |s|
  {
    var n := RunLen(less, s);
    if n == |s| then s
    else
      var m := TwoRuns(less, s);
      Merge(less, s[..n], s[n..m]) + Pass(less, s[m..])
  }

  /** The number of output runs that a pass counts. */
  function PassCount<K>(less: Less<K>, s: seq<Elem<K>>): (c: nat)
    decreases |s|
  {
    if RunLen(less, s) == |s| then (if s == [] then 0 else 1)
    else 1 + PassCount(less, s[TwoRuns(less, s)..])
  }

  /** What one iteration of a pass finds and leaves. */
  lemma TwoRunsFound<K(!new)>(less: Less<K>, s: seq<Elem<K>>)
    requires StrictWeak(less) && RunLen(less, s) < |s|
    ensures
      var n, m := RunLen(less, s), TwoRuns(less, s);
      && Sorted(less, s[..n]) && Sorted(less, s[n..m])
      && Runs(less, s) == 2 + Runs(less, s[m..])
      && s == s[..n] + s[n..m] + s[m..]
  {
    var n := RunLen(less, s);
    SecondRun(less, s, n, RunLen(less, s[n..]));
  }

  lemma SecondRun<K(!new)>(less: Less<K>, s: seq<Elem<K>>, n: nat, k: nat)
    requires StrictWeak(less) && n == RunLen(less, s) < |s| && k == RunLen(less, s[n..])
    ensures Sorted(less, s[..n]) && Sorted(less, s[n..n + k])
    ensures Runs(less, s) == 2 + Runs(less, s[n + k..])
    ensures s == s[..n] + s[n..n + k] + s[n + k..]
  {
    hide StrictWeak, Sorted, Runs, RunLen;
    FirstRun(less, s);
    FirstRun(less, s[n..]);
    Split(s, n, n + k);
  }

  lemma Split<T>(s: seq<T>, n: nat, m: nat)
    requires n <= m <= |s|
    ensures s == s[..n] + s[n..m] + s[m..]
    ensures s[n..][m - n..] == s[m..] && s[n..][..m - n] == s[n..m]
  {
  }

  lemma OneRun<K(!new)>(less: Less<K>, s: seq<Elem<K>>)
    requires StrictWeak(less) && RunLen(less, s) == |s|
    ensures Sorted(less, s) && Runs(less, s) == if s == [] then 0 else 1
  {
    if s != [] {
      FirstRun(less, s);
      assert s[..|s|] == s && s[|s|..] == [];
    }
  }

  /** The count is half the number of runs, rounded up, and bounds the runs left. */
  lemma {:induction false} PassHalves<K(!new)>(less: Less<K>, s: seq<Elem<K>>)
    requires StrictWeak(less)
    ensures PassCount(less, s) == (Runs(less, s) + 1) / 2
    ensures Runs(less, Pass(less, s)) <= PassCount(less, s)
    decreases |s|
  {
    hide StrictWeak, Sorted, RunLen, TwoRuns, Runs, Merge;
    var n := RunLen(less, s);
    if n < |s| {
      var m := TwoRuns(less, s);
      TwoRunsFound(less, s);
      PassHalves(less, s[m..]);
      var merged := Merge(less, s[..n], s[n..m]);
      MergeSorted(less, s[..n], s[n..m]);
      SortedRuns(less, merged);
      RunsConcat(less, merged, Pass(less, s[m..]));
    } else {
      OneRun(less, s);
    }
  }

  lemma {:induction false} PassMultiset<K(!new)>(less: Less<K>, s: seq<Elem<K>>)
    requires StrictWeak(less)
    ensures multiset(Pass(less, s)) == multiset(s)
    decreases |s|
  {
    hide StrictWeak, Sorted, RunLen, TwoRuns, Runs, Merge;
    var n := RunLen(less, s);
    if n < |s| {
      var m := TwoRuns(less, s);
      TwoRunsFound(less, s);
      PassMultiset(less, s[m..]);
      MergeMultiset(less, s[..n], s[n..m]);
    }
  }

  lemma {:induction false} PassStable<K(!new)>(less: Less<K>, x: K, s: seq<Elem<K>>)
    requires StrictWeak(less)
    ensures Class(less, x, Pass(less, s)) == Class(less, x, s)
    decreases |s|
  {
    hide StrictWeak, Sorted, RunLen, TwoRuns, Runs, Merge, Class;
    var n := RunLen(less, s);
    if n < |s| {
      var m := TwoRuns(less, s);
      TwoRunsFound(less, s);
      PassStable(less, x, s[m..]);
      MergeStable(less, x, s[..n], s[n..m]);
      ClassConcat(less, x, Merge(less, s[..n], s[n..m]), Pass(less, s[m..]));
      ClassConcat(less, x, s[..n] + s[n..m], s[m..]);
      ClassConcat(less, x, s[..n], s[n..m]);
    }
  }

  /** The result of list_sort: passes until at most one run was put out. */
  function Sort<K(!new)>(less: Less<K>, s: seq<Elem<K>>): (r: seq<Elem<K>>)
    requires StrictWeak(less)
    decreases Runs(less, s)
  {
    PassHalves(less, s);
    var p := Pass(less, s);
    if PassCount(less, s) > 1 then Sort(less, p) else p
  }

  /** list_sort sorts, permutes and is stable. */
  lemma {:induction false} SortCorrect<K(!new)>(less: Less<K>, s: seq<Elem<K>>)
    requires StrictWeak(less)
    ensures Sorted(less, Sort(less, s))
    ensures multiset(Sort(less, s)) == multiset(s)
    ensures Stable(less, s, Sort(less, s))
    decreases Runs(less, s)
  {
    hide StrictWeak, Sorted, Runs, Pass, PassCount, Class;
    PassHalves(less, s);
    PassMultiset(less, s);
    forall x ensures Class(less, x, Pass(less, s)) == Class(less, x, s) {
      PassStable(less, x, s);
    }
    if PassCount(less, s) > 1 {
      SortCorrect(less, Pass(less, s));
    } else {
      RunsSorted(less, Pass(less, s));
    }
  }

  // ------------------------------------------------------ ordered insertion

  /** list_insert_ordered: before the first element that x is less than. */
  function InsertOrdered<K>(less: Less<K>, s: seq<Elem<K>>, x: Elem<K>): (r: seq<Elem<K>>) {
    if s == [] then [x]
    else if less(x.data, s[0].data) then [x] + s
    else [s[0]] + InsertOrdered(less, s[1..], x)
  }

  /** It keeps order, adds exactly x, and puts x last among its equivalents. */
  lemma {:induction false} InsertCorrect<K(!new)>(less: Less<K>, s: seq<Elem<K>>, x: Elem<K>, y: K)
    requires StrictWeak(less) && Sorted(less, s)
    ensures Sorted(less, InsertOrdered(less, s, x))
    ensures multiset(InsertOrdered(less, s, x)) == multiset(s) + multiset{x}
    ensures Class(less, y, InsertOrdered(less, s, x)) == Class(less, y, s + [x])
  {
    if s == [] {
      assert [] + [x] == [x];
    } else {
      assert s == [s[0]] + s[1..];
      InsertIsMerge(less, s, x);
      assert Sorted(less, [x]);
      MergeSorted(less, s, [x]);
      MergeMultiset(less, s, [x]);
      MergeStable(less, y, s, [x]);
      ClassConcat(less, y, s, [x]);
    }
  }

  lemma {:induction false} InsertIsMerge<K>(less: Less<K>, s: seq<Elem<K>>, x: Elem<K>)
    ensures InsertOrdered(less, s, x) == Merge(less, s, [x])
  {
    if s != [] {
      if less(x.data, s[0].data) {
        assert [x][1..] == [];
      } else {
        InsertIsMerge(less, s[1..], x);
      }
    }
  }

  /** Inserting the elements one by one. */
  function InsertAll<K>(less: Less<K>, s: seq<Elem<K>>): (r: seq<Elem<K>>) {
    if s == [] then [] else InsertOrdered(less, InsertAll(less, s[..|s| - 1]), s[|s| - 1])
  }

  lemma {:induction false} InsertAllCorrect<K(!new)>(less: Less<K>, s: seq<Elem<K>>)
    requires StrictWeak(less)
    ensures Sorted(less, InsertAll(less, s))
    ensures Stable(less, s, InsertAll(less, s))
  {
    if s != [] {
      var init, x := s[..|s| - 1], s[|s| - 1];
      InsertAllCorrect(less, init);
      assert s == init + [x];
      var r := InsertAll(less, init);
      assert Sorted(less, InsertOrdered(less, r, x)) by { InsertCorrect(less, r, x, x.data); }
      forall y ensures Class(less, y, InsertAll(less, s)) == Class(less, y, s) {
        InsertCorrect(less, r, x, y);
        ClassConcat(less, y, r, [x]);
        ClassConcat(less, y, init, [x]);
      }
    }
  }

  /** There is one sorted stable rearrangement, so list_sort and insertion by
      list_insert_ordered give the same list. */
  lemma SortIsInsertAll<K(!new)>(less: Less<K>, s: seq<Elem<K>>)
    requires StrictWeak(less)
    ensures Sort(less, s) == InsertAll(less, s)
  {
    SortCorrect(less, s);
    InsertAllCorrect(less, s);
    SortedUnique(less, Sort(less, s), InsertAll(less, s));
  }

  lemma {:induction false} SortedUnique<K(!new)>(less: Less<K>, a: seq<Elem<K>>, b: seq<Elem<K>>)
    requires StrictWeak(less) && Sorted(less, a) && Sorted(less, b)
    requires forall x :: Class(less, x, a) == Class(less, x, b)
    ensures a == b
  {
    if a != [] { OwnClass(less, a); }
    if b != [] { OwnClass(less, b); }
    if a != [] && b != [] {
      HeadInClass(less, a, b);
      HeadInClass(less, b, a);
      assert Equiv(less, a[0].data, b[0].data);
      assert a[0] == Class(less, a[0].data, a)[0] == Class(less, a[0].data, b)[0] == b[0];
      forall x ensures Class(less, x, a[1..]) == Class(less, x, b[1..]) {
        assert Class(less, x, a) == Class(less, x, b);
        var head := if Equiv(less, x, a[0].data) then [a[0]] else [];
        assert Class(less, x, a)[|head|..] == Class(less, x, a[1..]);
        assert Class(less, x, b)[|head|..] == Class(less, x, b[1..]);
      }
      SortedUnique(less, a[1..], b[1..]);
    }
  }

  lemma OwnClass<K(!new)>(less: Less<K>, s: seq<Elem<K>>)
    requires StrictWeak(less) && s != []
    ensures Class(less, s[0].data, s) != [] && Class(less, s[0].data, s)[0] == s[0]
    ensures Class(less, s[0].data, []) == []
  {
  }

  /** The least element of a is not above the head of b, which has an
      equivalent in a. */
  lemma HeadInClass<K(!new)>(less: Less<K>, a: seq<Elem<K>>, b: seq<Elem<K>>)
    requires StrictWeak(less) && Sorted(less, a) && a != [] && b != []
    requires Class(less, b[0].data, a) == Class(less, b[0].data, b)
    ensures !less(b[0].data, a[0].data)
  {
    assert Class(less, b[0].data, b)[0] == b[0];
    var i := ClassMember(less, b[0].data, a);
    assert i > 0 ==> !less(a[i].data, a[0].data);
  }

  lemma {:induction false} ClassMember<K>(less: Less<K>, x: K, s: seq<Elem<K>>) returns (i: nat)
    requires Class(less, x, s) != []
    ensures i < |s| && Equiv(less, x, s[i].data)
  {
    if Equiv(less, x, s[0].data) {
      i := 0;
    } else {
      i := ClassMember(less, x, s[1..]);
      i := i + 1;
    }
  }
}
