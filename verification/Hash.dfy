/** lib/kernel/hash.c: chained hashing with a power-of-two number of buckets. */
module Hash {
  import opened Prelude
  import opened Arithmetic
  import opened Bits
  import opened ListSpec

  // --------------------------------------------------------------- contents

  /** All elements, with multiplicity. */
  ghost function All<E>(b: seq<seq<E>>): (m: multiset<E>) {
    if b == [] then multiset{} else multiset(b[0]) + All(b[1..])
  }

  /** Every element is in the bucket its hash value selects. */
  ghost predicate Placed<E>(hash: E -> nat, b: seq<seq<E>>) {
    |b| > 0 && forall i, x :: 0 <= i < |b| && x in b[i] ==> hash(x) % |b| == i
  }

  /** No two elements are equal under the table's ordering. */
  ghost predicate Twinless<E(!new)>(less: Less<E>, m: multiset<E>) {
    && (forall x :: x in m ==> m[x] == 1)
    && (forall x, y :: x in m && y in m && Equiv(less, x, y) ==> x == y)
  }

  /** Equal elements hash alike: what hash.h asks of the two functions. */
  ghost predicate Compatible<E(!new)>(hash: E -> nat, less: Less<E>) {
    forall x, y :: Equiv(less, x, y) ==> hash(x) == hash(y)
  }

  /** The element of the table equal to e, if any. */
  ghost predicate IsFound<E(!new)>(less: Less<E>, m: multiset<E>, e: E, r: Option<E>) {
    match r
    case None => forall x :: x in m ==> !Equiv(less, x, e)
    case Some(x) => x in m && Equiv(less, x, e)
  }

  lemma {:induction false} InAll<E>(b: seq<seq<E>>, x: E)
    ensures x in All(b) <==> exists i :: 0 <= i < |b| && x in b[i]
  {
    if b != [] {
      InAll(b[1..], x);
      if x in b[0] {
      } else if i :| 0 <= i < |b| && x in b[i] {
        assert b[1..][i - 1] == b[i];
      } else {
        assert forall i :: 0 <= i < |b[1..]| ==> b[1..][i] == b[i + 1];
      }
      if j :| 0 <= j < |b[1..]| && x in b[1..][j] {
        assert b[j + 1] == b[1..][j];
      }
    }
  }

  lemma BagAdd<E>(h: multiset<E>, a: multiset<E>, x: multiset<E>, c: multiset<E>, y: multiset<E>)
    requires a + x == c + y
    ensures (h + a) + x == (h + c) + y
  {
    assert h + (a + x) == (h + a) + x && h + (c + y) == (h + c) + y;
  }

  lemma BagCancel<E>(a: multiset<E>, x: multiset<E>, c: multiset<E>, y: multiset<E>)
    requires a + x == c + (y + x)
    ensures a == c + y
  {
    assert (a + x) - x == a && (c + (y + x)) - x == c + y;
  }

  lemma {:induction false} AllUpdate<E>(b: seq<seq<E>>, i: nat, s: seq<E>)
    requires i < |b|
    ensures All(b[i := s]) + multiset(b[i]) == All(b) + multiset(s)
  {
    if i == 0 {
      assert b[i := s][1..] == b[1..];
    } else {
      var rest := b[1..];
      AllUpdate(rest, i - 1, s);
      assert b[i := s][1..] == rest[i - 1 := s];
      BagAdd(multiset(b[0]), All(rest[i - 1 := s]), multiset(b[i]), All(rest), multiset(s));
    }
  }

  /** find_elem in the right bucket finds what is in the table. */
  lemma FoundInBucket<E(!new)>(hash: E -> nat, less: Less<E>, b: seq<seq<E>>, e: E, r: Option<E>)
    requires Placed(hash, b) && Compatible(hash, less)
    requires r.None? ==> forall k :: 0 <= k < |b[hash(e) % |b|]| ==> !Equiv(less, b[hash(e) % |b|][k], e)
    requires r.Some? ==> r.value in b[hash(e) % |b|] && Equiv(less, r.value, e)
    ensures IsFound(less, All(b), e, r)
  {
    var i := hash(e) % |b|;
    if r.Some? {
      InAll(b, r.value);
    } else {
      forall x | x in All(b) ensures !Equiv(less, x, e) {
        InAll(b, x);
        var j :| 0 <= j < |b| && x in b[j];
        assert Equiv(less, x, e) ==> hash(x) == hash(e);
      }
    }
  }

  lemma PushTwinless<E(!new)>(less: Less<E>, m: multiset<E>, e: E)
    requires Twinless(less, m) && IsFound(less, m, e, None) && StrictWeak(less)
    ensures Twinless(less, m + multiset{e})
  {
    assert Equiv(less, e, e);
  }

  lemma DropTwinless<E(!new)>(less: Less<E>, m: multiset<E>, e: E)
    requires Twinless(less, m) && e in m
    ensures Twinless(less, m - multiset{e})
  {
  }

  // ------------------------------------------------------- adding to a bucket

  lemma PushBucket<E(!new)>(hash: E -> nat, b: seq<seq<E>>, e: E)
    requires Placed(hash, b)
    ensures
      var i := hash(e) % |b|;
      var b1 := b[i := [e] + b[i]];
      Placed(hash, b1) && All(b1) == All(b) + multiset{e}
  {
    var i := hash(e) % |b|;
    assert forall x :: x in [e] + b[i] ==> hash(x) % |b| == i;
    PlacedUpdate(hash, b, i, [e] + b[i]);
    AllUpdate(b, i, [e] + b[i]);
    hide All, Placed;
    assert multiset([e] + b[i]) == multiset{e} + multiset(b[i]);
    BagCancel(All(b[i := [e] + b[i]]), multiset(b[i]), All(b), multiset{e});
  }

  lemma PlacedUpdate<E>(hash: E -> nat, b: seq<seq<E>>, i: nat, s: seq<E>)
    requires Placed(hash, b) && i < |b| && forall x :: x in s ==> hash(x) % |b| == i
    ensures Placed(hash, b[i := s])
  {
    var b1 := b[i := s];
    forall j, x | 0 <= j < |b1| && x in b1[j] ensures hash(x) % |b1| == j {
      assert j != i ==> x in b[j];
    }
  }

  /** list_remove. */
  function Removed<E(==)>(s: seq<E>, e: E): (r: seq<E>) {
    if s == [] then [] else if s[0] == e then s[1..] else [s[0]] + Removed(s[1..], e)
  }

  lemma {:induction false} RemovedSpec<E>(s: seq<E>, e: E)
    ensures multiset(Removed(s, e)) == multiset(s) - multiset{e}
    ensures forall x :: x in Removed(s, e) ==> x in s
  {
    if s != [] {
      assert s == [s[0]] + s[1..];
      if s[0] != e { RemovedSpec(s[1..], e); }
    }
  }

  lemma RemoveBucket<E(!new)>(hash: E -> nat, b: seq<seq<E>>, e: E)
    requires Placed(hash, b) && e in b[hash(e) % |b|]
    ensures
      var i := hash(e) % |b|;
      var b1 := b[i := Removed(b[i], e)];
      Placed(hash, b1) && All(b1) == All(b) - multiset{e}
  {
    var i := hash(e) % |b|;
    RemovedSpec(b[i], e);
    assert forall x :: x in Removed(b[i], e) ==> x in b[i] && hash(x) % |b| == i;
    PlacedUpdate(hash, b, i, Removed(b[i], e));
    AllUpdate(b, i, Removed(b[i], e));
    hide All, Placed, Removed;
    var less := multiset(Removed(b[i], e));
    assert multiset(b[i]) == multiset{e} + less;
    BagCancel(All(b), less, All(b[i := Removed(b[i], e)]), multiset{e});
  }

  // ------------------------------------------------------------------ table

  class Table<E(!new, ==)> {
    const hash: E -> nat
    const less: Less<E>
    var buckets: seq<seq<E>>
    var elemCnt: nat

    ghost predicate Valid()
      reads this
    {
      && StrictWeak(less) && Compatible(hash, less)
      && IsPow2(|buckets|) && |buckets| >= 4
      && Placed(hash, buckets)
      && Twinless(less, Contents())
      && elemCnt == |Contents()|
    }

    ghost function Contents(): (m: multiset<E>)
      reads this
    {
      All(buckets)
    }

    /** hash_init with four empty buckets. */
    constructor (hash: E -> nat, less: Less<E>)
      requires StrictWeak(less) && Compatible(hash, less)
      ensures Valid() && Contents() == multiset{} && this.hash == hash && this.less == less
    {
      this.hash, this.less := hash, less;
      buckets, elemCnt := [[], [], [], []], 0;
      new;
      NoElements(buckets);
      assert Pow2(2) == 4;
    }

    /** find_bucket. */
    method FindBucket(e: E) returns (i: nat)
      requires IsPow2(|buckets|) && |buckets| > 0
      ensures i == hash(e) % |buckets| && i < |buckets|
    {
      ghost var k: nat :| Pow2(k) == |buckets|;
      AndMask(hash(e), k);
      i := And(hash(e), |buckets| - 1);
    }

    /** find_elem. */
    method FindElem(i: nat, e: E) returns (r: Option<E>)
      requires i < |buckets|
      ensures r.None? ==> forall k :: 0 <= k < |buckets[i]| ==> !Equiv(less, buckets[i][k], e)
      ensures r.Some? ==> r.value in buckets[i] && Equiv(less, r.value, e)
    {
      var k := 0;
      while k < |buckets[i]|
        invariant 0 <= k <= |buckets[i]|
        invariant forall j :: 0 <= j < k ==> !Equiv(less, buckets[i][j], e)
      {
        if !less(buckets[i][k], e) && !less(e, buckets[i][k]) { return Some(buckets[i][k]); }
        k := k + 1;
      }
      return None;
    }

    /** hash_find. */
    method Find(e: E) returns (r: Option<E>)
      requires Valid()
      ensures IsFound(less, Contents(), e, r)
    {
      var i := FindBucket(e);
      r := FindElem(i, e);
      FoundInBucket(hash, less, buckets, e, r);
    }
  
    /** insert_elem and remove_elem. */
    method InsertElem(i: nat, e: E)
      requires i == hash(e) % (if |buckets| > 0 then |buckets| else 1) && Placed(hash, buckets)
      modifies this
      ensures Placed(hash, buckets) && |buckets| == |old(buckets)|
      ensures Contents() == old(Contents()) + multiset{e} && elemCnt == old(elemCnt) + 1
    {
      PushBucket(hash, buckets, e);
      elemCnt := elemCnt + 1;
      buckets := buckets[i := [e] + buckets[i]];
    }

    method RemoveElem(e: E)
      requires Placed(hash, buckets) && e in Contents() && elemCnt > 0
      modifies this
      ensures Placed(hash, buckets) && |buckets| == |old(buckets)|
      ensures Contents() == old(Contents()) - multiset{e} && elemCnt == old(elemCnt) - 1
    {
      InAll(buckets, e);
      RemoveBucket(hash, buckets, e);
      elemCnt := elemCnt - 1;
      var i := hash(e) % |buckets|;
      buckets := buckets[i := Removed(buckets[i], e)];
    }

    /** The moving loop of rehash, for one old bucket. */
    method MoveBucket(bucket: seq<E>)
      requires Placed(hash, buckets) && IsPow2(|buckets|)
      modifies `buckets
      ensures Placed(hash, buckets) && |buckets| == |old(buckets)|
      ensures Contents() == old(Contents()) + multiset(bucket)
    {
      hide Placed, All;
      var k := 0;
      while k < |bucket|
        invariant 0 <= k <= |bucket| && Placed(hash, buckets) && |buckets| == |old(buckets)| > 0
        invariant Contents() == old(Contents()) + multiset(bucket[..k])
      {
        var e := bucket[k];
        var i := FindBucket(e);
        PushBucket(hash, buckets, e);
        buckets := buckets[i := [e] + buckets[i]];
        assert bucket[..k + 1] == bucket[..k] + [e];
        k := k + 1;
      }
      assert bucket[..k] == bucket;
    }

    /** The moving loop over all old buckets. */
    method MoveAll(from: seq<seq<E>>)
      requires Placed(hash, buckets) && IsPow2(|buckets|)
      modifies `buckets
      ensures Placed(hash, buckets) && |buckets| == |old(buckets)|
      ensures Contents() == old(Contents()) + All(from)
    {
      hide Placed, All;
      var i := 0;
      assert from[0..] == from;
      while i < |from|
        invariant 0 <= i <= |from| && Placed(hash, buckets) && |buckets| == |old(buckets)|
        invariant Contents() + All(from[i..]) == old(Contents()) + All(from)
      {
        AllFrom(from, i);
        MoveBucket(from[i]);
        i := i + 1;
      }
      NoElements(from[i..]);
    }

    /** rehash; memory says whether the new buckets could be allocated.  Nothing
        is lost either way, and the number of buckets stays a power of two. */
    method Rehash(memory: bool)
      requires Valid()
      modifies `buckets
      ensures Valid() && Contents() == old(Contents())
      ensures
        memory ==>
          var want := if elemCnt / 2 < 4 then 4 else elemCnt / 2;
          |buckets| <= want < 2 * |buckets|
      ensures !memory ==> buckets == old(buckets)
    {
      hide StrictWeak, Compatible, Placed, Twinless, All;
      var want := elemCnt / 2;
      if want < 4 { want := 4; }
      var n := FloorPow2(want);
      AtLeastFour(n, want);
      if n == |buckets| || !memory { return; }
      var oldBuckets := buckets;
      buckets := seq(n, i => []);
      EmptyBuckets(hash, buckets);
      MoveAll(oldBuckets);
      assert Contents() == old(Contents());
    }

    /** hash_insert. */
    method Insert(e: E, memory: bool) returns (r: Option<E>)
      requires Valid()
      modifies this
      ensures Valid() && IsFound(less, old(Contents()), e, r)
      ensures Contents() == if r.Some? then old(Contents()) else old(Contents()) + multiset{e}
    {
      var i := FindBucket(e);
      r := FindElem(i, e);
      FoundInBucket(hash, less, buckets, e, r);
      if r.None? {
        PushTwinless(less, Contents(), e);
        InsertElem(i, e);
      }
      Rehash(memory);
    }

    /** hash_replace. */
    method Replace(e: E, memory: bool) returns (r: Option<E>)
      requires Valid()
      modifies this
      ensures Valid() && IsFound(less, old(Contents()), e, r)
      ensures Contents() == (if r.Some? then old(Contents()) - multiset{r.value} else old(Contents())) + multiset{e}
    {
      var i := FindBucket(e);
      r := FindElem(i, e);
      FoundInBucket(hash, less, buckets, e, r);
      ghost var m := Contents();
      if r.Some? {
        DropTwinless(less, m, r.value);
        NoTwinLeft(less, m, e, r.value);
        RemoveElem(r.value);
      }
      PushTwinless(less, Contents(), e);
      InsertElem(i, e);
      Rehash(memory);
    }

    /** hash_delete. */
    method Delete(e: E, memory: bool) returns (r: Option<E>)
      requires Valid()
      modifies this
      ensures Valid() && IsFound(less, old(Contents()), e, r)
      ensures Contents() == if r.Some? then old(Contents()) - multiset{r.value} else old(Contents())
    {
      r := Find(e);
      if r.Some? {
        DropTwinless(less, Contents(), r.value);
        RemoveElem(r.value);
        Rehash(memory);
      }
    }
  }

  lemma {:induction false} NoElements<E>(b: seq<seq<E>>)
    requires forall i :: 0 <= i < |b| ==> b[i] == []
    ensures All(b) == multiset{}
  {
    if b != [] { NoElements(b[1..]); }
  }

  lemma AllFrom<E>(b: seq<seq<E>>, i: nat)
    requires i < |b|
    ensures All(b[i..]) == multiset(b[i]) + All(b[i + 1..])
  {
    assert b[i..][1..] == b[i + 1..];
  }

  lemma EmptyBuckets<E(!new)>(hash: E -> nat, b: seq<seq<E>>)
    requires b != [] && forall i :: 0 <= i < |b| ==> b[i] == []
    ensures Placed(hash, b) && All(b) == multiset{}
  {
    NoElements(b);
  }

  lemma AtLeastFour(n: nat, want: nat)
    requires IsPow2(n) && n <= want < 2 * n && want >= 4
    ensures n >= 4
  {
    assert !IsPow2(3) by { OddPow2(3); }
  }

  /** Once the equal element is gone, none equal is left. */
  lemma NoTwinLeft<E(!new)>(less: Less<E>, m: multiset<E>, e: E, x: E)
    requires Twinless(less, m) && StrictWeak(less) && x in m && Equiv(less, x, e)
    ensures IsFound(less, m - multiset{x}, e, None)
  {
    forall y | y in m - multiset{x} ensures !Equiv(less, y, e) {
      assert Equiv(less, y, e) ==> Equiv(less, y, x);
    }
  }

  // -------------------------------------------------------------- iteration

  function Flat<E>(b: seq<seq<E>>): (r: seq<E>) {
    if b == [] then [] else b[0] + Flat(b[1..])
  }

  /** The elements from position k of bucket i on. */
  function From<E>(b: seq<seq<E>>, i: nat, k: nat): (r: seq<E>)
    requires i < |b| && k <= |b[i]|
  {
    b[i][k..] + Flat(b[i + 1..])
  }

  lemma FromBucketEnd<E>(b: seq<seq<E>>, i: nat)
    requires i < |b|
    ensures From(b, i, |b[i]|) == if i + 1 < |b| then From(b, i + 1, 0) else []
  {
    if i + 1 < |b| {
      assert b[i + 1..][1..] == b[i + 2..];
      assert b[i + 1][0..] == b[i + 1];
    }
  }

  lemma FromElem<E>(b: seq<seq<E>>, i: nat, k: nat)
    requires i < |b| && k < |b[i]|
    ensures From(b, i, k) == [b[i][k]] + From(b, i, k + 1)
  {
    assert b[i][k..] == [b[i][k]] + b[i][k + 1..];
  }

  lemma {:induction false} FlatIsAll<E>(b: seq<seq<E>>)
    ensures multiset(Flat(b)) == All(b)
  {
    if b != [] { FlatIsAll(b[1..]); }
  }

  /** struct hash_iterator over a table that is not changed meanwhile. */
  class Cursor<E(!new)> {
    const buckets: seq<seq<E>>
    var bucket: nat
    /** Position in the bucket; -1 is the list head. */
    var elem: int
    var atEnd: bool

    ghost predicate Valid()
      reads this
    {
      !atEnd ==> bucket < |buckets| && -1 <= elem < |buckets[bucket]|
    }

    ghost function Remaining(): (r: seq<E>)
      requires Valid()
      reads this
    {
      if atEnd then [] else From(buckets, bucket, elem + 1)
    }

    /** hash_first: what remains is the whole table, each element once. */
    constructor (b: seq<seq<E>>)
      requires b != []
      ensures Valid() && buckets == b && multiset(Remaining()) == All(b)
    {
      buckets, bucket, elem, atEnd := b, 0, -1, false;
      new;
      FlatIsAll(b);
      assert b[0][0..] == b[0];
    }

    /** hash_next: the next remaining element, or None when there is none. */
    method Next() returns (r: Option<E>)
      requires Valid() && !atEnd
      modifies this
      ensures Valid()
      ensures
        var left := old(Remaining());
        if left == [] then r == None && atEnd else r == Some(left[0]) && Remaining() == left[1..]
    {
      hide From;
      ghost var left := Remaining();
      elem := elem + 1;
      while elem == |buckets[bucket]|
        invariant !atEnd && bucket < |buckets| && 0 <= elem <= |buckets[bucket]|
        invariant left == From(buckets, bucket, elem)
        decreases |buckets| - bucket
      {
        FromBucketEnd(buckets, bucket);
        bucket := bucket + 1;
        if bucket >= |buckets| {
          atEnd := true;
          return None;
        }
        elem := 0;
      }
      FromElem(buckets, bucket, elem);
      r := Some(buckets[bucket][elem]);
    }
  }
}
