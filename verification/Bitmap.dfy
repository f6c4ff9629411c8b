/** lib/kernel/bitmap.c: first-fit search for a group of equal bits. */
module Bitmap {
  import opened Prelude
  import opened Arithmetic
  import opened Bits

  /** The cnt bits from i on exist and all equal v. */
  predicate Group(s: seq<bool>, i: int, cnt: nat, v: bool) {
    0 <= i && i + cnt <= |s| && forall k :: i <= k < i + cnt ==> s[k] == v
  }

  function Fill(s: seq<bool>, i: nat, cnt: nat, v: bool): (r: seq<bool>)
    requires i + cnt <= |s|
    ensures |r| == |s|
    ensures forall k :: 0 <= k < |s| ==> r[k] == if i <= k < i + cnt then v else s[k]
  {
    s[..i] + seq(cnt, k => v) + s[i + cnt..]
  }

  function Scan(s: seq<bool>, start: nat, cnt: nat, v: bool): (r: Option<nat>)
    decreases |s| - start
  {
    if start + cnt > |s| then None
    else if Group(s, start, cnt, v) then Some(start)
    else Scan(s, start + 1, cnt, v)
  }

  /** Scan finds the first group, and None exactly when there is none. */
  lemma {:induction false} ScanIsFirst(s: seq<bool>, start: nat, cnt: nat, v: bool)
    ensures Scan(s, start, cnt, v) == None <==> forall i :: start <= i ==> !Group(s, i, cnt, v)
    ensures
      Scan(s, start, cnt, v).Some? ==>
        var i := Scan(s, start, cnt, v).value;
        start <= i && Group(s, i, cnt, v) && forall j :: start <= j < i ==> !Group(s, j, cnt, v)
    decreases |s| - start
  {
    if start + cnt <= |s| && !Group(s, start, cnt, v) {
      ScanIsFirst(s, start + 1, cnt, v);
    }
  }

  /** The cnt bits from n on are clear. */
  ghost predicate FreeRun(used: seq<bool>, n: nat, cnt: nat) {
    n + cnt <= |used| && forall j :: n <= j < n + cnt ==> !used[j]
  }

  /** And from no lower bit on are there as many. */
  ghost predicate LowestRun(used: seq<bool>, n: nat, cnt: nat) {
    FreeRun(used, n, cnt) && forall m: nat :: m < n ==> !FreeRun(used, m, cnt)
  }

  /** A scan for clear bits from the start finds the lowest run. */
  lemma LowestIsScan(used: seq<bool>, n: nat, cnt: nat)
    ensures Scan(used, 0, cnt, false) == Some(n) <==> LowestRun(used, n, cnt)
  {
    ScanIsFirst(used, 0, cnt, false);
    forall m: nat ensures FreeRun(used, m, cnt) <==> Group(used, m, cnt, false) {}
    hide Scan, FreeRun, Group;
  }

  /** Flipping a group back undoes the allocation. */
  lemma FillBack(s: seq<bool>, i: nat, cnt: nat, v: bool)
    requires Group(s, i, cnt, v)
    ensures Fill(Fill(s, i, cnt, !v), i, cnt, v) == s
  {
  }

  // ---------------------------------------------------------------- words

  /** elem_type, an unsigned long. */
  type Word = x: nat | x < 0x1_0000_0000

  /** bit_mask. */
  function Mask(idx: nat): (m: Word) {
    WordMask(idx % 32);
    Pow2(idx % 32)
  }

  lemma WordMask(i: nat)
    requires i < 32
    ensures Pow2(i) < 0x1_0000_0000
  {
    PowersOfTwo();
    PowGrows(i, 32);
  }

  /** The word after one instruction with the mask of bit idx. */
  function Operate(op: Op, w: Word, idx: nat): (r: Word) {
    PowersOfTwo();
    BitwiseRange(op, w, Mask(idx), 32);
    Bitwise(op, w, Mask(idx))
  }

  /** It touches that bit and no other. */
  lemma OperateBit(op: Op, w: Word, idx: nat, k: nat)
    ensures Bit(Operate(op, w, idx), k % 32) <==> Gate(op, Bit(w, k % 32), idx % 32 == k % 32)
  {
    hide Bitwise, Pow2;
    BitwiseBit(op, w, Mask(idx), k % 32);
    PowBit(idx % 32, k % 32);
  }

  /** Where a bit is: word and position determine it. */
  lemma SameBit(i: nat, j: nat)
    ensures i / 32 == j / 32 && i % 32 == j % 32 <==> i == j
  {
  }

  /** struct bitmap: cnt bits in an array of words. */
  class BitArray {
    const words: array<Word>
    const cnt: nat

    ghost predicate Valid() {
      cnt <= words.Length * 32
    }

    /** The bits. */
    ghost function View(): (s: seq<bool>)
      requires Valid()
      reads words
      ensures |s| == cnt
    {
      seq(cnt, k requires 0 <= k < cnt reads words => Bit(words[k / 32], k % 32))
    }

    /** bitmap_create: every bit false. */
    constructor (cnt: nat)
      ensures Valid() && this.cnt == cnt && fresh(words)
      ensures View() == seq(cnt, k => false)
    {
      this.cnt := cnt;
      words := new Word[(cnt + 31) / 32](k => 0);
      new;
      forall k | 0 <= k < cnt ensures !View()[k] {
        NoBits(k % 32);
      }
    }

    method Test(idx: nat) returns (r: bool)
      requires Valid() && idx < cnt
      ensures r == View()[idx]
    {
      AndPow(words[idx / 32], idx % 32);
      r := And(words[idx / 32], Mask(idx)) != 0;
    }

    method Mark(idx: nat)
      requires Valid() && idx < cnt
      modifies words
      ensures View() == old(View())[idx := true]
    {
      hide Bit, Operate;
      ghost var w := words[idx / 32];
      words[idx / 32] := Operate(OrOp, words[idx / 32], idx);
      forall k | 0 <= k < cnt ensures View()[k] == if k == idx then true else old(View())[k] {
        OperateBit(OrOp, w, idx, k);
        SameBit(k, idx);
      }
    }

    method Reset(idx: nat)
      requires Valid() && idx < cnt
      modifies words
      ensures View() == old(View())[idx := false]
    {
      hide Bit, Operate;
      ghost var w := words[idx / 32];
      words[idx / 32] := Operate(AndNotOp, words[idx / 32], idx);
      forall k | 0 <= k < cnt ensures View()[k] == if k == idx then false else old(View())[k] {
        OperateBit(AndNotOp, w, idx, k);
        SameBit(k, idx);
      }
    }

    method Flip(idx: nat)
      requires Valid() && idx < cnt
      modifies words
      ensures View() == old(View())[idx := !old(View())[idx]]
    {
      hide Bit, Operate;
      ghost var w := words[idx / 32];
      words[idx / 32] := Operate(XorOp, words[idx / 32], idx);
      forall k | 0 <= k < cnt ensures View()[k] == if k == idx then !old(View())[idx] else old(View())[k] {
        OperateBit(XorOp, w, idx, k);
        SameBit(k, idx);
      }
    }

    method Set(idx: nat, value: bool)
      requires Valid() && idx < cnt
      modifies words
      ensures View() == old(View())[idx := value]
    {
      if value {
        Mark(idx);
      } else {
        Reset(idx);
      }
    }

    method SetMultiple(start: nat, n: nat, value: bool)
      requires Valid() && start + n <= cnt
      modifies words
      ensures View() == Fill(old(View()), start, n, value)
    {
      hide View;
      var i := 0;
      while i < n
        invariant 0 <= i <= n && View() == Fill(old(View()), start, i, value)
      {
        Set(start + i, value);
        i := i + 1;
      }
    }

    method Count(start: nat, n: nat, value: bool) returns (r: nat)
      requires Valid() && start + n <= cnt
      ensures r == multiset(View()[start..start + n])[value]
    {
      hide View;
      r := 0;
      var i := 0;
      while i < n
        invariant 0 <= i <= n && r == multiset(View()[start..start + i])[value]
      {
        assert View()[start..start + i + 1] == View()[start..start + i] + [View()[start + i]];
        var t := Test(start + i);
        if t == value { r := r + 1; }
        i := i + 1;
      }
    }

    method Contains(start: nat, n: nat, value: bool) returns (r: bool)
      requires Valid() && start + n <= cnt
      ensures r <==> !Group(View(), start, n, !value)
    {
      hide View;
      var i := 0;
      while i < n
        invariant 0 <= i <= n && Group(View(), start, i, !value)
      {
        var t := Test(start + i);
        if t == value { return true; }
        i := i + 1;
      }
      return false;
    }

    method ScanBits(start: nat, n: nat, value: bool) returns (r: Option<nat>)
      requires Valid() && start <= cnt
      ensures r == Scan(View(), start, n, value)
    {
      hide View;
      if n <= cnt {
        var last := cnt - n;
        var i := start;
        while i <= last
          invariant start <= i <= cnt && Scan(View(), start, n, value) == Scan(View(), i, n, value)
        {
          var other := Contains(i, n, !value);
          if !other { return Some(i); }
          i := i + 1;
        }
      }
      return None;
    }

    method ScanAndFlip(start: nat, n: nat, value: bool) returns (r: Option<nat>)
      requires Valid() && start <= cnt
      modifies words
      ensures r == Scan(old(View()), start, n, value)
      ensures r.Some? ==> Group(old(View()), r.value, n, value) && View() == Fill(old(View()), r.value, n, !value)
      ensures r.None? ==> View() == old(View())
    {
      hide View;
      r := ScanBits(start, n, value);
      ScanIsFirst(View(), start, n, value);
      if r.Some? {
        SetMultiple(r.value, n, !value);
      }
    }
  }
}
