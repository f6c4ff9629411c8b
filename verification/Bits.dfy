/** Bitwise operations on naturals, bit by bit; and the two tricks that
    lib/kernel/hash.c plays with AND: masking by 2^k - 1 and turning off the
    lowest 1 bit. */
module Bits {
  import opened Arithmetic

  function And(x: nat, y: nat): (r: nat)
    decreases x
  {
    if x == 0 || y == 0 then 0 else (if x % 2 == 1 && y % 2 == 1 then 1 else 0) + 2 * And(x / 2, y / 2)
  }

  lemma {:induction false} AndSelf(x: nat)
    ensures And(x, x) == x
  {
    if x > 0 { AndSelf(x / 2); }
  }

  lemma HalfMod(x: nat, m: nat)
    requires m > 0
    ensures x % (2 * m) == x % 2 + 2 * (x / 2 % m)
  {
    var h := x / 2;
    DivBounds(h, m);
    var q, r := h / m, h % m;
    assert h == m * q + r;
    assert x == 2 * h + x % 2;
    assert x == 2 * (m * q) + (2 * r + x % 2);
    MulAssoc(2, m, q);
    assert 0 <= 2 * r + x % 2 < 2 * m;
    assert q * (2 * m) == 2 * m * q;
    DivUnique(x, 2 * m, q);
    DivBounds(x, 2 * m);
  }

  /** Masking by 2^k - 1 is the remainder by 2^k. */
  lemma {:induction false} AndMask(x: nat, k: nat)
    ensures And(x, Pow2(k) - 1) == x % Pow2(k)
    decreases k
  {
    if k > 0 {
      var m := Pow2(k - 1);
      assert Pow2(k) == 2 * m;
      AndMask(x / 2, k - 1);
      HalfMod(x, m);
      assert (2 * m - 1) % 2 == 1 && (2 * m - 1) / 2 == m - 1;
      if x == 0 {
        SmallMod(0, 2 * m);
      }
    }
  }

  /** turn_off_least_1bit. */
  function TurnOff(x: nat): (r: nat)
    requires x > 0
  {
    And(x, x - 1)
  }

  lemma TurnOffStep(x: nat)
    requires x > 0
    ensures TurnOff(x) == if x % 2 == 1 then x - 1 else 2 * TurnOff(x / 2)
  {
    if x % 2 == 1 {
      AndSelf(x / 2);
      assert (x - 1) / 2 == x / 2;
    } else {
      assert (x - 1) / 2 == x / 2 - 1;
    }
  }

  ghost predicate IsPow2(x: nat) {
    exists k: nat :: Pow2(k) == x
  }

  lemma DoublePow2(x: nat)
    requires x > 0
    ensures IsPow2(2 * x) <==> IsPow2(x)
  {
    if IsPow2(x) {
      var k: nat :| Pow2(k) == x;
      assert Pow2(k + 1) == 2 * x;
    }
    if IsPow2(2 * x) {
      var k: nat :| Pow2(k) == 2 * x;
      assert Pow2(k - 1) == x;
    }
  }

  lemma OddPow2(x: nat)
    requires x % 2 == 1
    ensures IsPow2(x) <==> x == 1
  {
    if IsPow2(x) {
      var k: nat :| Pow2(k) == x;
      assert k > 0 ==> Pow2(k) == 2 * Pow2(k - 1);
    }
    assert Pow2(0) == 1;
  }

  /** is_power_of_2 is right: turning off the lowest bit leaves nothing exactly
      for the powers of two. */
  lemma {:induction false} PowerTest(x: nat)
    requires x > 0
    ensures TurnOff(x) == 0 <==> IsPow2(x)
  {
    TurnOffStep(x);
    if x % 2 == 1 {
      OddPow2(x);
    } else {
      PowerTest(x / 2);
      DoublePow2(x / 2);
    }
  }

  /** The highest 1 bit survives while any lower one is left. */
  lemma {:induction false} TopSurvives(x: nat, k: nat)
    requires Pow2(k) <= x < 2 * Pow2(k) && TurnOff(x) != 0
    ensures Pow2(k) <= TurnOff(x) < x
    decreases k
  {
    TurnOffStep(x);
    if x % 2 == 1 {
      assert k == 0 ==> x == 1;
      assert Pow2(k) == 2 * Pow2(k - 1);
    } else if k > 0 {
      assert Pow2(k) == 2 * Pow2(k - 1);
      TopSurvives(x / 2, k - 1);
    }
  }

  lemma {:induction false} TopBit(x: nat) returns (k: nat)
    requires x > 0
    ensures Pow2(k) <= x < 2 * Pow2(k)
  {
    if x == 1 {
      k := 0;
    } else {
      k := TopBit(x / 2);
      k := k + 1;
    }
  }

  /** The loop of rehash: the largest power of two not above n. */
  method FloorPow2(n: nat) returns (p: nat)
    requires n > 0
    ensures IsPow2(p) && p <= n < 2 * p
  {
    p := n;
    ghost var k := TopBit(n);
    while TurnOff(p) != 0
      invariant Pow2(k) <= p <= n < 2 * Pow2(k)
      decreases p
    {
      TopSurvives(p, k);
      p := TurnOff(p);
    }
    PowerTest(p);
    PowBetween(p, k);
  }

  lemma PowBetween(p: nat, k: nat)
    requires IsPow2(p) && Pow2(k) <= p < 2 * Pow2(k)
    ensures p == Pow2(k)
  {
    var j: nat :| Pow2(j) == p;
    if j > k {
      PowGrows(k, j);
    } else if j < k {
      PowGrows(j, k);
    }
  }

  lemma {:induction false} PowGrows(j: nat, k: nat)
    requires j < k
    ensures 2 * Pow2(j) <= Pow2(k)
    decreases k
  {
    if j < k - 1 { PowGrows(j, k - 1); }
  }

  // ------------------------------------------------------------ single bits

  /** Bit number j of x. */
  predicate Bit(x: nat, j: nat) {
    if j == 0 then x % 2 == 1 else Bit(x / 2, j - 1)
  }

  datatype Op = OrOp | AndNotOp | XorOp

  predicate Gate(op: Op, a: bool, b: bool) {
    match op
    case OrOp => a || b
    case AndNotOp => a && !b
    case XorOp => a != b
  }

  /** The ORL, ANDL (with the complement) and XORL instructions. */
  function Bitwise(op: Op, x: nat, y: nat): (r: nat)
    decreases x + y
  {
    if x == 0 && y == 0 then 0
    else (if Gate(op, x % 2 == 1, y % 2 == 1) then 1 else 0) + 2 * Bitwise(op, x / 2, y / 2)
  }

  lemma {:induction false} NoBits(j: nat)
    ensures !Bit(0, j)
  {
    if j > 0 { NoBits(j - 1); }
  }

  /** Each result bit depends on the operands' bits of that number only. */
  lemma {:induction false} BitwiseBit(op: Op, x: nat, y: nat, j: nat)
    ensures Bit(Bitwise(op, x, y), j) <==> Gate(op, Bit(x, j), Bit(y, j))
    decreases j
  {
    NoBits(j);
    if x != 0 || y != 0 {
      var r := Bitwise(op, x, y);
      assert r / 2 == Bitwise(op, x / 2, y / 2) && (r % 2 == 1 <==> Gate(op, x % 2 == 1, y % 2 == 1));
      if j > 0 { BitwiseBit(op, x / 2, y / 2, j - 1); }
    }
  }

  /** Words stay words. */
  lemma {:induction false} BitwiseRange(op: Op, x: nat, y: nat, k: nat)
    requires x < Pow2(k) && y < Pow2(k)
    ensures Bitwise(op, x, y) < Pow2(k)
    decreases k
  {
    if k > 0 { BitwiseRange(op, x / 2, y / 2, k - 1); }
  }

  lemma {:induction false} PowBit(i: nat, j: nat)
    ensures Bit(Pow2(i), j) <==> i == j
    decreases j
  {
    if i == 0 {
      assert Pow2(0) == 1;
      if j > 0 { NoBits(j - 1); }
    } else {
      assert Pow2(i) == 2 * Pow2(i - 1);
      if j > 0 { PowBit(i - 1, j - 1); }
    }
  }

  /** Testing a word against a mask tests that bit. */
  lemma {:induction false} AndPow(x: nat, i: nat)
    ensures And(x, Pow2(i)) != 0 <==> Bit(x, i)
    decreases i
  {
    NoBits(i);
    if i > 0 {
      assert Pow2(i) == 2 * Pow2(i - 1);
      if x != 0 { AndPow(x / 2, i - 1); }
    } else {
      assert Pow2(0) == 1 && And(x / 2, 0) == 0;
    }
  }
}
