/** 64-bit division built from the 32-bit DIVL instruction (lib/arithmetic.c). */
module Arithmetic {

  const W31 := 0x8000_0000
  const W32 := 0x1_0000_0000
  const W63 := 0x8000_0000_0000_0000
  const W64 := 0x1_0000_0000_0000_0000

  type U32 = x: int | 0 <= x < W32
  type U64 = x: int | 0 <= x < W64
  type I64 = x: int | -W63 <= x < W63

  function Pow2(k: nat): (r: nat)
    ensures r > 0
  {
    if k == 0 then 1 else 2 * Pow2(k - 1)
  }

  /** The DIVL instruction.  Its precondition is the absence of the divide
      error: the verifier discharges it at every call. */
  function Divl(n: U64, d: U32): (q: U32)
    requires d != 0
    requires n / d < W32
  {
    n / d
  }

  // ---------------------------------------------------------------- nlz

  /** Number of leading zero bits, found by halving the window. */
  method Nlz(x0: U32) returns (n: nat)
    requires x0 != 0
    ensures n <= 31
    ensures W31 <= x0 * Pow2(n) < W32
  {
    var x: U32 := x0;
    n := 0;
    if x <= 0x0000FFFF {
      ShlBy(x0, x, n, 16, 0x10000);
      n := n + 16;
      x := x * 0x10000 % W32;
    }
    if x <= 0x00FFFFFF {
      ShlBy(x0, x, n, 8, 0x100);
      n := n + 8;
      x := x * 0x100 % W32;
    }
    if x <= 0x0FFFFFFF {
      ShlBy(x0, x, n, 4, 0x10);
      n := n + 4;
      x := x * 0x10 % W32;
    }
    if x <= 0x3FFFFFFF {
      ShlBy(x0, x, n, 2, 4);
      n := n + 2;
      x := x * 4 % W32;
    }
    if x <= 0x7FFFFFFF {
      ShlBy(x0, x, n, 1, 2);
      n := n + 1;
    }
    ShlIsProduct(x0, n);
  }

  /** x shifted left by k bits, one bit at a time. */
  function Shl(x: int, k: nat): (r: int) {
    if k == 0 then x else 2 * Shl(x, k - 1)
  }

  lemma {:induction false} ShlIsProduct(x: int, k: nat)
    ensures Shl(x, k) == x * Pow2(k)
  {
    if k > 0 { ShlIsProduct(x, k - 1); }
  }

  /** Shifting k more bits multiplies by p = 2^k. */
  lemma ShlBy(x0: int, x: int, n: nat, k: nat, p: int)
    requires x == Shl(x0, n) && 0 <= x
    requires (k == 1 && p == 2) || (k == 2 && p == 4) || (k == 4 && p == 16) || (k == 8 && p == 0x100)
             || (k == 16 && p == 0x10000)
    requires x * p < W32
    ensures Shl(x0, n + k) == x * p % W32 == x * p
  {
    ShlAdd(x0, n, k);
    ShlIsProduct(x, k);
    PowersOfTwo();
  }

  lemma {:induction false} ShlAdd(x: int, n: nat, k: nat)
    ensures Shl(x, n + k) == Shl(Shl(x, n), k)
  {
    if k > 0 { ShlAdd(x, n, k - 1); }
  }

  /** The count of leading zeros is determined by the normalisation bound. */
  lemma NlzUnique(x: U32, m: nat, n: nat)
    requires x != 0
    requires W31 <= x * Pow2(m) < W32
    requires W31 <= x * Pow2(n) < W32
    ensures m == n
  {
    if m < n {
      NlzNotBelow(x, m, n);
    } else if n < m {
      NlzNotBelow(x, n, m);
    }
  }

  lemma NlzNotBelow(x: U32, m: nat, n: nat)
    requires m < n
    requires W31 <= x * Pow2(m)
    ensures x * Pow2(n) >= W32
  {
    Pow2Add(m, n - m);
    Pow2AtLeastTwo(n - m);
    MulAssoc(x, Pow2(m), Pow2(n - m));
    MulMono(W31, x * Pow2(m), 2, Pow2(n - m));
  }

  // ------------------------------------------------------------- udiv64

  method Udiv64(n: U64, d: U64) returns (q: U64)
    requires d != 0
    ensures q == n / d
  {
    if d / W32 == 0 {
      q := NarrowQuotient(n, d);
    } else if n < d {
      DivUnique(n, d, 0);
      q := 0;
    } else {
      var d1: U32 := d / W32;
      var s := Nlz(d1);
      q := WideQuotient(n, d, s);
    }
  }

  /** Divisors below 2^32: one DIVL on the low half. */
  function NarrowQuotient(n: U64, d: U64): (q: U64)
    requires 0 < d < W32
    ensures q == n / d
  {
    var n1: U32 := n / W32;
    var n0: U32 := n % W32;
    var d0: U32 := d % W32;
    NarrowDivision(n, d);
    Divl(W32 * (n1 % d0) + n0, d0) + W32 * (n1 / d0)
  }

  /** Other divisors: one DIVL by the normalised divisor, then one correction. */
  function WideQuotient(n: U64, d: U64, s: nat): (q: U64)
    requires W32 <= d <= n && s <= 31
    requires W31 <= d / W32 * Pow2(s) < W32
    ensures q == n / d
  {
    WideDivision(n, d, s);
    var v1: U32 := d * Pow2(s) % W64 / W32;
    var e := Divl(n / 2, v1) / Pow2(31 - s);
    if TrialFits(n, d, e) then e - 1 else e
  }

  /** The comparison after the trial subtraction. */
  predicate TrialFits(n: U64, d: U64, e: int) {
    (n - (e - 1) * d) % W64 < d
  }

  /** Wide divisors: the shifted divisor fits, DIVL does not trap, the trial
      remainder does not wrap, and the comparison picks the quotient. */
  lemma WideDivision(n: U64, d: U64, s: nat)
    requires W32 <= d <= n
    requires s <= 31
    requires W31 <= d / W32 * Pow2(s) < W32
    ensures
      var v1 := d * Pow2(s) % W64 / W32;
      && W31 <= v1 < W32
      && 0 <= n / 2 / v1 < W32
      && var e := n / 2 / v1 / Pow2(31 - s);
      && n / d <= e <= n / d + 1
      && 1 <= e
      && n / d == (if TrialFits(n, d, e) then e - 1 else e)
      && 0 <= n / d < W64
  {
    hide Pow2;
    ShiftFits(d, s);
    SmallMod(d * Pow2(s), W64);
    var v1 := d * Pow2(s) / W32;
    EstimateTrapFree(n, v1);
    EstimateError(n, d, s);
    TrialPicks(n, d, n / 2 / v1 / Pow2(31 - s));
    QuotientFits(n, d);
  }

  lemma QuotientFits(n: U64, d: U64)
    requires 0 < d
    ensures 0 <= n / d < W64
  {
    DivBounds(n, d);
    MulMono(n / d, n / d, 1, d);
  }

  /** The comparison after the trial subtraction picks the quotient. */
  lemma TrialPicks(n: U64, d: U64, e: int)
    requires 0 < d <= n && n / d <= e <= n / d + 1
    ensures 1 <= e && n / d == if TrialFits(n, d, e) then e - 1 else e
  {
    TrialSubtraction(n, d, e);
    SmallMod(n - (e - 1) * d, W64);
  }

  /** Narrow divisors: schoolbook division in base 2^32, with the no-trap bound. */
  lemma NarrowDivision(n: U64, d: U32)
    requires d != 0
    ensures
      var m := W32 * (n / W32 % d) + n % W32;
      && 0 <= m < W64
      && 0 <= m / d < W32
      && n / d == m / d + W32 * (n / W32 / d)
      && 0 <= n / d < W64
  {
    var n1, n0 := n / W32, n % W32;
    var m := W32 * (n1 % d) + n0;
    var lo, hi := m / d, n1 / d;
    DivBounds(n1, d);
    DivBounds(m, d);
    DivBounds(n, d);
    CancelLt(lo, W32, d);
    assert (lo + W32 * hi) * d == lo * d + W32 * (hi * d);
    assert (lo + W32 * hi + 1) * d == (lo + 1) * d + W32 * (hi * d);
    DivUnique(n, d, lo + W32 * hi);
    MulMono(n / d, n / d, 1, d);
  }

  /** Normalising the divisor never shifts a one bit out. */
  lemma ShiftFits(d: U64, s: nat)
    requires s <= 31
    requires W31 <= d / W32 * Pow2(s) < W32
    ensures 0 <= d * Pow2(s) < W64
    ensures W31 <= d * Pow2(s) / W32 < W32
  {
    var p, k := Pow2(s), Pow2(32 - s);
    var d1, d0 := d / W32, d % W32;
    assert p * k == W32 by {
      Pow2Add(s, 32 - s);
      PowersOfTwo();
    }
    ShiftParts(d1, d0, p, k);
    assert d == d1 * W32 + d0;
  }

  lemma ShiftParts(d1: int, d0: int, p: int, k: int)
    requires 0 <= d1 && 0 <= d0 < W32 && 0 < p && 0 < k && p * k == W32
    requires W31 <= d1 * p < W32
    ensures W31 * W32 <= (d1 * W32 + d0) * p < W64
  {
    assert (d1 * W32 + d0) * p == d1 * p * W32 + d0 * p;
    // d1 * p is a multiple of p below p * k, so it is at most p * k - p
    CancelLt(d1, k, p);
    MulMono(d1, k - 1, p, p);
    assert (k - 1) * p == W32 - p;
    MulMono(d0, W32 - 1, p, p);
    MulMono(0, d0, 0, p);
  }

  /** The wide-divisor call of DIVL cannot trap either. */
  lemma EstimateTrapFree(n: U64, v: U32)
    requires v >= W31
    ensures 0 <= n / 2 / v < W32
  {
    DivBounds(n / 2, v);
    if n / 2 / v >= W32 {
      MulMono(W32, n / 2 / v, W31, v);
    }
  }

  /** The estimate is the true quotient or one above it. */
  lemma EstimateError(n: U64, d: U64, s: nat)
    requires W32 <= d <= n
    requires s <= 31
    requires W31 <= d / W32 * Pow2(s) < W32
    ensures
      var v1 := d * Pow2(s) / W32;
      v1 > 0 && n / d <= n / 2 / v1 / Pow2(31 - s) <= n / d + 1
  {
    ShiftFits(d, s);
    var v1 := d * Pow2(s) / W32;
    var h := Pow2(31 - s);
    TruncatedDivisor(d, s);
    assert Pow2(32 - s) == 2 * h;
    EstimateIsDivision(n, v1, h);
    QuotientGap(n, d, v1 * (2 * h), 2 * h, v1);
  }

  /** The two shifts and the DIVL together divide by v1 * 2h. */
  lemma EstimateIsDivision(n: int, v1: int, h: int)
    requires n >= 0 && v1 > 0 && h > 0
    ensures v1 * (2 * h) > 0
    ensures n / 2 / v1 / h == n / (v1 * (2 * h))
  {
    DivDiv(n, 2, v1);
    DivDiv(n, 2 * v1, h);
    assert 2 * v1 * h == v1 * (2 * h);
  }

  /** The divisor DIVL really uses is d with its low 32 - s bits cleared. */
  lemma TruncatedDivisor(d: U64, s: nat)
    requires W32 <= d && s <= 31
    ensures d - Pow2(32 - s) < d * Pow2(s) / W32 * Pow2(32 - s) <= d
  {
    var p, r := Pow2(32 - s), Pow2(s);
    Pow2Add(s, 32 - s);
    PowersOfTwo();
    assert r * p == W32;
    var v := d * r / W32;
    DivBounds(d * r, W32);
    // v * W32 <= d * r < (v + 1) * W32, with W32 == p * r: cancel r
    MulAssoc(v, p, r);
    MulAssoc(v + 1, p, r);
    CancelLe(v * p, d, r);
    CancelLt(d, (v + 1) * p, r);
    assert (v + 1) * p == v * p + p;
  }

  /** Dividing by a slightly smaller D overshoots by at most one. */
  lemma QuotientGap(n: U64, d: U64, D: int, p: int, v: int)
    requires D == v * p && v >= W31 && p >= 2
    requires d - p < D <= d && 0 < d <= n
    ensures D > 0
    ensures n / d <= n / D <= n / d + 1
  {
    MulMono(W31, v, 2, p);
    var q, e := n / d, n / D;
    DivBounds(n, d);
    DivBounds(n, D);
    // lower bound: q * D <= q * d <= n < (e + 1) * D
    MulMono(q, q, D, d);
    assert q * D < (e + 1) * D;
    CancelLt(q, e + 1, D);
    // upper bound: suppose e >= q + 2; then (q + 2) * D <= n < (q + 1) * d
    if e >= q + 2 {
      MulMono(q + 2, e, D, D);
      assert (q + 2) * D == (q + 1) * D + D;
      assert (q + 1) * d - (q + 1) * D == (q + 1) * (d - D);
      MulMono(q + 1, q + 1, d - D, p - 1);
      assert D < (q + 1) * (p - 1);
      // but (q + 1) * D <= n < 2^64 makes (q + 1) * (p - 1) too small
      Overshoot(n, D, p, v, q + 1);
      assert false;
    }
  }

  lemma Overshoot(n: U64, D: int, p: int, v: int, k: int)
    requires D == v * p && v >= W31 && p >= 2 && k >= 1
    requires k * D <= n
    ensures k * (p - 1) <= D
  {
    // D * D >= (2^31 p)^2 == 2^62 p^2 >= 2^64 (p - 1) >= k * D * (p - 1)
    MulMono(W31, v, p, p);
    MulMono(W31 * p, D, W31 * p, D);
    assert (W31 * p) * (W31 * p) == 0x4000_0000_0000_0000 * (p * p);
    assert p * p >= 4 * (p - 1) by { assert (p - 2) * (p - 2) >= 0; }
    MulMono(k * D, W64 - 1, p - 1, p - 1);
    assert (k * (p - 1)) * D == (k * D) * (p - 1);
    CancelLe(k * (p - 1), D, D);
  }

  /** The one trial subtraction decides between the two candidates, and its
      64-bit arithmetic does not wrap. */
  lemma TrialSubtraction(n: U64, d: U64, e: int)
    requires 0 < d <= n
    requires n / d <= e <= n / d + 1
    ensures 1 <= e && 0 <= n - (e - 1) * d < W64
    ensures n / d == if n - (e - 1) * d < d then e - 1 else e
  {
    var q := n / d;
    DivBounds(n, d);
    if q == 0 { assert false; }
    if e == q {
      assert (e - 1) * d == q * d - d;
    } else {
      assert (e - 1) * d == q * d;
    }
    MulMono(0, e - 1, 0, d);
  }

  // ------------------------------------------------ the other entry points

  /** The 64-bit remainder, returned through a 32-bit type. */
  method Umod64(n: U64, d: U64) returns (r: U32)
    requires d != 0
    ensures r == n % d % W32
  {
    var q := Udiv64(n, d);
    DivBounds(n, d);
    MulAssoc(d, q, 1);
    r := (n - d * q) % W64 % W32;
  }

  /** The narrow return type is harmless for every dividend exactly when the
      divisor is at most 2^32. */
  lemma Umod64Exact(d: U64)
    requires d != 0
    ensures (forall n: U64 :: n % d % W32 == n % d) <==> d <= W32
  {
    if d > W32 {
      var n: U64 := W32;
      SmallMod(n, d);
      assert n % d % W32 == 0;
    } else {
      forall n: U64 ensures n % d % W32 == n % d {
        SmallMod(n % d, W32);
      }
    }
  }

  /** C division: truncation toward zero. */
  function Trunc(n: int, d: int): (q: int)
    requires d != 0
  {
    if (n < 0) == (d < 0) then Abs(n) / Abs(d) else -(Abs(n) / Abs(d))
  }

  function Abs(x: int): (r: int) { if x < 0 then -x else x }

  /** Two's-complement reading of a 64-bit pattern. */
  function AsI64(x: int): (r: I64)
    ensures (r - x) % W64 == 0
  {
    var m := x % W64;
    if m < W63 then m else m - W64
  }

  method Sdiv64(n: I64, d: I64) returns (q: I64)
    requires d != 0
    ensures q == AsI64(Trunc(n, d))
    ensures q == Trunc(n, d) <==> !(n == -W63 && d == -1)
  {
    var nAbs: U64 := if n >= 0 then n else -(n % W64) % W64;
    var dAbs: U64 := if d >= 0 then d else -(d % W64) % W64;
    UnsignedAbs(n);
    UnsignedAbs(d);
    var qAbs := Udiv64(nAbs, dAbs);
    QuotientAbs(n, d);
    SignedPattern(qAbs);
    var signed: int := AsI64(qAbs);
    q := if (n < 0) == (d < 0) then signed else AsI64(-signed);
  }

  /** Negating the unsigned pattern of a negative value gives its magnitude. */
  lemma UnsignedAbs(x: I64)
    ensures (if x >= 0 then x else -(x % W64) % W64) == Abs(x)
  {
    if x < 0 {
      assert x % W64 == x + W64;
    }
  }

  /** Reading a quotient pattern as signed, and negating it with wrap-around. */
  lemma SignedPattern(q: int)
    requires 0 <= q <= W63
    ensures AsI64(q) == if q == W63 then -W63 else q
    ensures AsI64(-(AsI64(q) as int)) == -q == AsI64(-q)
  {
  }

  /** A quotient of two signed values overflows in one case only. */
  lemma QuotientAbs(n: I64, d: I64)
    requires d != 0
    ensures 0 <= Abs(n) / Abs(d) <= W63
    ensures Abs(n) / Abs(d) == W63 <==> n == -W63 && Abs(d) == 1
  {
    var q := Abs(n) / Abs(d);
    DivBounds(Abs(n), Abs(d));
    MulMono(q, q, 1, Abs(d));
    if Abs(d) >= 2 {
      MulMono(q, q, 2, Abs(d));
    } else {
      DivUnique(Abs(n), 1, Abs(n));
    }
  }

  // ------------------------------------------------------ arithmetic tools

  lemma PowersOfTwo()
    ensures Pow2(1) == 2 && Pow2(2) == 4 && Pow2(4) == 16
    ensures Pow2(8) == 0x100 && Pow2(16) == 0x10000 && Pow2(24) == 0x1000000
    ensures Pow2(32) == W32
  {
    assert Pow2(4) == 16;
    Pow2Add(4, 4);
    Pow2Add(8, 8);
    Pow2Add(16, 8);
    Pow2Add(16, 16);
  }

  lemma {:induction false} Pow2Add(a: nat, b: nat)
    ensures Pow2(a + b) == Pow2(a) * Pow2(b)
  {
    if b > 0 { Pow2Add(a, b - 1); }
  }

  lemma {:induction false} Pow2AtLeastTwo(k: nat)
    requires k > 0
    ensures Pow2(k) >= 2
  {
  }

  lemma DivBounds(n: int, d: int)
    requires d > 0
    ensures n / d * d <= n < (n / d + 1) * d
    ensures n >= 0 ==> n / d >= 0
    ensures n % d == n - d * (n / d)
  {
  }

  lemma SmallMod(n: int, d: int)
    requires 0 <= n < d
    ensures n % d == n
  {
  }

  lemma DivUnique(n: int, d: int, q: int)
    requires d > 0
    requires q * d <= n < (q + 1) * d
    ensures n / d == q
  {
    DivBounds(n, d);
    CancelLt(q, n / d + 1, d);
    CancelLt(n / d, q + 1, d);
  }

  lemma DivDiv(n: int, a: int, b: int)
    requires n >= 0 && a > 0 && b > 0
    ensures a * b > 0 && n / (a * b) == n / a / b
  {
    MulMono(1, a, 1, b);
    var x := n / a;
    var y := x / b;
    DivBounds(n, a);
    DivBounds(x, b);
    MulMono(y * b, x, a, a);
    MulMono(x + 1, (y + 1) * b, a, a);
    MulAssoc(y, b, a);
    MulAssoc(y + 1, b, a);
    assert b * a == a * b;
    DivUnique(n, a * b, y);
  }

  lemma MulMono(a: int, b: int, c: int, d: int)
    requires 0 <= a <= b && 0 <= c <= d
    ensures a * c <= b * d
  {
    assert b * d - a * c == (b - a) * d + a * (d - c);
    assert (b - a) * d >= 0;
    assert a * (d - c) >= 0;
  }

  lemma MulAssoc(a: int, b: int, c: int)
    ensures (a * b) * c == a * (b * c)
  {
  }

  lemma CancelLe(a: int, b: int, c: int)
    requires c > 0 && a * c <= b * c
    ensures a <= b
  {
    assert (b - a) * c == b * c - a * c;
    if b - a < 0 { MulMono(1, a - b, 1, c); }
  }

  lemma CancelLt(a: int, b: int, c: int)
    requires c > 0 && a * c < b * c
    ensures a < b
  {
    assert (b - a) * c == b * c - a * c;
    if b - a <= 0 { MulMono(0, a - b, 0, c); }
  }
}
