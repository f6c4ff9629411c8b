/** The multi-level feedback queue scheduler's arithmetic: the 17.14
    fixed-point updates of load_avg, recent_cpu and priority. */
module Mlfqs {
  import opened Prelude
  import opened Arithmetic

  const F := 16384
  const PRI_MAX := 63

  // ----------------------------------------------------- the three formulas

  function LoadNext(load: int, ready: int): (r: int) {
    Trunc(59 * load + ready * F, 60)
  }

  function Coeff(load: nat): (r: int) {
    Trunc(2 * load * F, 2 * load + F)
  }

  function RecentNext(load: nat, recent: int, nice: int): (r: int) {
    Trunc(Coeff(load) * recent, F) + nice * F
  }

  function Raw(recent: int, nice: int): (r: int) {
    Trunc(PRI_MAX * F - Trunc(recent, 4) - 2 * nice * F, F)
  }

  function PriorityOf(recent: int, nice: int): (r: int) {
    var p := Raw(recent, nice);
    if p > PRI_MAX then PRI_MAX else if p < 0 then 0 else p
  }

  // ----------------------------------------------------- truncating division

  lemma TruncSpec(n: int, d: int)
    requires d > 0
    ensures n >= 0 ==> 0 <= Trunc(n, d) * d <= n < Trunc(n, d) * d + d
    ensures n < 0 ==> Trunc(n, d) * d - d < n <= Trunc(n, d) * d <= 0
  {
    var q := Abs(n) / d;
    DivBounds(Abs(n), d);
    MulMono(0, q, 0, d);
    assert (q + 1) * d == q * d + d && (-q) * d == -(q * d);
  }

  lemma TruncWithin(n: int, d: int, lo: int, hi: int)
    requires d > 0 && lo * d <= n <= hi * d
    ensures lo <= Trunc(n, d) <= hi
  {
    var q := Trunc(n, d);
    TruncSpec(n, d);
    assert (q + 1) * d == q * d + d && (q - 1) * d == q * d - d;
    if n >= 0 {
      CancelLe(q, hi, d);
      CancelLt(lo, q + 1, d);
    } else {
      CancelLe(lo, q, d);
      CancelLt(q - 1, hi, d);
    }
  }

  // --------------------------------------------------------------- ranges

  /** With at most n threads ready, load_avg stays in [0, n]. */
  lemma LoadBounded(load: int, ready: int, n: nat)
    requires 0 <= load <= n * F && 0 <= ready <= n
    ensures 0 <= LoadNext(load, ready) <= n * F
  {
    TruncWithin(59 * load + ready * F, 60, 0, n * F);
  }

  /** The decay coefficient is at most 2n / (2n + 1). */
  lemma CoeffBounded(load: nat, n: nat)
    requires load <= n * F
    ensures 0 <= Coeff(load) <= F && Coeff(load) * (2 * n + 1) <= 2 * n * F
  {
    var c, d := Coeff(load), 2 * load + F;
    assert F * d == 2 * load * F + F * F;
    TruncWithin(2 * load * F, d, 0, F);
    TruncSpec(2 * load * F, d);
    assert c * d == 2 * load * c + c * F;
    MulMono(load, n * F, F - c, F - c);
    assert n * F * (F - c) == (n * F - n * c) * F;
    assert c * F <= 2 * (n * F - n * c) * F;
    assert c * (2 * n + 1) == 2 * (n * c) + c;
  }

  lemma Decayed(c: int, r: int, n: nat, k: nat)
    requires 0 <= c && c * (2 * n + 1) <= 2 * n * F
    requires r <= k * (2 * n + 1) * F
    ensures c * r <= 2 * n * k * F * F
  {
    var m := c * (2 * n + 1);
    assert c * (k * (2 * n + 1) * F - r) >= 0;
    assert c * (k * (2 * n + 1) * F - r) == c * (k * (2 * n + 1) * F) - c * r;
    assert c * (k * (2 * n + 1) * F) == m * k * F;
    MulMono(m, 2 * n * F, k, k);
    assert 2 * n * F * k == 2 * n * k * F;
  }

  /** A second's decay undoes a second's growth: 120 (2n + 1) shrinks to
      240 n + 20, to which 100 ticks can be added again. */
  lemma RecentBounded(load: nat, recent: int, nice: int, n: nat)
    requires load <= n * F && -20 <= nice <= 20
    requires -20 * (2 * n + 1) * F <= recent <= 120 * (2 * n + 1) * F
    ensures -20 * (2 * n + 1) * F <= RecentNext(load, recent, nice) <= (240 * n + 20) * F
  {
    var c := Coeff(load);
    CoeffBounded(load, n);
    Decayed(c, recent, n, 120);
    Decayed(c, -recent, n, 20);
    assert c * (-recent) == -(c * recent);
    TruncWithin(c * recent, F, -40 * n * F, 240 * n * F);
  }

  // ------------------------------------------------------------ exactness

  /** Truncation loses at most 59 units in the last place of the load average,
      however long it runs: the decay eats the accumulated error. */
  lemma LoadError(load: nat, exact: real, ready: nat)
    requires 0.0 <= exact * F as real - load as real <= 59.0
    ensures
      var next := (59.0 * exact + ready as real) / 60.0;
      0.0 <= next * F as real - LoadNext(load, ready) as real <= 59.0
  {
    var l := LoadNext(load, ready);
    TruncSpec(59 * load + ready * F, 60);
    assert 60 * l <= 59 * load + ready * F <= 60 * l + 59;
    var next := (59.0 * exact + ready as real) / 60.0;
    assert 60.0 * next == 59.0 * exact + ready as real;
  }

  /** One decay of recent_cpu is within 1 + |recent| / F of the exact
      2 load / (2 load + 1) * recent + nice; both sides here are multiplied by
      F d, where d = 2 load + F. */
  lemma RecentError(load: nat, recent: int, nice: int)
    ensures
      var d := 2 * load + F;
      Abs(F * d * (RecentNext(load, recent, nice) - nice * F) - 2 * load * F * recent) <= (F + Abs(recent)) * d
  {
    hide Trunc;
    var c, d := Coeff(load), 2 * load + F;
    var q := Trunc(c * recent, F);
    TruncSpec(2 * load * F, d);
    TruncSpec(c * recent, F);
    var e, g := 2 * load * F - c * d, c * recent - q * F;
    calc {
      F * d * q - 2 * load * F * recent;
      d * (q * F) - (e + c * d) * recent;
      d * (c * recent - g) - e * recent - c * d * recent;
      { MulAssoc(c, d, recent); MulAssoc(d, c, recent); }
      -(d * g) - e * recent;
    }
    SumBound(e, recent, d, g);
  }

  lemma SumBound(e: int, r: int, d: int, g: int)
    requires 0 <= e < d && Abs(g) <= F
    ensures Abs(-(d * g) - e * r) <= (F + Abs(r)) * d
  {
    MulMono(e, d, Abs(r), Abs(r));
    MulMono(d, d, Abs(g), F);
    assert Abs(e * r) == e * Abs(r) && Abs(d * g) == d * Abs(g);
    assert (F + Abs(r)) * d == d * F + d * Abs(r);
  }

  /** Before clamping, the priority is within 1 + 1 / F of
      63 - recent / 4 - 2 nice. */
  lemma PriorityError(recent: int, nice: int)
    ensures -(4 * F + 4) < 4 * F * Raw(recent, nice) - (4 * PRI_MAX * F - recent - 8 * nice * F) < 4 * F + 4
  {
    TruncSpec(recent, 4);
    TruncSpec(PRI_MAX * F - Trunc(recent, 4) - 2 * nice * F, F);
  }

  lemma TruncMonotone(m: int, n: int, d: int)
    requires m <= n && d > 0
    ensures Trunc(m, d) <= Trunc(n, d)
  {
    hide Trunc;
    TruncSpec(m, d);
    TruncSpec(n, d);
    var p, q := Trunc(m, d), Trunc(n, d);
    if m >= 0 {
      assert (q + 1) * d == q * d + d;
      CancelLt(p, q + 1, d);
    } else if n < 0 {
      assert (p - 1) * d == p * d - d;
      CancelLt(p - 1, q, d);
    } else {
      CancelLe(p, q, d);
    }
  }

  /** More CPU time or more niceness never raises the priority, which stays
      between PRI_MIN and PRI_MAX. */
  lemma PriorityAntitone(r1: int, r2: int, n1: int, n2: int)
    requires r1 <= r2 && n1 <= n2
    ensures PRI_MAX >= PriorityOf(r1, n1) >= PriorityOf(r2, n2) >= 0
  {
    TruncMonotone(r1, r2, 4);
    TruncMonotone(PRI_MAX * F - Trunc(r2, 4) - 2 * n2 * F, PRI_MAX * F - Trunc(r1, 4) - 2 * n1 * F, F);
  }
}
