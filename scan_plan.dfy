/**
 * Host-side planning of the two-level prefix sum (src/frnn/prefix_sum.c):
 * power-of-two rounding and the padded length / work-group count that
 * `prefix_sum_elems_ceil` computes from the device's maximum work-group size W.
 */
module ScanPlan {

  function Pow2(e: nat): (r: nat)
    ensures r >= 1
  {
    if e == 0 then 1 else 2 * Pow2(e - 1)
  }

  ghost predicate IsPow2(p: nat)
  {
    exists e: nat :: Pow2(e) == p
  }

  /** Index of the highest set bit of x >= 1. */
  function Log2(x: nat): nat
    requires x >= 1
  {
    if x == 1 then 0 else 1 + Log2(x / 2)
  }

  lemma {:induction false} Log2Bounds(x: nat)
    requires x >= 1
    ensures Pow2(Log2(x)) <= x < Pow2(Log2(x) + 1)
  {
    if x > 1 {
      Log2Bounds(x / 2);
    }
  }

  lemma {:induction false} Pow2Monotone(a: nat, b: nat)
    requires a <= b
    ensures Pow2(a) <= Pow2(b)
  {
    if a < b {
      Pow2Monotone(a, b - 1);
    }
  }

  /** `__builtin_clz` on a non-zero 32-bit word: leading zero bits. */
  function Clz32(x: nat): (r: nat)
    requires 1 <= x < 0x1_0000_0000
    ensures r <= 31
    ensures Pow2(31 - r) <= x < Pow2(32 - r)
  {
    Log2Below32(x);
    31 - Log2(x)
  }

  lemma Log2Below32(x: nat)
    requires 1 <= x < 0x1_0000_0000
    ensures Log2(x) <= 31
    ensures Pow2(Log2(x)) <= x < Pow2(Log2(x) + 1)
  {
    Log2Bounds(x);
    if Log2(x) >= 32 {
      Pow2Monotone(32, Log2(x));
      Pow2Of32();
    }
  }

  lemma Pow2Of32()
    ensures Pow2(30) == 0x4000_0000
    ensures Pow2(32) == 0x1_0000_0000
  {
    assert Pow2(4) == 16;
    Pow2Add(4, 4);
    assert Pow2(8) == 256;
    Pow2Add(8, 8);
    assert Pow2(16) == 0x1_0000;
    Pow2Add(16, 16);
    assert Pow2(32) == 0x1_0000_0000;
    assert Pow2(32) == 2 * Pow2(31) && Pow2(31) == 2 * Pow2(30);
  }

  lemma {:induction false} Pow2Add(a: nat, b: nat)
    ensures Pow2(a + b) == Pow2(a) * Pow2(b)
  {
    if b > 0 {
      Pow2Add(a, b - 1);
      assert Pow2(a + b) == 2 * Pow2(a + b - 1);
    }
  }

  /**
   * `next_pot`: msb := 31 - clz(in - 1), result 1 << (msb + 1), with 32-bit clz.
   * Defined for 2 <= in <= 2^30 (clz(0) is undefined; a larger input shifts into
   * the sign bit of `int`).
   */
  function NextPot(n: nat): (r: nat)
    requires 2 <= n <= 0x4000_0000
    ensures IsPow2(r)
    ensures n <= r < 2 * n
  {
    var msb := 31 - Clz32(n - 1);
    Log2Bounds(n - 1);
    Pow2(msb + 1)
  }

  /** NextPot is the least power of two that is at least n. */
  lemma NextPotLeast(n: nat, e: nat)
    requires 2 <= n <= 0x4000_0000
    requires Pow2(e) >= n
    ensures NextPot(n) <= Pow2(e)
  {
    var l := Log2(n - 1);
    Log2Bounds(n - 1);
    assert NextPot(n) == Pow2(l + 1);
    if e <= l {
      Pow2Monotone(e, l);
      assert false;
    }
    Pow2Monotone(l + 1, e);
  }

  /** work_groups = ceil((elems / 2) / W). */
  function WorkGroups(elems: nat, w: nat): nat
    requires w >= 1
  {
    ((elems / 2) + w - 1) / w
  }

  /** The ceiling meaning of WorkGroups: enough groups of W threads for elems/2 threads, and no more. */
  lemma WorkGroupsIsCeil(elems: nat, w: nat)
    requires w >= 1
    ensures WorkGroups(elems, w) * w >= elems / 2
    ensures WorkGroups(elems, w) == 0 || (WorkGroups(elems, w) - 1) * w < elems / 2
  {
    var h := elems / 2;
    var g := WorkGroups(elems, w);
    assert h + w - 1 == g * w + (h + w - 1) % w;
  }

  /** The inputs prefix_sum_elems_ceil accepts: next_pot's domain in the single-group branch. */
  ghost predicate PlanDomain(elems: nat, w: nat)
  {
    2 <= elems && 1 <= w && (WorkGroups(elems, w) <= 1 ==> elems <= 0x4000_0000)
  }

  datatype Plan = Plan(elemsCeil: nat, workGroups: nat)

  /** `prefix_sum_elems_ceil`: padded length and work-group count. */
  function ElemsCeil(elems: nat, w: nat): (p: Plan)
    requires PlanDomain(elems, w)
    ensures p.workGroups == WorkGroups(elems, w)
  {
    var wg := WorkGroups(elems, w);
    if wg > 1 then Plan(2 * wg * w, wg) else Plan(NextPot(elems), wg)
  }

  /** Multi-group plans pad to a whole number of blocks of 2W elements, one per work group. */
  lemma MultiGroupBlocks(elems: nat, w: nat)
    requires PlanDomain(elems, w) && WorkGroups(elems, w) > 1
    ensures ElemsCeil(elems, w).elemsCeil % (2 * w) == 0
    ensures ElemsCeil(elems, w).elemsCeil / (2 * w) == WorkGroups(elems, w)
  {
    var wg := WorkGroups(elems, w);
    assert ElemsCeil(elems, w).elemsCeil == wg * (2 * w) + 0;
    DivPlusSmall(wg, 2 * w, 0);
  }

  /** Single-group plans pad to the next power of two of elems. */
  lemma SingleGroupPow2(elems: nat, w: nat)
    requires PlanDomain(elems, w) && WorkGroups(elems, w) <= 1
    ensures IsPow2(ElemsCeil(elems, w).elemsCeil)
    ensures elems <= ElemsCeil(elems, w).elemsCeil < 2 * elems
  {
  }

  /** The padded length covers every element when elems is even, or when one group suffices. */
  lemma PaddedCovers(elems: nat, w: nat)
    requires PlanDomain(elems, w)
    requires elems % 2 == 0 || WorkGroups(elems, w) <= 1
    ensures ElemsCeil(elems, w).elemsCeil >= elems
  {
    WorkGroupsIsCeil(elems, w);
    if WorkGroups(elems, w) > 1 {
      assert 2 * (WorkGroups(elems, w) * w) >= 2 * (elems / 2);
    }
  }

  /** For odd elems = 2kW + 1 with k >= 2 the padded length falls one short. */
  lemma OddShortfall(k: nat, w: nat)
    requires k >= 2 && w >= 1
    ensures PlanDomain(2 * k * w + 1, w)
    ensures ElemsCeil(2 * k * w + 1, w).elemsCeil == 2 * k * w
  {
    var elems := 2 * k * w + 1;
    assert elems / 2 == k * w;
    assert (k * w + w - 1) / w == k by {
      assert k * w + w - 1 == k * w + (w - 1);
      DivPlusSmall(k, w, w - 1);
    }
  }

  lemma {:induction false} DivPlusSmall(q: nat, d: nat, r: nat)
    requires d >= 1 && r < d
    ensures (q * d + r) / d == q
    ensures (q * d + r) % d == r
  {
    var n := q * d + r;
    DivModUnique(d, n / d, n % d, q, r);
  }

  /** Euclidean division has one quotient and one remainder. */
  lemma DivModUnique(d: nat, x: nat, y: nat, x': nat, y': nat)
    requires d >= 1 && y < d && y' < d
    requires d * x + y == d * x' + y'
    ensures x == x' && y == y'
  {
    if x > x' {
      MulStep(d, x', x - x');
    } else if x < x' {
      MulStep(d, x, x' - x);
    }
  }

  lemma {:induction false} MulStep(d: nat, a: nat, k: nat)
    ensures d * (a + k) == d * a + d * k
    ensures k >= 1 ==> d * k >= d
  {
    if k > 0 {
      MulStep(d, a, k - 1);
      assert d * (a + k) == d * (a + k - 1) + d;
      assert d * k == d * (k - 1) + d;
    }
  }

  /** A quotient is at most q when the dividend is below (q + 1) * d. */
  lemma DivBelow(n: nat, d: nat, q: nat)
    requires d >= 1 && n < (q + 1) * d
    ensures n / d <= q
  {
    if n / d > q {
      MulStep(d, q + 1, n / d - (q + 1));
      assert false;
    }
  }

  lemma WorkGroupsOfBlocks(wg: nat, w: nat)
    requires w >= 1
    ensures WorkGroups(2 * wg * w, w) == wg
  {
    var x := wg * w;
    assert 2 * wg * w == 2 * x;
    assert (2 * x) / 2 == x;
    DivPlusSmall(wg, w, w - 1);
    assert x + w - 1 == wg * w + (w - 1);
  }

  /** There are never more work groups than work-items. */
  lemma WorkGroupsAtMostHalf(elems: nat, w: nat)
    requires elems >= 2 && w >= 1
    ensures WorkGroups(elems, w) <= elems / 2
  {
    var x := elems / 2;
    MulStep(w, x, 1);
    MulStep(x, 0, w);
    assert (x + 1) * w == w * (x + 1) && x * w == w * x;
    DivBelow(x + w - 1, w, x);
  }

  lemma WorkGroupsSmall(p: nat, w: nat)
    requires w >= 1 && p <= 2 * w
    ensures WorkGroups(p, w) <= 1
  {
    DivBelow(p / 2 + w - 1, w, 1);
  }

  /** Padding a padded length again changes nothing when the plan has several groups or W is a power of two. */
  lemma ElemsCeilStable(elems: nat, w: nat)
    requires PlanDomain(elems, w)
    requires WorkGroups(elems, w) > 1 || IsPow2(w)
    ensures PlanDomain(ElemsCeil(elems, w).elemsCeil, w)
    ensures ElemsCeil(ElemsCeil(elems, w).elemsCeil, w).elemsCeil == ElemsCeil(elems, w).elemsCeil
  {
    var wg := WorkGroups(elems, w);
    var p := ElemsCeil(elems, w).elemsCeil;
    if wg > 1 {
      WorkGroupsOfBlocks(wg, w);
    } else {
      SinglePlanStable(elems, w);
    }
  }

  lemma SinglePlanStable(elems: nat, w: nat)
    requires PlanDomain(elems, w) && WorkGroups(elems, w) <= 1 && IsPow2(w)
    ensures PlanDomain(NextPot(elems), w)
    ensures ElemsCeil(NextPot(elems), w).elemsCeil == NextPot(elems)
  {
    var e: nat :| Pow2(e) == w;
    assert elems / 2 <= w by { WorkGroupsIsCeil(elems, w); }
    if elems <= 2 * w {
      SingleWithinTwoW(elems, w, e);
    } else {
      SingleAtTwoWPlusOne(elems, w, e);
    }
  }

  lemma NextPotOfPow2(p: nat)
    requires 2 <= p <= 0x4000_0000 && IsPow2(p)
    ensures NextPot(p) == p
  {
    var f: nat :| Pow2(f) == p;
    NextPotLeast(p, f);
  }

  lemma NextPotAtMost30(elems: nat)
    requires 2 <= elems <= 0x4000_0000
    ensures NextPot(elems) <= 0x4000_0000
  {
    Pow2Of32();
    NextPotLeast(elems, 30);
  }

  lemma SingleWithinTwoW(elems: nat, w: nat, e: nat)
    requires PlanDomain(elems, w) && WorkGroups(elems, w) <= 1 && Pow2(e) == w
    requires elems <= 2 * w
    ensures PlanDomain(NextPot(elems), w)
    ensures ElemsCeil(NextPot(elems), w).elemsCeil == NextPot(elems)
  {
    var p := NextPot(elems);
    assert Pow2(e + 1) == 2 * w;
    NextPotLeast(elems, e + 1);
    WorkGroupsSmall(p, w);
    NextPotAtMost30(elems);
    NextPotOfPow2(p);
  }

  lemma SingleAtTwoWPlusOne(elems: nat, w: nat, e: nat)
    requires PlanDomain(elems, w) && WorkGroups(elems, w) <= 1 && Pow2(e) == w
    requires 2 * w < elems && elems / 2 <= w
    ensures NextPot(elems) == 4 * w
    ensures PlanDomain(NextPot(elems), w)
    ensures ElemsCeil(NextPot(elems), w).elemsCeil == NextPot(elems)
  {
    var p := NextPot(elems);
    var f: nat :| Pow2(f) == p;
    assert Pow2(e + 2) == 4 * w;
    NextPotLeast(elems, e + 2);
    if f <= e + 1 {
      Pow2Monotone(f, e + 1);
    }
    Pow2Monotone(e + 2, f);
    assert p == 2 * 2 * w;
    WorkGroupsOfBlocks(2, w);
  }

  /**
   * In the single-group branch `prefix_sum` launches one group of elemsCeil / 2
   * work-items. With W a power of two that group fits the device when elems <= 2W.
   */
  lemma SingleGroupFits(elems: nat, w: nat)
    requires PlanDomain(elems, w) && WorkGroups(elems, w) <= 1 && IsPow2(w)
    requires elems <= 2 * w
    ensures ElemsCeil(elems, w).elemsCeil / 2 <= w
  {
    var e: nat :| Pow2(e) == w;
    assert Pow2(e + 1) == 2 * w;
    NextPotLeast(elems, e + 1);
  }

  /**
   * elems = 2W + 1 still takes the single-group branch, but rounds up to 4W, so
   * the one group would hold 2W work-items: twice the device maximum.
   */
  lemma SingleGroupOversize(w: nat)
    requires IsPow2(w) && 1 <= w <= 0x1000_0000
    ensures PlanDomain(2 * w + 1, w)
    ensures WorkGroups(2 * w + 1, w) == 1
    ensures ElemsCeil(2 * w + 1, w).elemsCeil / 2 == 2 * w
  {
    var elems := 2 * w + 1;
    assert elems / 2 == w;
    DivPlusSmall(1, w, w - 1);
    assert w + w - 1 == 1 * w + (w - 1);
    assert WorkGroups(elems, w) == 1;
    var e: nat :| Pow2(e) == w;
    SingleAtTwoWPlusOne(elems, w, e);
    assert ElemsCeil(elems, w).elemsCeil == NextPot(elems) == 4 * w;
  }

  /** A `size_t` variable that a pointer argument may name. */
  class SizeCell {
    var value: nat
    constructor (v: nat)
      ensures value == v
    {
      value := v;
    }
  }

  /**
   * `prefix_sum_elems_ceil(ctx, elems, wgs)` with its optional out-parameter:
   * returns the padded length and stores the work-group count only through a non-null pointer.
   */
  method PrefixSumElemsCeil(elems: nat, w: nat, wgs: SizeCell?) returns (elemsCeil: nat)
    requires PlanDomain(elems, w)
    modifies wgs
    ensures elemsCeil == ElemsCeil(elems, w).elemsCeil
    ensures wgs != null ==> wgs.value == WorkGroups(elems, w)
  {
    var workGroups := WorkGroups(elems, w);
    if workGroups > 1 {
      elemsCeil := 2 * workGroups * w;
    } else {
      elemsCeil := NextPot(elems);
    }
    if wgs != null {
      wgs.value := workGroups;
    }
  }
}
