/**
 * The two-level exclusive scan of `prefix_sum` (src/frnn/prefix_sum.c).
 *
 * The device kernels are outside this model; each dispatch is modelled by the
 * contract its host arguments imply, executed as a sequential loop over arrays:
 *   1. `prefix_sum` over blocks of 2 * group elements: block-local exclusive sums, and
 *      each block's total into the increment buffer when one is bound;
 *   2. the same kernel over the increment buffer, in place, as a single block;
 *   3. `prefix_sum_post`: one work-item per element from the second block on, adding
 *      the scanned total of the blocks before it.
 * All additions are on `unsigned int`, hence modulo 2^32.
 */
module PrefixSum {
  import opened Sums
  import opened ScanPlan
  import opened Wrappers

  /** Exclusive sum of s within the block of b elements that contains position j. */
  ghost function LocalScan(s: seq<nat>, b: nat, j: nat): nat
    requires b >= 1 && j <= |s|
  {
    BlockStartBelow(j, b);
    Wrap(Sum(s[(j / b) * b .. j]))
  }

  /** Total of block g (elements [g * b, (g + 1) * b)). */
  ghost function BlockTotal(s: seq<nat>, b: nat, g: nat): nat
    requires (g + 1) * b <= |s|
  {
    Wrap(Sum(s[g * b .. (g + 1) * b]))
  }

  /** v is the wrapped total of block g of src. */
  ghost predicate TotalIs(src: seq<nat>, b: nat, g: nat, v: nat)
  {
    (g + 1) * b <= |src| && v == BlockTotal(src, b, g)
  }

  ghost predicate IsExclusiveScan(src: seq<nat>, dst: seq<nat>, n: nat)
    requires n <= |src| && n <= |dst|
  {
    forall i :: 0 <= i < n ==> dst[i] == Wrap(Sum(src[..i]))
  }

  lemma BlockStartBelow(j: nat, b: nat)
    requires b >= 1
    ensures (j / b) * b <= j
    ensures j < (j / b) * b + b
  {
  }

  lemma LocalScanInBlock(s: seq<nat>, b: nat, g: nat, k: nat)
    requires b >= 1 && k < b && g * b + k <= |s|
    ensures LocalScan(s, b, g * b + k) == Wrap(Sum(s[g * b .. g * b + k]))
  {
    DivPlusSmall(g, b, k);
  }

  /**
   * Stage kernel `prefix_sum` with `items` work-items in groups of `group`: every
   * group scans its 2 * group elements of src into dst and, when sums is bound,
   * stores the block total in sums[group index]. src and dst may be the same buffer.
   */
  method BlockScan(src: array<nat>, dst: array<nat>, sums: array?<nat>, group: nat, items: nat)
    requires group >= 1 && items % group == 0
    requires 2 * items <= src.Length && 2 * items <= dst.Length
    requires sums != null ==> items / group <= sums.Length && sums != src && sums != dst
    modifies dst, sums
    ensures forall j :: 0 <= j < 2 * items ==> dst[j] == LocalScan(old(src[..]), 2 * group, j)
    ensures forall j :: 2 * items <= j < dst.Length ==> dst[j] == old(dst[j])
    ensures sums != null ==> forall g :: 0 <= g < items / group ==> TotalIs(old(src[..]), 2 * group, g, sums[g])
    ensures sums != null ==> forall g :: items / group <= g < sums.Length ==> sums[g] == old(sums[g])
  {
    ghost var s := src[..];
    var b := 2 * group;
    var groups := items / group;
    GroupsCover(items, group);
    var g, base := 0, 0;
    while g < groups
      invariant 0 <= g <= groups && base == g * b && base <= 2 * items
      invariant forall j :: 0 <= j < base ==> dst[j] == LocalScan(s, b, j)
      invariant forall j :: base <= j < dst.Length ==> dst[j] == old(dst[j])
      invariant forall j :: base <= j < src.Length ==> src[j] == s[j]
      invariant sums != null ==> forall h :: 0 <= h < g ==> TotalIs(s, b, h, sums[h])
      invariant sums != null ==> forall h :: g <= h < sums.Length ==> sums[h] == old(sums[h])
    {
      NextBlockFits(g, b, groups);
      ScanGroup(src, dst, sums, g, b, s);
      g, base := g + 1, base + b;
    }
  }

  /** Work group g of `prefix_sum`: scans block g of src into dst and stores its total. */
  method ScanGroup(src: array<nat>, dst: array<nat>, sums: array?<nat>, g: nat, b: nat, ghost s: seq<nat>)
    requires b >= 1 && g * b + b <= src.Length && g * b + b <= dst.Length && |s| == src.Length
    requires (g + 1) * b == g * b + b
    requires forall j :: g * b <= j < src.Length ==> src[j] == s[j]
    requires sums != null ==> g < sums.Length && sums != src && sums != dst
    modifies dst, sums
    ensures forall j :: g * b <= j < g * b + b ==> dst[j] == LocalScan(s, b, j)
    ensures forall j :: 0 <= j < dst.Length && !(g * b <= j < g * b + b) ==> dst[j] == old(dst[j])
    ensures forall j :: g * b + b <= j < src.Length ==> src[j] == s[j]
    ensures sums != null ==> TotalIs(s, b, g, sums[g])
    ensures sums != null ==> forall h :: 0 <= h < sums.Length && h != g ==> sums[h] == old(sums[h])
  {
    var base := g * b;
    var total := ScanOneBlock(src, dst, base, b, s);
    if sums != null {
      sums[g] := total;
    }
    forall j | base <= j < base + b
      ensures dst[j] == LocalScan(s, b, j)
    {
      var k := j - base;
      LocalScanInBlock(s, b, g, k);
      assert g * b + k == j;
    }
  }

  lemma GroupsCover(items: nat, group: nat)
    requires group >= 1 && items % group == 0
    ensures (items / group) * (2 * group) == 2 * items
  {
    assert items == group * (items / group);
  }

  lemma NextBlockFits(g: nat, b: nat, groups: nat)
    requires g < groups
    ensures g * b + b <= groups * b
    ensures (g + 1) * b == g * b + b
  {
    MulStep(b, g, groups - g);
    MulStep(b, g, 1);
  }

  /**
   * One work group of the `prefix_sum` kernel: exclusive scan of the b elements of
   * src at base into dst, returning their total (s is src's initial contents).
   */
  method ScanOneBlock(src: array<nat>, dst: array<nat>, base: nat, b: nat, ghost s: seq<nat>)
    returns (total: nat)
    requires base + b <= src.Length && base + b <= dst.Length && |s| == src.Length
    requires forall j :: base <= j < src.Length ==> src[j] == s[j]
    modifies dst
    ensures total == Wrap(Sum(s[base .. base + b]))
    ensures forall j :: base <= j < base + b ==> dst[j] == Wrap(Sum(s[base .. j]))
    ensures forall j :: 0 <= j < dst.Length && !(base <= j < base + b) ==> dst[j] == old(dst[j])
    ensures forall j :: base + b <= j < src.Length ==> src[j] == s[j]
  {
    var acc, k := 0, 0;
    while k < b
      invariant 0 <= k <= b
      invariant acc == Wrap(Sum(s[base .. base + k]))
      invariant forall j :: base <= j < base + k ==> dst[j] == Wrap(Sum(s[base .. j]))
      invariant forall j :: 0 <= j < dst.Length && !(base <= j < base + k) ==> dst[j] == old(dst[j])
      invariant forall j :: base + k <= j < src.Length ==> src[j] == s[j]
    {
      var x := src[base + k];
      dst[base + k] := acc;
      SumSnoc(s, base, base + k);
      WrapAccumulate(Sum(s[base .. base + k]), x);
      acc := Wrap(acc + x);
      k := k + 1;
    }
    total := acc;
  }

  /**
   * Stage kernel `prefix_sum_post` with `items` work-items: work-item t adds the
   * scanned total of the blocks of 2 * group before element 2 * group + t to it.
   */
  method CarryAdd(data: array<nat>, incr: array<nat>, group: nat, items: nat)
    requires group >= 1 && data != incr
    requires 2 * group + items <= data.Length
    requires forall j :: 2 * group <= j < 2 * group + items ==> j / (2 * group) < incr.Length
    modifies data
    ensures forall j :: 2 * group <= j < 2 * group + items ==>
              data[j] == Wrap(old(data[j]) + incr[j / (2 * group)])
    ensures forall j :: 0 <= j < data.Length && !(2 * group <= j < 2 * group + items) ==>
              data[j] == old(data[j])
  {
    var t := 0;
    while t < items
      invariant 0 <= t <= items
      invariant forall j :: 2 * group <= j < 2 * group + t ==>
                  data[j] == Wrap(old(data[j]) + incr[j / (2 * group)])
      invariant forall j :: 0 <= j < data.Length && !(2 * group <= j < 2 * group + t) ==>
                  data[j] == old(data[j])
    {
      var j := 2 * group + t;
      data[j] := Wrap(data[j] + incr[j / (2 * group)]);
      t := t + 1;
    }
  }

  /** Scanning the block totals yields, for every real block c, the wrapped sum of all elements before it. */
  lemma {:induction false} CarryIsPrefix(src: seq<nat>, totals: seq<nat>, b: nat, c: nat)
    requires b >= 1 && c <= |totals| && c * b <= |src|
    requires forall g {:trigger TotalIs(src, b, g, totals[g])} :: 0 <= g < c ==> TotalIs(src, b, g, totals[g])
    ensures Wrap(Sum(totals[..c])) == Wrap(Sum(src[..c * b]))
  {
    if c > 0 {
      var d := c - 1;
      assert d * b + b == c * b;
      CarryIsPrefix(src, totals, b, d);
      assert TotalIs(src, b, d, totals[d]) && (d + 1) * b == c * b;
      assert totals[..c][..d] == totals[..d];
      assert Sum(totals[..c]) == Sum(totals[..d]) + totals[d];
      WrapJoin(Sum(totals[..d]), totals[d], Sum(src[..d * b]), Sum(src[d * b .. c * b]));
      SumSplit(src, 0, d * b, c * b);
      assert src[0..d * b] == src[..d * b] && src[0..c * b] == src[..c * b];
    }
  }

  /** Adding numbers congruent modulo 2^32 gives congruent sums. */
  lemma WrapJoin(a: nat, x: nat, a': nat, x': nat)
    requires Wrap(a) == Wrap(a') && x == Wrap(x')
    ensures Wrap(a + x) == Wrap(a' + x')
  {
    WrapAdd(a, x);
    WrapAdd(a', x');
  }

  /** A block-local sum plus the carry of its block is the global exclusive sum. */
  lemma ComposeAt(src: seq<nat>, b: nat, j: nat, carry: nat)
    requires b >= 1 && j <= |src|
    requires carry == Wrap(Sum(src[..(j / b) * b]))
    ensures Wrap(LocalScan(src, b, j) + carry) == Wrap(Sum(src[..j]))
  {
    BlockStartBelow(j, b);
    var start := (j / b) * b;
    assert LocalScan(src, b, j) == Wrap(Sum(src[start .. j]));
    CarryFromStart(src, start, j, carry);
  }

  lemma CarryFromStart(src: seq<nat>, start: nat, j: nat, carry: nat)
    requires start <= j <= |src|
    requires carry == Wrap(Sum(src[..start]))
    ensures Wrap(Wrap(Sum(src[start .. j])) + carry) == Wrap(Sum(src[..j]))
  {
    WrapAdd(Sum(src[start .. j]), Sum(src[..start]));
    SumSplit(src, 0, start, j);
    assert src[0..start] == src[..start] && src[0..j] == src[..j];
  }

  /**
   * The three stages compose to an exact exclusive scan. out1 and totals are what
   * stage 1 leaves, carries what stage 2 leaves (only its first wg entries matter),
   * out what stage 3 leaves; block 0 is skipped by stage 3 because its carry is 0.
   */
  lemma TwoLevelScan(src: seq<nat>, out1: seq<nat>, totals: seq<nat>, carries: seq<nat>,
                     out: seq<nat>, b: nat, wg: nat)
    requires b >= 1 && wg * b <= |src| && |out1| == |out| == wg * b
    requires wg <= |totals| && wg <= |carries|
    requires forall j {:trigger out1[j]} :: 0 <= j < wg * b ==> out1[j] == LocalScan(src, b, j)
    requires forall g {:trigger TotalIs(src, b, g, totals[g])} :: 0 <= g < wg ==> TotalIs(src, b, g, totals[g])
    requires forall c {:trigger carries[c]} :: 0 <= c < wg ==> carries[c] == Wrap(Sum(totals[..c]))
    requires forall j {:trigger out[j]} :: b <= j < wg * b ==> j / b < |carries| && out[j] == Wrap(out1[j] + carries[j / b])
    requires forall j {:trigger out[j]} :: 0 <= j < b && j < wg * b ==> out[j] == out1[j]
    ensures IsExclusiveScan(src, out, wg * b)
  {
    forall j | 0 <= j < wg * b
      ensures out[j] == Wrap(Sum(src[..j]))
    {
      if j < b {
        LocalScanFirstElement(src, b, j, out1[j], out[j]);
      } else {
        BlockIndexBelow(j, b, wg);
        CarriedElement(src, totals, b, wg, j, out1[j], carries[j / b], out[j]);
      }
    }
  }

  lemma LocalScanFirstElement(src: seq<nat>, b: nat, j: nat, o1: nat, o: nat)
    requires j < b && j < |src|
    requires o1 == LocalScan(src, b, j) && o == o1
    ensures o == Wrap(Sum(src[..j]))
  {
    DivPlusSmall(0, b, j);
    assert j / b == 0 && (j / b) * b == 0;
    assert src[0..j] == src[..j];
  }

  /** One element of a block after the first: its stage-1 value plus its block's carry. */
  lemma CarriedElement(src: seq<nat>, totals: seq<nat>, b: nat, wg: nat, j: nat, o1: nat, carry: nat, o: nat)
    requires b >= 1 && j < |src| && j / b < wg <= |totals|
    requires forall g {:trigger TotalIs(src, b, g, totals[g])} :: 0 <= g < wg ==> TotalIs(src, b, g, totals[g])
    requires o1 == LocalScan(src, b, j) && carry == Wrap(Sum(totals[..j / b])) && o == Wrap(o1 + carry)
    ensures o == Wrap(Sum(src[..j]))
  {
    var c := j / b;
    BlockStartBelow(j, b);
    CarryIsPrefix(src, totals, b, c);
    ComposeAt(src, b, j, carry);
  }

  lemma BlockIndexBelow(j: nat, b: nat, wg: nat)
    requires b >= 1 && j < wg * b
    ensures j / b < wg
  {
    if j / b >= wg {
      MulStep(b, wg, j / b - wg);
      BlockStartBelow(j, b);
      assert false;
    }
  }

  /** Within the first block the block-local scan is the plain exclusive scan. */
  lemma LocalScanFirstBlock(s: seq<nat>, b: nat, j: nat)
    requires j < b <= |s|
    ensures LocalScan(s, b, j) == Wrap(Sum(s[..j]))
  {
    DivPlusSmall(0, b, j);
    assert j / b == 0 && (j / b) * b == 0;
    assert s[0..j] == s[..j];
  }

  lemma Pow2Even(p: nat)
    requires IsPow2(p) && p >= 2
    ensures p % 2 == 0 && 2 * (p / 2) == p
  {
    var e: nat :| Pow2(e) == p;
    assert e != 0;
  }

  /** Layout of the multi-group case: work_items = 2 * work_groups * W. */
  lemma MultiLayout(wg: nat, w: nat, workItems: nat)
    requires wg >= 2 && w >= 1 && workItems == 2 * wg * w
    ensures workItems / 2 == wg * w && 2 * (workItems / 2) == workItems
    ensures (wg * w) % w == 0 && (wg * w) / w == wg
    ensures wg * (2 * w) == workItems
    ensures workItems >= 4 * w
    ensures (workItems - 2 * w) % w == 0
  {
    assert workItems == 2 * (wg * w);
    DivPlusSmall(wg, w, 0);
    MulStep(w, 2, wg - 2);
    assert w * wg == wg * w;
    assert workItems - 2 * w == (2 * wg - 2) * w;
    DivPlusSmall(2 * wg - 2, w, 0);
  }

  /**
   * Stages 1 and 2 of the multi-group path: block-local scans of input into buf
   * with the block totals into incr, then incr scanned in place as one block.
   * totals is what incr held between the two.
   */
  method ScanAndTotals(input: array<nat>, buf: array<nat>, incr: array<nat>, w: nat, wg: nat)
    returns (ghost totals: seq<nat>)
    requires wg >= 2 && w >= 1 && buf.Length == 2 * wg * w && buf.Length <= input.Length
    requires IsPow2(incr.Length) && wg <= incr.Length
    requires input != buf && input != incr && buf != incr
    modifies buf, incr
    ensures |totals| >= wg && buf.Length == wg * (2 * w)
    ensures forall j :: 0 <= j < buf.Length ==> buf[j] == LocalScan(input[..], 2 * w, j)
    ensures forall g :: 0 <= g < wg ==> TotalIs(input[..], 2 * w, g, totals[g])
    ensures forall c :: 0 <= c < wg ==> incr[c] == Wrap(Sum(totals[..c]))
  {
    var workItems := buf.Length;
    var incrs := incr.Length;
    MultiLayout(wg, w, workItems);
    Pow2Even(incrs);
    BlockScan(input, buf, incr, w, workItems / 2);
    totals := incr[..];
    BlockScan(incr, incr, null, incrs / 2, incrs / 2);
    forall c | 0 <= c < wg
      ensures incr[c] == Wrap(Sum(totals[..c]))
    {
      LocalScanFirstBlock(totals, incrs, c);
    }
  }

  /**
   * The three stages of the multi-group path on buffers created by `prefix_sum`:
   * stages 1 and 2, then `prefix_sum_post` adding the carries into buf from
   * its second block on.
   */
  method RunTwoLevel(input: array<nat>, buf: array<nat>, incr: array<nat>, w: nat, wg: nat)
    requires wg >= 2 && w >= 1 && buf.Length == 2 * wg * w && buf.Length <= input.Length
    requires IsPow2(incr.Length) && wg <= incr.Length
    requires input != buf && input != incr && buf != incr
    modifies buf, incr
    ensures IsExclusiveScan(input[..], buf[..], buf.Length)
  {
    ghost var totals := ScanAndTotals(input, buf, incr, w, wg);
    ghost var out1 := buf[..];
    ghost var carries := incr[..];
    var b := 2 * w;
    forall j | b <= j < buf.Length
      ensures j / b < wg
    {
      BlockIndexBelow(j, b, wg);
    }
    CarryAdd(buf, incr, w, buf.Length - b);
    TwoLevelScan(input[..], out1, totals, carries, buf[..], b, wg);
  }

  /** Stage 1 alone, one group of work_items / 2 work-items over the whole buffer. */
  method RunSingle(input: array<nat>, buf: array<nat>)
    requires IsPow2(buf.Length) && buf.Length >= 2 && buf.Length <= input.Length && input != buf
    modifies buf
    ensures IsExclusiveScan(input[..], buf[..], buf.Length)
  {
    var workItems := buf.Length;
    Pow2Even(workItems);
    DivPlusSmall(1, workItems / 2, 0);
    BlockScan(input, buf, null, workItems / 2, workItems / 2);
    forall j | 0 <= j < workItems
      ensures buf[j] == Wrap(Sum(input[..][..j]))
    {
      LocalScanFirstBlock(input[..], workItems, j);
    }
  }

  /** The host calls of `prefix_sum` whose failure is checked; each aborts with the (cl_mem)-1 sentinel. */
  datatype ScanStep = CreateScanKernel | CreateIncrBuffer | CreatePostKernel | CreateOutBuffer

  datatype Kernel = ScanKernel | PostKernel

  /** One enqueued one-dimensional NDRange: kernel, global size and work-group size. */
  datatype Dispatch = Dispatch(kernel: Kernel, global: nat, local: nat)

  /** Inputs `prefix_sum` can plan for: next_pot is only ever given a work-group count up to 2^30. */
  ghost predicate ScanDomain(elems: nat, w: nat)
  {
    PlanDomain(elems, w) && (WorkGroups(elems, w) > 1 ==> WorkGroups(elems, w) <= 0x4000_0000)
  }

  /** The block totals fit one work group, so no third level is needed. */
  ghost predicate TwoLevels(elems: nat, w: nat)
    requires ScanDomain(elems, w)
  {
    WorkGroups(elems, w) <= 1 || NextPot(WorkGroups(elems, w)) <= w
  }

  /**
   * When `prefix_sum` returns the sentinel: its first kernel cannot be created,
   * the block totals do not fit one work group, or a buffer or kernel it
   * creates (the increment buffer and the second kernel only with several groups) fails.
   */
  ghost predicate ScanFails(elems: nat, w: nat, f: Option<ScanStep>)
    requires ScanDomain(elems, w)
  {
    f == Some(CreateScanKernel) || !TwoLevels(elems, w) || f == Some(CreateOutBuffer) ||
    (WorkGroups(elems, w) > 1 && (f == Some(CreateIncrBuffer) || f == Some(CreatePostKernel)))
  }

  /**
   * `prefix_sum(ctx, q, in, elems, time)`. W is the device's maximum work-group
   * size; `fault` names the checked host call that fails, if any; `junk` is what
   * the never-initialised increment buffer holds. The result is None for the
   * (cl_mem)-1 sentinel. A dispatch whose work-group size exceeds W is rejected
   * by the device; its error code is ignored and the buffer keeps its contents.
   */
  method Scan(input: array<nat>, elems: nat, w: nat, fault: Option<ScanStep>, junk: seq<nat>)
    returns (out: Option<array<nat>>, launches: seq<Dispatch>)
    requires ScanDomain(elems, w)
    requires ElemsCeil(elems, w).elemsCeil <= input.Length
    requires |junk| >= w
    ensures out.None? <==> ScanFails(elems, w, fault)
    ensures out.None? ==> launches == []
    ensures out.Some? ==> fresh(out.value) && out.value.Length == ElemsCeil(elems, w).elemsCeil
    ensures out.Some? && (WorkGroups(elems, w) > 1 || ElemsCeil(elems, w).elemsCeil / 2 <= w) ==>
              IsExclusiveScan(input[..], out.value[..], out.value.Length)
    ensures input[..] == old(input[..])
    ensures forall d :: d in launches ==> 1 <= d.local && d.global % d.local == 0
    ensures out.Some? ==>
              (|launches| >= 1 && launches[0].kernel == ScanKernel &&
               2 * launches[0].global == ElemsCeil(elems, w).elemsCeil)
    ensures out.Some? && WorkGroups(elems, w) > 1 ==>
              (|launches| == 3 && launches[0].local == w &&
               launches[0].global / launches[0].local == WorkGroups(elems, w) &&
               launches[1] == Dispatch(ScanKernel, NextPot(WorkGroups(elems, w)) / 2, NextPot(WorkGroups(elems, w)) / 2) &&
               launches[2].kernel == PostKernel && launches[2].local == w &&
               launches[2].global + 2 * w == ElemsCeil(elems, w).elemsCeil)
    ensures out.Some? && WorkGroups(elems, w) <= 1 ==> launches == [Dispatch(ScanKernel, launches[0].global, launches[0].global)]
  {
    if fault == Some(CreateScanKernel) {
      return None, [];
    }
    var cell := new SizeCell(0);
    var workItems := PrefixSumElemsCeil(elems, w, cell);
    var workGroups := cell.value;
    var group := w;
    var incr: array<nat> := new nat[0];
    var incrs := 0;
    if workGroups > 1 {
      incrs := NextPot(workGroups);
      if incrs > w {
        return None, [];
      }
      if fault == Some(CreateIncrBuffer) {
        return None, [];
      }
      incr := new nat[incrs](i requires 0 <= i < incrs => junk[i]);
      if fault == Some(CreatePostKernel) {
        return None, [];
      }
    } else {
      SingleGroupPow2(elems, w);
      group := workItems / 2;
    }
    if fault == Some(CreateOutBuffer) {
      return None, [];
    }
    var buf := new nat[workItems];
    if workGroups > 1 {
      MultiLayout(workGroups, w, workItems);
      RunTwoLevel(input, buf, incr, w, workGroups);
      Pow2Even(incrs);
      DivPlusSmall(1, incrs / 2, 0);
      launches := [Dispatch(ScanKernel, workItems / 2, w),
                   Dispatch(ScanKernel, incrs / 2, incrs / 2),
                   Dispatch(PostKernel, workItems - 2 * w, w)];
    } else {
      Pow2Even(workItems);
      DivPlusSmall(1, group, 0);
      if group <= w {
        RunSingle(input, buf);
      }
      launches := [Dispatch(ScanKernel, group, group)];
    }
    out := Some(buf);
  }

  /**
   * The capacity of the two-level scan: when the totals fit one group the padded
   * length is at most 2 * W * W, and for a power-of-two W the check accepts
   * exactly the work-group counts up to W.
   */
  lemma TwoLevelCapacity(elems: nat, w: nat)
    requires ScanDomain(elems, w) && WorkGroups(elems, w) > 1
    ensures TwoLevels(elems, w) ==> ElemsCeil(elems, w).elemsCeil <= 2 * w * w
    ensures IsPow2(w) ==> (TwoLevels(elems, w) <==> WorkGroups(elems, w) <= w)
  {
    var wg := WorkGroups(elems, w);
    if TwoLevels(elems, w) {
      assert ElemsCeil(elems, w).elemsCeil == 2 * wg * w;
      DoubleMulMono(wg, w, w);
    }
    if IsPow2(w) && wg <= w {
      var e: nat :| Pow2(e) == w;
      NextPotLeast(wg, e);
    }
  }

  lemma DoubleMulMono(a: nat, b: nat, c: nat)
    requires a <= b
    ensures 2 * a * c <= 2 * b * c
  {
    MulStep(c, a, b - a);
    assert 2 * a * c == 2 * (c * a);
    assert 2 * b * c == 2 * (c * b);
  }

  /**
   * A buffer sized by `prefix_sum_elems_ceil(elems)` and then handed to `prefix_sum`
   * as `elems` entries is planned again to the same length and scanned exactly.
   */
  lemma PaddedScan(elems: nat, w: nat)
    requires PlanDomain(elems, w) && elems <= 0x4000_0000
    requires WorkGroups(elems, w) > 1 || IsPow2(w)
    ensures ScanDomain(ElemsCeil(elems, w).elemsCeil, w)
    ensures ElemsCeil(ElemsCeil(elems, w).elemsCeil, w).elemsCeil == ElemsCeil(elems, w).elemsCeil
    ensures WorkGroups(ElemsCeil(elems, w).elemsCeil, w) > 1 ||
            ElemsCeil(ElemsCeil(elems, w).elemsCeil, w).elemsCeil / 2 <= w
  {
    var p := ElemsCeil(elems, w).elemsCeil;
    ElemsCeilStable(elems, w);
    if WorkGroups(elems, w) > 1 {
      PaddedMultiGroups(elems, w);
    } else {
      PaddedSingleGroup(elems, w);
    }
  }

  lemma PaddedMultiGroups(elems: nat, w: nat)
    requires PlanDomain(elems, w) && elems <= 0x4000_0000 && WorkGroups(elems, w) > 1
    ensures WorkGroups(ElemsCeil(elems, w).elemsCeil, w) == WorkGroups(elems, w) <= 0x4000_0000
  {
    var wg := WorkGroups(elems, w);
    assert ElemsCeil(elems, w).elemsCeil == 2 * wg * w;
    WorkGroupsOfBlocks(wg, w);
    WorkGroupsAtMostHalf(elems, w);
  }

  lemma PaddedSingleGroup(elems: nat, w: nat)
    requires PlanDomain(elems, w) && elems <= 0x4000_0000 && WorkGroups(elems, w) <= 1
    ensures WorkGroups(ElemsCeil(elems, w).elemsCeil, w) <= 0x4000_0000
    ensures WorkGroups(ElemsCeil(elems, w).elemsCeil, w) > 1 || ElemsCeil(elems, w).elemsCeil / 2 <= w
  {
    var p := ElemsCeil(elems, w).elemsCeil;
    assert p == NextPot(elems);
    NextPotAtMost30(elems);
    WorkGroupsAtMostHalf(p, w);
    WorkGroupsIsCeil(p, w);
  }

  /**
   * `prefix_sum_elems_ceil(elems)` for a buffer that is then scanned with that
   * many entries, as the counting sorts do with their (even) number of bins.
   */
  function PaddedLength(elems: nat, w: nat): (n: nat)
    requires PlanDomain(elems, w) && elems <= 0x4000_0000 && elems % 2 == 0
    requires WorkGroups(elems, w) > 1 || IsPow2(w)
    ensures n == ElemsCeil(elems, w).elemsCeil && elems <= n
    ensures ScanDomain(n, w) && ElemsCeil(n, w).elemsCeil == n
    ensures WorkGroups(n, w) > 1 || n / 2 <= w
  {
    PaddedScan(elems, w);
    PaddedCovers(elems, w);
    ElemsCeil(elems, w).elemsCeil
  }
}
