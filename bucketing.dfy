/**
 * The counting sort shared by `frnn_sort` (src/frnn/frnn.c) and `ndt_sort`
 * (src/ndt/ndt.c): `kernel_ins_cnt` records each point's bin and increments the
 * bin's counter, the counts are scanned, and `kernel_reindex` sends point i to
 * bin_prefix[bin] + atomic_inc(&bin_idx[bin]). The kernels themselves are not
 * part of this model: both stages are modelled as sequential loops over the
 * points, the atomic increments as plain fetch-and-add, and the bin of each
 * point as an input.
 */
module Bucketing {
  import opened Sums
  import opened PrefixSum

  /** A point of the cloud: three `float` coordinates, kept as reals. */
  datatype Point = Point(x: real, y: real, z: real)

  /** Number of occurrences of bin b in bins. */
  function Occ(bins: seq<nat>, b: nat): (r: nat)
    ensures r <= |bins|
  {
    if |bins| == 0 then 0
    else Occ(bins[..|bins| - 1], b) + (if bins[|bins| - 1] == b then 1 else 0)
  }

  /** Per-bin occupancy counts of bins 0 .. k-1. */
  ghost function Histogram(bins: seq<nat>, k: nat): (h: seq<nat>)
    ensures |h| == k
  {
    seq(k, b requires 0 <= b < k => Occ(bins, b))
  }

  ghost predicate AllBelow(bins: seq<nat>, k: nat)
  {
    forall i :: 0 <= i < |bins| ==> bins[i] < k
  }

  /** offsets holds the exclusive prefix sums of h. */
  ghost predicate IsOffsets(h: seq<nat>, offsets: seq<nat>)
  {
    |offsets| == |h| && forall b :: 0 <= b < |h| ==> offsets[b] == Sum(h[..b])
  }

  /**
   * Destination of point i in the reindex stage: its bin's offset plus the number
   * of earlier points in the same bin (the cursor value its fetch-and-add returns).
   */
  ghost function Dest(bins: seq<nat>, offsets: seq<nat>, i: nat): nat
    requires i < |bins| && bins[i] < |offsets|
  {
    offsets[bins[i]] + Occ(bins[..i], bins[i])
  }

  ghost function Dests(bins: seq<nat>, offsets: seq<nat>): (d: seq<nat>)
    requires forall i :: 0 <= i < |bins| ==> bins[i] < |offsets|
    ensures |d| == |bins|
  {
    seq(|bins|, i requires 0 <= i < |bins| => Dest(bins, offsets, i))
  }

  /** out after writing pts[i] to position d[i] for i = 0, 1, ... in turn. */
  ghost function Scatter(o: seq<Point>, pts: seq<Point>, d: seq<nat>): (r: seq<Point>)
    requires |pts| == |d| && forall i :: 0 <= i < |d| ==> d[i] < |o|
    ensures |r| == |o|
  {
    if |pts| == 0 then o
    else
      var n := |pts| - 1;
      Scatter(o, pts[..n], d[..n])[d[n] := pts[n]]
  }

  lemma ScatterSnoc(o: seq<Point>, pts: seq<Point>, d: seq<nat>, i: nat)
    requires i < |pts| == |d| && forall j :: 0 <= j < |d| ==> d[j] < |o|
    ensures Scatter(o, pts[..i + 1], d[..i + 1]) == Scatter(o, pts[..i], d[..i])[d[i] := pts[i]]
  {
    assert pts[..i + 1][..i] == pts[..i] && d[..i + 1][..i] == d[..i];
  }

  ghost predicate Injective(d: seq<nat>)
  {
    forall i, j :: 0 <= i < |d| && 0 <= j < |d| && i != j ==> d[i] != d[j]
  }

  // ---------------------------------------------------------------- counting

  lemma OccSnoc(s: seq<nat>, x: nat, b: nat)
    ensures Occ(s + [x], b) == Occ(s, b) + (if x == b then 1 else 0)
  {
    assert (s + [x])[..|s|] == s;
  }

  lemma OccSnocAll(s: seq<nat>, x: nat)
    ensures forall b :: Occ(s + [x], b) == Occ(s, b) + (if x == b then 1 else 0)
  {
    forall b
      ensures Occ(s + [x], b) == Occ(s, b) + (if x == b then 1 else 0)
    {
      OccSnoc(s, x, b);
    }
  }

  /**
   * Counts over prefixes grow with the prefix, and strictly past an occurrence:
   * a point's rank is below the count of every longer prefix that includes it.
   */
  lemma {:induction false} OccPrefix(s: seq<nat>, i: nat, j: nat, b: nat)
    requires i <= j <= |s|
    ensures Occ(s[..i], b) <= Occ(s[..j], b)
    ensures i < j && s[i] == b ==> Occ(s[..i], b) < Occ(s[..j], b)
  {
    if i < j {
      OccPrefix(s, i, j - 1, b);
      assert s[..j] == s[..j - 1] + [s[j - 1]];
      OccSnoc(s[..j - 1], s[j - 1], b);
    }
  }

  lemma {:induction false} SumZeros(s: seq<nat>)
    requires forall i :: 0 <= i < |s| ==> s[i] == 0
    ensures Sum(s) == 0
  {
    if |s| > 0 {
      SumZeros(s[..|s| - 1]);
    }
  }

  /** Adding a point in bin x < k adds one to entry x of the histogram. */
  lemma HistogramSnoc(s: seq<nat>, x: nat, k: nat)
    requires x < k
    ensures Histogram(s + [x], k) == Histogram(s, k)[x := Histogram(s, k)[x] + 1]
  {
    forall b | 0 <= b < k
      ensures Histogram(s + [x], k)[b] == Histogram(s, k)[x := Histogram(s, k)[x] + 1][b]
    {
      OccSnoc(s, x, b);
    }
  }

  /** When every point lies in bins 0 .. k-1, the counts of those bins add up to the number of points. */
  lemma {:induction false} HistogramTotal(bins: seq<nat>, k: nat)
    requires AllBelow(bins, k)
    ensures Sum(Histogram(bins, k)) == |bins|
  {
    if |bins| == 0 {
      SumZeros(Histogram(bins, k));
    } else {
      var n := |bins| - 1;
      var s, x := bins[..n], bins[n];
      assert bins == s + [x];
      HistogramTotal(s, k);
      HistogramSnoc(s, x, k);
      SumIncrement(Histogram(s, k), x);
    }
  }

  /** Bins beyond every point's bin are empty: padding entries of the count buffer stay 0. */
  lemma {:induction false} OccAbove(bins: seq<nat>, k: nat, b: nat)
    requires AllBelow(bins, k) && b >= k
    ensures Occ(bins, b) == 0
  {
    if |bins| > 0 {
      OccAbove(bins[..|bins| - 1], k, b);
    }
  }

  /** The histogram over a padded range starts with the histogram over the real range. */
  lemma HistogramPrefix(bins: seq<nat>, k: nat, p: nat)
    requires k <= p
    ensures Histogram(bins, p)[..k] == Histogram(bins, k)
  {
  }

  // ------------------------------------------------------------ destinations

  /** Each bin's slots [offset, offset + count) lie within [0, n). */
  lemma BinRange(h: seq<nat>, offsets: seq<nat>, b: nat)
    requires IsOffsets(h, offsets) && b < |h|
    ensures offsets[b] + h[b] <= Sum(h)
  {
    SumSnoc(h, 0, b);
    assert h[0..b + 1] == h[..b + 1] && h[0..b] == h[..b];
    SumPrefixMonotone(h, b + 1, |h|);
    assert h[..|h|] == h;
  }

  /** The offsets grow with the bin: a lower bin's slots all come before a higher bin's. */
  lemma OffsetsOrdered(h: seq<nat>, offsets: seq<nat>, a: nat, c: nat)
    requires IsOffsets(h, offsets) && a < c < |h|
    ensures offsets[a] + h[a] <= offsets[c]
  {
    SumSnoc(h, 0, a);
    assert h[0..a + 1] == h[..a + 1] && h[0..a] == h[..a];
    SumPrefixMonotone(h, a + 1, c);
  }

  /** Point i goes into the slots of its own bin. */
  lemma DestInBin(bins: seq<nat>, k: nat, offsets: seq<nat>, i: nat)
    requires AllBelow(bins, k) && IsOffsets(Histogram(bins, k), offsets) && i < |bins|
    ensures offsets[bins[i]] <= Dest(bins, offsets, i) < offsets[bins[i]] + Occ(bins, bins[i])
  {
    OccPrefix(bins, i, |bins|, bins[i]);
    assert bins[..|bins|] == bins;
  }

  /** Every destination is a slot of the output, which has one slot per point. */
  lemma DestBelow(bins: seq<nat>, k: nat, offsets: seq<nat>, i: nat)
    requires AllBelow(bins, k) && IsOffsets(Histogram(bins, k), offsets) && i < |bins|
    ensures Dest(bins, offsets, i) < |bins|
  {
    DestInBin(bins, k, offsets, i);
    BinRange(Histogram(bins, k), offsets, bins[i]);
    HistogramTotal(bins, k);
  }

  /** Points of a lower bin land before points of a higher bin. */
  lemma DestOrdered(bins: seq<nat>, k: nat, offsets: seq<nat>, i: nat, j: nat)
    requires AllBelow(bins, k) && IsOffsets(Histogram(bins, k), offsets)
    requires i < |bins| && j < |bins| && bins[i] < bins[j]
    ensures Dest(bins, offsets, i) < Dest(bins, offsets, j)
  {
    DestInBin(bins, k, offsets, i);
    DestInBin(bins, k, offsets, j);
    OffsetsOrdered(Histogram(bins, k), offsets, bins[i], bins[j]);
  }

  /**
   * Within a bin the points keep their input order. This is the order of the
   * sequential model; the device's atomic increments may hand out the ranks
   * of a bin in any other order.
   */
  lemma DestStable(bins: seq<nat>, offsets: seq<nat>, i: nat, j: nat)
    requires i < j < |bins| && bins[i] == bins[j] < |offsets|
    ensures Dest(bins, offsets, i) < Dest(bins, offsets, j)
  {
    OccPrefix(bins, i, j, bins[i]);
  }

  /** No two points share a destination. */
  lemma DestInjective(bins: seq<nat>, k: nat, offsets: seq<nat>, i: nat, j: nat)
    requires AllBelow(bins, k) && IsOffsets(Histogram(bins, k), offsets)
    requires i < |bins| && j < |bins| && i != j
    ensures Dest(bins, offsets, i) != Dest(bins, offsets, j)
  {
    if bins[i] < bins[j] {
      DestOrdered(bins, k, offsets, i, j);
    } else if bins[j] < bins[i] {
      DestOrdered(bins, k, offsets, j, i);
    } else if i < j {
      OccPrefix(bins, i, j, bins[i]);
    } else {
      OccPrefix(bins, j, i, bins[j]);
    }
  }

  /** The r-th point (counting from 0) of bin b exists whenever r is below b's count. */
  lemma {:induction false} RankedPoint(bins: seq<nat>, b: nat, r: nat) returns (i: nat)
    requires r < Occ(bins, b)
    ensures i < |bins| && bins[i] == b && Occ(bins[..i], b) == r
  {
    var n := |bins| - 1;
    if r < Occ(bins[..n], b) {
      i := RankedPoint(bins[..n], b, r);
      assert bins[..n][..i] == bins[..i];
    } else {
      i := n;
    }
  }

  /** Every slot below Sum(h) lies in the range of exactly one bin; this finds it. */
  lemma {:induction false} SlotBin(h: seq<nat>, offsets: seq<nat>, s: nat) returns (b: nat)
    requires IsOffsets(h, offsets) && s < Sum(h)
    ensures b < |h| && offsets[b] <= s < offsets[b] + h[b]
  {
    var n := |h| - 1;
    if s < Sum(h[..n]) {
      forall c | 0 <= c < n
        ensures offsets[..n][c] == Sum(h[..n][..c])
      {
        assert h[..n][..c] == h[..c];
      }
      b := SlotBin(h[..n], offsets[..n], s);
      assert h[..n][..b] == h[..b];
    } else {
      b := n;
    }
  }

  /** Every slot of the output receives some point. */
  lemma DestOnto(bins: seq<nat>, k: nat, offsets: seq<nat>, s: nat) returns (i: nat)
    requires AllBelow(bins, k) && IsOffsets(Histogram(bins, k), offsets) && s < |bins|
    ensures i < |bins| && Dest(bins, offsets, i) == s
  {
    var h := Histogram(bins, k);
    HistogramTotal(bins, k);
    var b := SlotBin(h, offsets, s);
    i := RankedPoint(bins, b, s - offsets[b]);
  }

  /**
   * The reindex destinations form a permutation of 0 .. n-1 grouped by bin:
   * in range, pairwise distinct, covering every slot, and each point inside
   * its own bin's range of slots.
   */
  lemma DestsPermutation(bins: seq<nat>, k: nat, offsets: seq<nat>)
    requires AllBelow(bins, k) && IsOffsets(Histogram(bins, k), offsets)
    ensures forall i :: 0 <= i < |bins| ==> Dests(bins, offsets)[i] < |bins|
    ensures Injective(Dests(bins, offsets))
    ensures forall s :: 0 <= s < |bins| ==> s in Dests(bins, offsets)
    ensures forall i :: 0 <= i < |bins| ==>
              offsets[bins[i]] <= Dests(bins, offsets)[i] < offsets[bins[i]] + Occ(bins, bins[i])
  {
    DestsInBins(bins, k, offsets);
    DestsInjective(bins, k, offsets);
    DestsOnto(bins, k, offsets);
  }

  lemma DestsInBins(bins: seq<nat>, k: nat, offsets: seq<nat>)
    requires AllBelow(bins, k) && IsOffsets(Histogram(bins, k), offsets)
    ensures forall i :: 0 <= i < |bins| ==> Dests(bins, offsets)[i] < |bins|
    ensures forall i :: 0 <= i < |bins| ==>
              offsets[bins[i]] <= Dests(bins, offsets)[i] < offsets[bins[i]] + Occ(bins, bins[i])
  {
    var d := Dests(bins, offsets);
    forall i | 0 <= i < |bins|
      ensures d[i] < |bins|
      ensures offsets[bins[i]] <= d[i] < offsets[bins[i]] + Occ(bins, bins[i])
    {
      DestBelow(bins, k, offsets, i);
      DestInBin(bins, k, offsets, i);
    }
  }

  lemma DestsInjective(bins: seq<nat>, k: nat, offsets: seq<nat>)
    requires AllBelow(bins, k) && IsOffsets(Histogram(bins, k), offsets)
    ensures Injective(Dests(bins, offsets))
  {
    var d := Dests(bins, offsets);
    forall i, j | 0 <= i < |d| && 0 <= j < |d| && i != j
      ensures d[i] != d[j]
    {
      DestInjective(bins, k, offsets, i, j);
    }
  }

  lemma DestsOnto(bins: seq<nat>, k: nat, offsets: seq<nat>)
    requires AllBelow(bins, k) && IsOffsets(Histogram(bins, k), offsets)
    ensures forall s :: 0 <= s < |bins| ==> s in Dests(bins, offsets)
  {
    var d := Dests(bins, offsets);
    forall s | 0 <= s < |bins|
      ensures s in d
    {
      var i := DestOnto(bins, k, offsets, s);
      assert d[i] == s;
    }
  }

  // -------------------------------------------------------------- scattering

  /** With distinct destinations every point survives in its slot, and other slots are untouched. */
  lemma {:induction false} ScatterPlaces(o: seq<Point>, pts: seq<Point>, d: seq<nat>)
    requires |pts| == |d| && (forall i :: 0 <= i < |d| ==> d[i] < |o|) && Injective(d)
    ensures forall i :: 0 <= i < |d| ==> Scatter(o, pts, d)[d[i]] == pts[i]
    ensures forall s :: 0 <= s < |o| && (forall i :: 0 <= i < |d| ==> d[i] != s) ==> Scatter(o, pts, d)[s] == o[s]
  {
    if |pts| > 0 {
      var n := |pts| - 1;
      ScatterPlaces(o, pts[..n], d[..n]);
    }
  }

  /**
   * The result of the whole counting sort in terms of its specification:
   * with offsets the exclusive scan of the histogram, the reordered output holds
   * point i at its destination and every slot holds some point of the input.
   */
  lemma SortedOutput(bins: seq<nat>, k: nat, offsets: seq<nat>, o: seq<Point>, pts: seq<Point>)
    requires AllBelow(bins, k) && IsOffsets(Histogram(bins, k), offsets)
    requires |pts| == |bins| == |o|
    ensures forall i :: 0 <= i < |bins| ==> Dests(bins, offsets)[i] < |o|
    ensures forall i :: 0 <= i < |pts| ==> Scatter(o, pts, Dests(bins, offsets))[Dests(bins, offsets)[i]] == pts[i]
    ensures forall s :: 0 <= s < |o| ==> Scatter(o, pts, Dests(bins, offsets))[s] in pts
  {
    var d := Dests(bins, offsets);
    DestsPermutation(bins, k, offsets);
    ScatterPlaces(o, pts, d);
    forall s | 0 <= s < |o|
      ensures Scatter(o, pts, d)[s] in pts
    {
      var i := DestOnto(bins, k, offsets, s);
      assert d[i] == s && Scatter(o, pts, d)[d[i]] == pts[i];
    }
  }

  /** Counting from zeroed counters gives the histogram, since no counter reaches 2^32. */
  lemma CountedFromZero(bins: seq<nat>, c: seq<nat>)
    requires AllBelow(bins, |c|) && |bins| < M
    requires forall b :: 0 <= b < |c| ==> c[b] == 0
    ensures Counted(c, bins) == Histogram(bins, |c|)
  {
    forall b | 0 <= b < |c|
      ensures Counted(c, bins)[b] == Histogram(bins, |c|)[b]
    {
      CountedIsOcc(c, bins, b);
    }
  }

  /** An exclusive scan modulo 2^32 of counts totalling less than 2^32 is exact: it gives the offsets. */
  lemma ScanGivesOffsets(h: seq<nat>, prefix: seq<nat>)
    requires Sum(h) < M && |prefix| == |h|
    requires forall b :: 0 <= b < |h| ==> prefix[b] == Wrap(Sum(h[..b]))
    ensures IsOffsets(h, prefix)
  {
    forall b | 0 <= b < |h|
      ensures prefix[b] == Sum(h[..b])
    {
      SumPrefixMonotone(h, b, |h|);
      assert h[..|h|] == h;
    }
  }

  // ------------------------------------------------------------------ stages

  /** Steps of `frnn_sort` and `ndt_sort` whose reported error makes them return NULL, in program order. */
  datatype SortStep =
    | CreateCountKernel
    | CreateBinBuffer
    | CreateCountBuffer
    | BindCountArgs
    | EnqueueCount
    | CreateReindexKernel
    | CreateCursorBuffer
    | CreateSortedBuffer
    | BindReindexArgs
    | EnqueueReindex

  /** The counters after counting bins one after another, each increment modulo 2^32. */
  ghost function Counted(c: seq<nat>, bins: seq<nat>): (r: seq<nat>)
    requires AllBelow(bins, |c|)
    ensures |r| == |c|
  {
    if |bins| == 0 then c
    else
      var n := |bins| - 1;
      var r := Counted(c, bins[..n]);
      r[bins[n] := Wrap(r[bins[n]] + 1)]
  }

  /** Counting adds each bin's number of occurrences to its counter, modulo 2^32. */
  lemma {:induction false} CountedIsOcc(c: seq<nat>, bins: seq<nat>, b: nat)
    requires AllBelow(bins, |c|) && b < |c| && c[b] < M
    ensures Counted(c, bins)[b] == Wrap(c[b] + Occ(bins, b))
  {
    if |bins| > 0 {
      var n := |bins| - 1;
      CountedIsOcc(c, bins[..n], b);
      if bins[n] == b {
        WrapAccumulate(c[b] + Occ(bins[..n], b), 1);
      }
    }
  }

  /** The counting pass over freshly zeroed counters leaves the histogram in them. */
  method CountIntoZeroed(bins: seq<nat>, inBin: array<nat>, counts: array<nat>)
    requires inBin.Length == |bins| && inBin != counts && |bins| < M
    requires AllBelow(bins, counts.Length)
    requires forall b :: 0 <= b < counts.Length ==> counts[b] == 0
    modifies inBin, counts
    ensures inBin[..] == bins
    ensures counts[..] == Histogram(bins, counts.Length)
  {
    ghost var zeros := counts[..];
    CountStage(bins, inBin, counts);
    CountedFromZero(bins, zeros);
  }

  /**
   * `kernel_ins_cnt` over all points, one after another: records each point's
   * bin in inBin and increments that bin's `unsigned int` counter.
   */
  method CountStage(bins: seq<nat>, inBin: array<nat>, counts: array<nat>)
    requires inBin.Length == |bins| && inBin != counts
    requires AllBelow(bins, counts.Length)
    modifies inBin, counts
    ensures inBin[..] == bins
    ensures counts[..] == Counted(old(counts[..]), bins)
  {
    var i := 0;
    while i < |bins|
      invariant 0 <= i <= |bins|
      invariant forall j :: 0 <= j < i ==> inBin[j] == bins[j]
      invariant counts[..] == Counted(old(counts[..]), bins[..i])
    {
      var bin := bins[i];
      inBin[i] := bin;
      assert bins[..i + 1][..i] == bins[..i];
      counts[bin] := Wrap(counts[bin] + 1);
      i := i + 1;
    }
    assert bins[..|bins|] == bins;
  }

  /**
   * `kernel_reindex` over all points, one after another: point i fetches and
   * increments the cursor of its bin and is copied to bin_prefix[bin] plus the
   * fetched value. The cursor buffer is zero on entry.
   */
  method ReindexStage(pts: array<Point>, inBin: array<nat>, prefix: array<nat>, cursor: array<nat>,
                      out: array<Point>)
    requires inBin.Length == pts.Length && pts != out && cursor != inBin && cursor != prefix
    requires prefix.Length <= cursor.Length && out.Length < M
    requires AllBelow(inBin[..], prefix.Length)
    requires forall b :: 0 <= b < cursor.Length ==> cursor[b] == 0
    requires forall i :: 0 <= i < inBin.Length ==> Dest(inBin[..], prefix[..], i) < out.Length
    modifies cursor, out
    ensures out[..] == Scatter(old(out[..]), pts[..], Dests(inBin[..], prefix[..]))
    ensures forall b :: 0 <= b < cursor.Length ==> cursor[b] == Wrap(Occ(inBin[..], b))
  {
    ghost var bins := inBin[..];
    ghost var d := Dests(bins, prefix[..]);
    ghost var o, ps := out[..], pts[..];
    var i := 0;
    while i < inBin.Length
      invariant 0 <= i <= inBin.Length
      invariant forall b :: 0 <= b < cursor.Length ==> cursor[b] == Wrap(Occ(bins[..i], b))
      invariant out[..] == Scatter(o, ps[..i], d[..i])
    {
      var bin := inBin[i];
      var idx := cursor[bin];
      ghost var rank := Occ(bins[..i], bin);
      assert d[i] == prefix[bin] + rank < out.Length;
      assert idx == rank;
      var dest := Wrap(prefix[bin] + idx);
      assert dest == d[i];
      ScatterSnoc(o, ps, d, i);
      out[dest] := pts[i];
      assert bins[..i + 1] == bins[..i] + [bin];
      OccSnocAll(bins[..i], bin);
      WrapAccumulate(rank, 1);
      cursor[bin] := Wrap(idx + 1);
      i := i + 1;
    }
    assert ps[..inBin.Length] == ps && d[..inBin.Length] == d && bins[..inBin.Length] == bins;
  }

  /**
   * What the counting sort delivers, on the contents of its buffers: the
   * counts are the histogram of the bins, the offsets their exclusive prefix
   * sums, every point is written at its destination, which lies inside its
   * bin's range of the output, and the output holds exactly the input
   * points, each as often as in the input.
   */
  ghost predicate SortedSeqs(pts: seq<Point>, bins: seq<nat>, o: seq<Point>, h: seq<nat>, p: seq<nat>)
  {
    |bins| == |pts| && |h| == |p| && AllBelow(bins, |h|) &&
    h == Histogram(bins, |h|) &&
    IsOffsets(h, p) &&
    (forall i :: 0 <= i < |bins| ==> Dests(bins, p)[i] < |o|) &&
    (forall i :: 0 <= i < |bins| ==> p[bins[i]] <= Dests(bins, p)[i] < p[bins[i]] + h[bins[i]]) &&
    (forall i :: 0 <= i < |bins| ==> o[Dests(bins, p)[i]] == pts[i]) &&
    (forall s :: 0 <= s < |o| ==> o[s] in pts) &&
    multiset(o) == multiset(pts)
  }

  ghost predicate SortedInto(points: array<Point>, bins: seq<nat>, out: array<Point>,
                             binElems: array<nat>, binPrefix: array<nat>)
    reads points, out, binElems, binPrefix
  {
    SortedSeqs(points[..], bins, out[..], binElems[..], binPrefix[..])
  }

  /**
   * An output with one slot per point, in which every point sits in a slot of
   * its own, holds the points with their multiplicities.
   */
  lemma {:induction false} PlacedIsPermutation(o: seq<Point>, pts: seq<Point>, d: seq<nat>)
    requires |o| == |pts| == |d| && Injective(d)
    requires forall i :: 0 <= i < |d| ==> d[i] < |o| && o[d[i]] == pts[i]
    ensures multiset(o) == multiset(pts)
    decreases |pts|
  {
    if |pts| > 0 {
      var n := |pts| - 1;
      var s := d[n];
      var o' := o[..s] + o[s + 1..];
      var d' := seq(n, i requires 0 <= i < n => if d[i] < s then d[i] else d[i] - 1);
      forall i | 0 <= i < n
        ensures d'[i] < |o'| && o'[d'[i]] == pts[..n][i]
      {
        assert d[i] != s;
      }
      forall i, j | 0 <= i < n && 0 <= j < n && i != j
        ensures d'[i] != d'[j]
      {
        assert d[i] != s && d[j] != s && d[i] != d[j];
      }
      PlacedIsPermutation(o', pts[..n], d');
      assert o == o[..s] + [o[s]] + o[s + 1..];
      assert pts == pts[..n] + [pts[n]];
    }
  }

  /** Scattering the points by the destinations the scanned histogram gives is a counting sort. */
  lemma ScatterSorts(bins: seq<nat>, h: seq<nat>, p: seq<nat>, blank: seq<Point>, pts: seq<Point>)
    requires |bins| < M && AllBelow(bins, |h|) && h == Histogram(bins, |h|)
    requires |p| == |h| && IsExclusiveScan(h, p, |p|)
    requires |pts| == |bins| == |blank|
    ensures (forall i :: 0 <= i < |bins| ==> Dests(bins, p)[i] < |blank|) &&
            SortedSeqs(pts, bins, Scatter(blank, pts, Dests(bins, p)), h, p)
  {
    HistogramTotal(bins, |h|);
    ScanGivesOffsets(h, p);
    DestsPermutation(bins, |h|, p);
    SortedOutput(bins, |h|, p, blank, pts);
    PlacedIsPermutation(Scatter(blank, pts, Dests(bins, p)), pts, Dests(bins, p));
  }

  /**
   * The reindex stage of `frnn_sort` and `ndt_sort` once the counts are the histogram and the
   * offsets their exclusive scan: every point lands inside its bin's range and
   * the output is a rearrangement of the input.
   */
  method ReindexSorted(points: array<Point>, bins: seq<nat>, inBin: array<nat>, binElems: array<nat>,
                       binPrefix: array<nat>, cursor: array<nat>, out: array<Point>)
    requires |bins| == points.Length == inBin.Length == out.Length < M && inBin[..] == bins
    requires binElems.Length == binPrefix.Length == cursor.Length && AllBelow(bins, binElems.Length)
    requires binElems[..] == Histogram(bins, binElems.Length)
    requires IsExclusiveScan(binElems[..], binPrefix[..], binPrefix.Length)
    requires forall b :: 0 <= b < cursor.Length ==> cursor[b] == 0
    requires out != points && cursor != inBin && cursor != binPrefix && cursor != binElems
    modifies cursor, out
    ensures SortedInto(points, bins, out, binElems, binPrefix)
  {
    ghost var h, p, pts, blank := binElems[..], binPrefix[..], points[..], out[..];
    ScatterSorts(bins, h, p, blank, pts);
    ReindexStage(points, inBin, binPrefix, cursor, out);
    assert binElems[..] == h && binPrefix[..] == p && points[..] == pts;
  }
}
