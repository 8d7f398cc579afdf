// The host side of the normal-distributions-transform benchmark: the same
// counting sort as the neighbour search but on a coarser grid and with an
// output sized by the number of points counted, the 3x4 translation matrix,
// and the two-dimensional launch grid of its per-point kernels.

module Ndt {
  import opened Wrappers
  import opened Sums
  import opened ScanPlan
  import opened PrefixSum
  import opened Bucketing

  /** Bins along each axis. */
  const BinsDim: nat := 40

  /** Number of real bins, `bins_dim * bins_dim * bins_dim`. */
  const GridBins: nat := BinsDim * BinsDim * BinsDim

  // ------------------------------------------------------------------ sorted_entries

  /**
   * `sorted_entries`: the offset of the last real bin plus its count, added
   * as `unsigned int`. Padding bins after it are not read.
   */
  function SortedEntries(binElems: seq<nat>, binPrefix: seq<nat>): (n: nat)
    requires GridBins <= |binElems| && GridBins <= |binPrefix|
    ensures n < M
  {
    Wrap(binPrefix[GridBins - 1] + binElems[GridBins - 1])
  }

  /** Over an exclusive scan, the result is the total count of the real bins, modulo 2^32. */
  lemma SortedEntriesIsTotal(binElems: seq<nat>, binPrefix: seq<nat>)
    requires GridBins <= |binElems| && GridBins <= |binPrefix|
    requires IsExclusiveScan(binElems, binPrefix, GridBins)
    ensures SortedEntries(binElems, binPrefix) == Wrap(Sum(binElems[..GridBins]))
  {
    var last := GridBins - 1;
    assert binElems[..GridBins][..last] == binElems[..last];
    WrapAccumulate(Sum(binElems[..last]), binElems[last]);
  }

  /**
   * When the counts are the histogram of points that all fall in real bins,
   * the result is the number of points.
   */
  lemma SortedEntriesCountsPoints(bins: seq<nat>, binElems: seq<nat>, binPrefix: seq<nat>)
    requires |bins| < M && AllBelow(bins, GridBins)
    requires GridBins <= |binElems| && GridBins <= |binPrefix|
    requires binElems == Histogram(bins, |binElems|)
    requires IsExclusiveScan(binElems, binPrefix, GridBins)
    ensures SortedEntries(binElems, binPrefix) == |bins|
  {
    SortedEntriesIsTotal(binElems, binPrefix);
    HistogramPrefix(bins, GridBins, |binElems|);
    HistogramTotal(bins, GridBins);
  }

  // ------------------------------------------------------------------ ndt_sort

  /**
   * The outcome of `ndt_sort`: NULL (`Failed`); a failed prefix sum, after
   * which `sorted_entries` reads from an invalid buffer and the count it
   * returns is undefined (`BadPrefix`); or the sorted points with the
   * per-bin counts and offsets and the number of points sorted.
   */
  datatype SortResult =
    | Failed
    | BadPrefix
    | Sorted(out: array<Point>, binElems: array<nat>, binPrefix: array<nat>, sortedElems: nat)

  /** The steps that precede the prefix sum. */
  predicate BeforeScan(s: SortStep)
  {
    s.CreateCountKernel? || s.CreateBinBuffer? || s.CreateCountBuffer? || s.BindCountArgs? || s.EnqueueCount?
  }

  /**
   * The steps whose failure returns NULL whatever the prefix sum did: those
   * before it, and the reindex kernel and cursor buffer, which do not use its
   * result. The sorted buffer is sized by `sorted_entries` and the reindex
   * arguments include the offsets, so the later steps depend on it.
   */
  predicate PrefixIndependent(s: SortStep)
  {
    BeforeScan(s) || s.CreateReindexKernel? || s.CreateCursorBuffer?
  }

  /**
   * `ndt_sort`. `bins[i]` is the bin `kernel_ins_cnt` computes for `points[i]`,
   * `w` the device's maximum work-group size, `fault` the step of this function
   * that reports an error (if any), `scanFault` the one inside `prefix_sum`,
   * and `junk` the uninitialised contents of its intermediate buffer.
   */
  method NdtSort(points: array<Point>, bins: seq<nat>, w: nat, fault: Option<SortStep>,
                 scanFault: Option<ScanStep>, junk: seq<nat>)
    returns (r: SortResult)
    requires |bins| == points.Length && 3 * |bins| < M
    requires AllBelow(bins, GridBins)
    requires w >= 1 && (IsPow2(w) || WorkGroups(GridBins, w) > 1)
    requires |junk| >= w
    ensures points[..] == old(points[..])
    ensures r.Failed? <==>
              fault.Some? && (PrefixIndependent(fault.value) || !ScanFails(PaddedLength(GridBins, w), w, scanFault))
    ensures r.BadPrefix? <==>
              (fault.None? || !PrefixIndependent(fault.value)) && ScanFails(PaddedLength(GridBins, w), w, scanFault)
    ensures r.Sorted? ==>
              (fresh(r.out) && fresh(r.binElems) && fresh(r.binPrefix) &&
               r.sortedElems == |bins| == r.out.Length &&
               r.binElems.Length == r.binPrefix.Length == PaddedLength(GridBins, w) &&
               SortedInto(points, bins, r.out, r.binElems, r.binPrefix))
  {
    if fault.Some? && (fault.value.CreateCountKernel? || fault.value.CreateBinBuffer?) {
      return Failed;
    }
    var inBin := new nat[points.Length];
    var binsLen := PrefixSumElemsCeil(GridBins, w, null);
    assert binsLen == PaddedLength(GridBins, w);
    if fault.Some? && fault.value.CreateCountBuffer? {
      return Failed;
    }
    var binElems := new nat[binsLen](_ => 0);
    if fault.Some? && (fault.value.BindCountArgs? || fault.value.EnqueueCount?) {
      return Failed;
    }
    CountIntoZeroed(bins, inBin, binElems);

    var prefix, _ := Scan(binElems, binsLen, w, scanFault, junk);
    if prefix.None? {
      if fault.Some? && (fault.value.CreateReindexKernel? || fault.value.CreateCursorBuffer?) {
        return Failed;
      }
      return BadPrefix;
    }
    var binPrefix := prefix.value;
    var sortedElems := SortedEntries(binElems[..], binPrefix[..]);
    SortedEntriesCountsPoints(bins, binElems[..], binPrefix[..]);

    if fault.Some? && (fault.value.CreateReindexKernel? || fault.value.CreateCursorBuffer?) {
      return Failed;
    }
    var cursor := new nat[binsLen](_ => 0);
    if fault.Some? && fault.value.CreateSortedBuffer? {
      return Failed;
    }
    var out := new Point[sortedElems](_ => Point(0.0, 0.0, 0.0));
    if fault.Some? && (fault.value.BindReindexArgs? || fault.value.EnqueueReindex?) {
      return Failed;
    }
    ReindexSorted(points, bins, inBin, binElems, binPrefix, cursor, out);
    r := Sorted(out, binElems, binPrefix, sortedElems);
  }

  // ------------------------------------------------------------------ launch grid

  /** Rows of the {1024, y} grid of `ndt_elem_qC` and `ndt_elem_transform`: elems / 1024, plus one for a remainder. */
  function LaunchRows(elems: nat): (y: nat)
    ensures y == 0 <==> elems == 0
    ensures elems <= 1024 * y
  {
    assert elems == 1024 * (elems / 1024) + elems % 1024;
    elems / 1024 + (if elems % 1024 != 0 then 1 else 0)
  }

  /** The grid has one work-item per element and less than one row to spare; no smaller grid does. */
  lemma LaunchRowsCovers(elems: nat)
    ensures elems <= 1024 * LaunchRows(elems) < elems + 1024
    ensures forall y: nat :: elems <= 1024 * y ==> LaunchRows(elems) <= y
  {
    var y := LaunchRows(elems);
    assert elems == 1024 * (elems / 1024) + elems % 1024;
    assert y == 0 || 1024 * (y - 1) < elems;
  }

  /** Element i is handled by the work-item at column i % 1024 of row i / 1024, inside the grid. */
  lemma LaunchRowsPlacesElement(elems: nat, i: nat)
    requires i < elems
    ensures i % 1024 < 1024 && i / 1024 < LaunchRows(elems)
    ensures (i / 1024) * 1024 + i % 1024 == i
  {
    LaunchRowsCovers(elems);
    assert 1024 * (i / 1024) <= i;
  }

  // ------------------------------------------------------------------ calc_translation

  /** A 3x4 row-major transform [R | t] applied to a point. */
  function Apply(m: seq<real>, p: Point): (q: Point)
    requires |m| == 12
  {
    Point(m[0] * p.x + m[1] * p.y + m[2] * p.z + m[3],
          m[4] * p.x + m[5] * p.y + m[6] * p.z + m[7],
          m[8] * p.x + m[9] * p.y + m[10] * p.z + m[11])
  }

  /** The translation by (x, y, z): identity rotation, offset in the last column. */
  function Translation(x: real, y: real, z: real): (m: seq<real>)
    ensures |m| == 12
  {
    [1.0, 0.0, 0.0, x,
     0.0, 1.0, 0.0, y,
     0.0, 0.0, 1.0, z]
  }

  /** The translation matrix moves every point by (x, y, z) and nothing else. */
  lemma TranslationMoves(x: real, y: real, z: real, p: Point)
    ensures Apply(Translation(x, y, z), p) == Point(p.x + x, p.y + y, p.z + z)
  {
  }

  /** `calc_translation`: fills all twelve entries; the rotation argument rz is not used. */
  method CalcTranslation(x: real, y: real, z: real, rz: real, target: array<real>)
    requires target.Length == 12
    modifies target
    ensures target[..] == Translation(x, y, z)
  {
    target[3] := x;
    target[7] := y;
    target[11] := z;

    target[0] := 1.0;
    target[1] := 0.0;
    target[2] := 0.0;
    target[4] := 0.0;
    target[5] := 1.0;
    target[6] := 0.0;
    target[8] := 0.0;
    target[9] := 0.0;
    target[10] := 1.0;
    assert target[..] == [target[0], target[1], target[2], target[3], target[4], target[5],
                          target[6], target[7], target[8], target[9], target[10], target[11]];
    assert target[0] == 1.0 && target[1] == 0.0 && target[2] == 0.0 && target[3] == x;
    assert target[4] == 0.0 && target[5] == 1.0 && target[6] == 0.0 && target[7] == y;
    assert target[8] == 0.0 && target[9] == 0.0 && target[10] == 1.0 && target[11] == z;
  }
}
