// Counting sort of the point cloud into a uniform grid of bins (`frnn_sort`):
// count points per bin, scan the counts into offsets, then scatter each point
// to its bin's offset plus its rank among the earlier points of that bin.

module Frnn {
  import opened Wrappers
  import opened Sums
  import opened ScanPlan
  import opened PrefixSum
  import opened Bucketing

  /** Bins along each axis of the unit cube. */
  const BinsDim: nat := 100

  /** Number of bins in the grid, `bins_dim * bins_dim * bins_dim`. */
  const GridBins: nat := BinsDim * BinsDim * BinsDim

  /**
   * The outcome of `frnn_sort`: NULL (`Failed`); the reindex kernel launched
   * with the (cl_mem)-1 sentinel as its offsets buffer because the prefix sum failed, whose effect the
   * model does not describe (`BadPrefix`); or the sorted points with the
   * per-bin counts and offsets handed back through the out-parameters.
   */
  datatype SortResult =
    | Failed
    | BadPrefix
    | Sorted(out: array<Point>, binElems: array<nat>, binPrefix: array<nat>)

  /**
   * `frnn_sort`. `bins[i]` is the bin `kernel_ins_cnt` computes for `points[i]`,
   * `w` the device's maximum work-group size, `fault` the step of this function
   * that reports an error (if any), `scanFault` the one inside `prefix_sum`,
   * and `junk` the uninitialised contents of its intermediate buffer.
   */
  method FrnnSort(points: array<Point>, bins: seq<nat>, w: nat, fault: Option<SortStep>,
                  scanFault: Option<ScanStep>, junk: seq<nat>)
    returns (r: SortResult)
    requires |bins| == points.Length < M
    requires AllBelow(bins, GridBins)
    requires w >= 1 && (IsPow2(w) || WorkGroups(GridBins, w) > 1)
    requires |junk| >= w
    ensures points[..] == old(points[..])
    ensures r.Failed? <==> fault.Some?
    ensures r.BadPrefix? <==> fault.None? && ScanFails(PaddedLength(GridBins, w), w, scanFault)
    ensures r.Sorted? ==>
              (fresh(r.out) && fresh(r.binElems) && fresh(r.binPrefix) &&
               r.out.Length == points.Length &&
               r.binElems.Length == r.binPrefix.Length == PaddedLength(GridBins, w) &&
               SortedInto(points, bins, r.out, r.binElems, r.binPrefix))
  {
    if fault.Some? && (fault.value.CreateCountKernel? || fault.value.CreateBinBuffer?) {
      return Failed;
    }
    var inBin := new nat[points.Length];
    var binsLen := PrefixSumElemsCeil(GridBins, w, null);
    assert binsLen == PaddedLength(GridBins, w);
    if fault.Some? && fault.value.CreateCountBuffer? {
      return Failed;
    }
    var binElems := new nat[binsLen](_ => 0);
    if fault.Some? && (fault.value.BindCountArgs? || fault.value.EnqueueCount?) {
      return Failed;
    }
    CountIntoZeroed(bins, inBin, binElems);

    var prefix, _ := Scan(binElems, binsLen, w, scanFault, junk);

    if fault.Some? && (fault.value.CreateReindexKernel? || fault.value.CreateCursorBuffer?) {
      return Failed;
    }
    var cursor := new nat[binsLen](_ => 0);
    if fault.Some? && fault.value.CreateSortedBuffer? {
      return Failed;
    }
    var out := new Point[points.Length](_ => Point(0.0, 0.0, 0.0));
    if fault.Some? && (fault.value.BindReindexArgs? || fault.value.EnqueueReindex?) {
      return Failed;
    }
    if prefix.None? {
      return BadPrefix;
    }
    var binPrefix := prefix.value;
    ReindexSorted(points, bins, inBin, binElems, binPrefix, cursor, out);
    r := Sorted(out, binElems, binPrefix);
  }
}
