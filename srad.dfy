// The launch schedule of the multi-level sum reduction in the SRAD benchmark:
// each level reduces `no` inputs with blocks of T work-items into one partial
// sum per block, until a single block is left.

module Srad {
  import opened Wrappers
  import opened ScanPlan

  /** ⌈x / t⌉ as the host computes it: the quotient, plus one for a remainder. */
  function CeilDiv(x: nat, t: nat): (c: nat)
    requires t >= 1
  {
    x / t + (if x % t != 0 then 1 else 0)
  }

  /** The rounded-up quotient is the least block count covering x. */
  lemma CeilDivIsLeast(x: nat, t: nat)
    requires t >= 1
    ensures x <= CeilDiv(x, t) * t < x + t
    ensures CeilDiv(x, t) == 0 <==> x == 0
  {
    assert x == (x / t) * t + x % t;
  }

  /** With blocks of two or more, every level above one block shrinks. */
  lemma CeilDivShrinks(x: nat, t: nat)
    requires t >= 2 && x >= 2
    ensures 1 <= CeilDiv(x, t) < x
  {
    var q, r := x / t, x % t;
    assert x == q * t + r;
    MulStep(q, 2, t - 2);
    assert q * t >= 2 * q;
  }

  function Power(b: nat, k: nat): (p: nat)
  {
    if k == 0 then 1 else b * Power(b, k - 1)
  }

  /** x ↦ ⌈x / t⌉ applied k times. */
  function CeilIter(x: nat, t: nat, k: nat): (c: nat)
    requires t >= 1
  {
    if k == 0 then x else CeilDiv(CeilIter(x, t, k - 1), t)
  }

  /** One launch of `reduce_kernel`: its arguments no, mul and blocks_work_size, and the global size rdims[0]. */
  datatype ReduceLaunch = ReduceLaunch(no: nat, mul: nat, blocks: nat, global: nat)

  /** The launches from a level with `no` inputs and stride `mul` until one block is left. */
  function LevelsFrom(no: nat, mul: nat, t: nat): (s: seq<ReduceLaunch>)
    requires t >= 2
    ensures |s| == 0 <==> no == 0
    decreases no
  {
    CeilDivIsLeast(no, t);
    var blocks := CeilDiv(no, t);
    if blocks == 0 then []
    else if blocks == 1 then [ReduceLaunch(no, mul, blocks, blocks * t)]
    else
      CeilDivShrinks(no, t);
      [ReduceLaunch(no, mul, blocks, blocks * t)] + LevelsFrom(blocks, mul * t, t)
  }

  /** The whole schedule for ne input values. */
  function Schedule(ne: nat, t: nat): (s: seq<ReduceLaunch>)
    requires t >= 2
    ensures |s| == 0 <==> ne == 0
  {
    LevelsFrom(ne, 1, t)
  }

  /**
   * The reduce loop of `main` for one iteration: `t` is NUMBER_THREADS, the
   * work-group size; `failAt` is the launch, counted from 0, at which setting
   * the arguments or enqueueing fails, making `main` return -1.
   */
  method ReduceSchedule(ne: nat, t: nat, failAt: Option<nat>) returns (r: Option<seq<ReduceLaunch>>)
    requires t >= 2
    ensures r.None? <==> failAt.Some? && failAt.value < |Schedule(ne, t)|
    ensures r.Some? ==> r.value == Schedule(ne, t)
  {
    var mul: nat := 1;
    var no: nat := ne;
    var blocks: nat := ne / t;
    if ne % t != 0 {
      blocks := blocks + 1;
    }
    var rdims: nat := blocks * t;
    var launches: seq<ReduceLaunch> := [];
    while blocks != 0
      invariant blocks != 0 ==> blocks == CeilDiv(no, t) && rdims == blocks * t
      invariant blocks != 0 ==> launches + LevelsFrom(no, mul, t) == Schedule(ne, t)
      invariant blocks == 0 ==> launches == Schedule(ne, t)
      invariant failAt.Some? ==> failAt.value >= |launches|
      decreases blocks
    {
      if failAt == Some(|launches|) {
        assert |LevelsFrom(no, mul, t)| >= 1;
        return None;
      }
      launches := launches + [ReduceLaunch(no, mul, blocks, rdims)];

      no := blocks;
      if blocks == 1 {
        blocks := 0;
      } else {
        CeilDivShrinks(blocks, t);
        mul := mul * t;
        var blocksX: nat := blocks / t;
        if blocks % t != 0 {
          blocksX := blocksX + 1;
        }
        blocks := blocksX;
        rdims := blocks * t;
      }
    }
    return Some(launches);
  }

  // ------------------------------------------------------------------ properties

  /**
   * Level k of a schedule starting from `no` inputs with stride `mul`: a global
   * size that is a whole number of work groups covering all of its inputs, the
   * result of rounding k times as its input count, stride mul * t^k, and one
   * more rounding's worth of blocks.
   */
  ghost predicate LevelOk(l: ReduceLaunch, no: nat, mul: nat, t: nat, k: nat)
    requires t >= 2
  {
    l.global % t == 0 && l.no <= l.global && l.global == l.blocks * t &&
    l.mul == mul * Power(t, k) && l.no == CeilIter(no, t, k) && l.blocks == CeilIter(no, t, k + 1)
  }

  lemma {:induction false} LevelAt(no: nat, mul: nat, t: nat, k: nat)
    requires t >= 2 && k < |LevelsFrom(no, mul, t)|
    ensures LevelOk(LevelsFrom(no, mul, t)[k], no, mul, t, k)
    decreases no
  {
    var blocks := CeilDiv(no, t);
    CeilDivIsLeast(no, t);
    if k == 0 {
      MulMod(blocks, t);
    } else {
      CeilDivShrinks(no, t);
      assert LevelsFrom(no, mul, t)[k] == LevelsFrom(blocks, mul * t, t)[k - 1];
      LevelAt(blocks, mul * t, t, k - 1);
      CeilIterShift(no, t, k - 1);
      CeilIterShift(no, t, k);
      StrideStep(mul, t, k);
    }
  }

  /** Every level of the schedule has the shape `LevelOk` describes. */
  lemma ScheduleShape(ne: nat, t: nat)
    requires t >= 2
    ensures forall k :: 0 <= k < |Schedule(ne, t)| ==> LevelOk(Schedule(ne, t)[k], ne, 1, t, k)
  {
    forall k | 0 <= k < |Schedule(ne, t)|
      ensures LevelOk(Schedule(ne, t)[k], ne, 1, t, k)
    {
      LevelAt(ne, 1, t, k);
    }
  }

  /** The stride of level k from stride mul is level k - 1's from stride mul * t. */
  lemma StrideStep(mul: nat, t: nat, k: nat)
    requires k >= 1
    ensures mul * Power(t, k) == (mul * t) * Power(t, k - 1)
  {
    assert Power(t, k) == t * Power(t, k - 1);
  }

  lemma MulMod(a: nat, t: nat)
    requires t >= 1
    ensures (a * t) % t == 0 && (a * t) / t == a
  {
    DivPlusSmall(a, t, 0);
  }

  /**
   * The schedule ends with the first level that leaves a single block: every
   * earlier level leaves more than one, and there is at least one level exactly
   * when there is at least one input.
   */
  lemma {:induction false} LevelsEnd(no: nat, mul: nat, t: nat)
    requires t >= 2
    ensures |LevelsFrom(no, mul, t)| >= 1 <==> no >= 1
    ensures no >= 1 ==> LevelsFrom(no, mul, t)[|LevelsFrom(no, mul, t)| - 1].blocks == 1
    ensures forall k :: 0 <= k < |LevelsFrom(no, mul, t)| - 1 ==> LevelsFrom(no, mul, t)[k].blocks > 1
    decreases no
  {
    var blocks := CeilDiv(no, t);
    CeilDivIsLeast(no, t);
    if blocks >= 2 {
      CeilDivShrinks(no, t);
      LevelsEnd(blocks, mul * t, t);
      var s := LevelsFrom(no, mul, t);
      var rest := LevelsFrom(blocks, mul * t, t);
      assert s == [s[0]] + rest;
      forall k | 1 <= k < |s| - 1
        ensures s[k].blocks > 1
      {
        assert s[k] == rest[k - 1];
      }
    }
  }

  /**
   * The number of launches for ne >= 1 inputs is the least k >= 1 for which
   * rounding ne up to blocks of t, k times, gives 1.
   */
  lemma ScheduleLength(ne: nat, t: nat)
    requires t >= 2 && ne >= 1
    ensures |Schedule(ne, t)| >= 1 && CeilIter(ne, t, |Schedule(ne, t)|) == 1
    ensures forall k :: 1 <= k < |Schedule(ne, t)| ==> CeilIter(ne, t, k) > 1
  {
    var s := Schedule(ne, t);
    LevelsEnd(ne, 1, t);
    LevelAt(ne, 1, t, |s| - 1);
    forall k | 1 <= k < |s|
      ensures CeilIter(ne, t, k) > 1
    {
      LevelAt(ne, 1, t, k - 1);
    }
  }

  /** Applying the rounding k + 1 times is applying it once, then k times. */
  lemma {:induction false} CeilIterShift(x: nat, t: nat, k: nat)
    requires t >= 1
    ensures CeilIter(CeilDiv(x, t), t, k) == CeilIter(x, t, k + 1)
  {
    if k > 0 {
      CeilIterShift(x, t, k - 1);
    }
  }
}
