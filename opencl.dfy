// The benchmark-independent host library: the command-line options every
// benchmark accepts and their global state, the platform and device index
// checks, the release of the OpenCL handles, and the output comparison loop.

module Opencl {
  import opened Wrappers

  const U32: nat := 0x1_0000_0000

  /** Linux errno values. */
  const EINVAL: int := 22
  const ENOSYS: int := 38

  /** `OPENCL_OPTS`, the getopt string the benchmarks append to their own. */
  const OpenclOpts: string := "P:d:I:c"

  // ------------------------------------------------------------------ sscanf("%u")

  predicate IsSpace(ch: char)
  {
    ch == ' ' || ch == '\t' || ch == '\n' || ch == '\U{B}' || ch == '\U{C}' || ch == '\r'
  }

  predicate IsDigit(ch: char)
  {
    '0' <= ch <= '9'
  }

  predicate AllDigits(s: string)
  {
    forall i :: 0 <= i < |s| ==> IsDigit(s[i])
  }

  /** The value of a string of decimal digits. */
  function DigitsValue(s: string): nat
    requires AllDigits(s)
  {
    if |s| == 0 then 0 else DigitsValue(s[..|s| - 1]) * 10 + (s[|s| - 1] as int - '0' as int)
  }

  /** The number of leading decimal digits. */
  function DigitRun(s: string): (n: nat)
    ensures n <= |s| && AllDigits(s[..n])
    ensures n < |s| ==> !IsDigit(s[n])
  {
    if |s| > 0 && IsDigit(s[0]) then
      var n := 1 + DigitRun(s[1..]);
      assert s[..n] == [s[0]] + s[1..][..n - 1];
      n
    else 0
  }

  /**
   * `sscanf(s, "%u", &v)`: skips white space, takes an optional sign and the
   * longest run of decimal digits after it, and ignores what follows. None is
   * a return value other than 1 (no digits). A minus sign negates modulo 2^32,
   * as strtoul does before the value is stored into an `unsigned int`.
   */
  function ScanUnsigned(s: string): (r: Option<nat>)
    ensures r.Some? ==> r.value < U32
  {
    if |s| > 0 && IsSpace(s[0]) then ScanUnsigned(s[1..])
    else
      var signed := |s| > 0 && (s[0] == '+' || s[0] == '-');
      var body := if signed then s[1..] else s;
      var n := DigitRun(body);
      if n == 0 then None
      else
        var v := DigitsValue(body[..n]) % U32;
        Some(if signed && s[0] == '-' then (U32 - v) % U32 else v)
  }

  function DigitChar(d: nat): (ch: char)
    requires d < 10
    ensures IsDigit(ch) && ch as int - '0' as int == d
  {
    ('0' as int + d) as char
  }

  /** The decimal representation of n, without leading zeros. */
  function Decimal(n: nat): (s: string)
    ensures |s| >= 1 && AllDigits(s)
  {
    if n < 10 then [DigitChar(n)] else Decimal(n / 10) + [DigitChar(n % 10)]
  }

  lemma {:induction false} DecimalValue(n: nat)
    ensures DigitsValue(Decimal(n)) == n
  {
    if n >= 10 {
      DecimalValue(n / 10);
      var s := Decimal(n);
      assert s[..|s| - 1] == Decimal(n / 10);
    }
  }

  lemma {:induction false} DigitRunAll(s: string)
    requires AllDigits(s)
    ensures DigitRun(s) == |s|
  {
    if |s| > 0 {
      DigitRunAll(s[1..]);
    }
  }

  /** Scanning the decimal representation of an unsigned int gives it back. */
  lemma ScanDecimal(n: nat)
    requires n < U32
    ensures ScanUnsigned(Decimal(n)) == Some(n)
  {
    var s := Decimal(n);
    assert IsDigit(s[0]);
    assert !IsSpace(s[0]) && s[0] != '+' && s[0] != '-';
    DigitRunAll(s);
    DecimalValue(n);
    assert s[..|s|] == s;
    assert DigitsValue(s) % U32 == n;
  }

  /** "-1" is accepted, as the largest unsigned int. */
  lemma ScanMinusOne()
    ensures ScanUnsigned("-1") == Some(U32 - 1)
  {
    var body := "-1"[1..];
    assert body == "1";
    assert DigitRun(body) == 1 by {
      assert DigitRun(body[1..]) == 0;
    }
    assert body[..1] == "1";
    assert DigitsValue("1") == DigitsValue("1"[..0]) * 10 + 1;
  }

  // ------------------------------------------------------------------ option state

  /** The conversion of an `unsigned int` into an `int` field, two's complement. */
  function ToInt32(u: nat): (i: int)
    requires u < U32
    ensures -0x8000_0000 <= i < 0x8000_0000
    ensures i >= 0 <==> u < 0x8000_0000
  {
    if u < 0x8000_0000 then u else u - U32
  }

  /** The library's option state. */
  datatype Options = Options(platform: int, device: int, compareOutput: bool, iterations: nat)

  /** Platform 0, device 0, no output comparison, ten iterations. */
  const Defaults: Options := Options(0, 0, false, 10)

  /** `opencl_parse_option` on the state as a value: the new state and the return code. */
  function ParseStep(o: Options, c: char, optarg: string): (r: (Options, int))
  {
    match c
    case 'P' =>
      var v := ScanUnsigned(optarg);
      if v.None? then (o, -EINVAL) else (o.(platform := ToInt32(v.value)), 0)
    case 'd' =>
      var v := ScanUnsigned(optarg);
      if v.None? then (o, -EINVAL) else (o.(device := ToInt32(v.value)), 0)
    case 'I' =>
      var v := ScanUnsigned(optarg);
      if v.None? then (o, -EINVAL) else (o.(iterations := v.value), 0)
    case 'c' => (o.(compareOutput := true), 0)
    case _ => (o, -ENOSYS)
  }

  /** The global `state` of the library, with the fields the options set. */
  class State {
    var platform: int
    var device: int
    var compareOutput: bool
    var iterations: nat

    ghost predicate Valid()
      reads this
    {
      -0x8000_0000 <= platform < 0x8000_0000 && -0x8000_0000 <= device < 0x8000_0000 && iterations < U32
    }

    function Snapshot(): Options
      reads this
    {
      Options(platform, device, compareOutput, iterations)
    }

    constructor ()
      ensures Snapshot() == Defaults && Valid()
    {
      platform := 0;
      device := 0;
      compareOutput := false;
      iterations := 10;
    }

    /** `opencl_compare_output`. */
    function CompareOutput(): (b: bool)
      reads this
      ensures b == Snapshot().compareOutput
    {
      compareOutput
    }

    /** `opencl_get_iterations`. */
    function GetIterations(): (n: nat)
      reads this
      ensures n == Snapshot().iterations
    {
      iterations
    }

    /** `opencl_parse_option(c, optarg)`. */
    method ParseOption(c: char, optarg: string) returns (ret: int)
      requires Valid()
      modifies this
      ensures Valid()
      ensures (Snapshot(), ret) == ParseStep(old(Snapshot()), c, optarg)
    {
      match c
      case 'P' =>
        var optval := ScanUnsigned(optarg);
        if optval.None? {
          return -EINVAL;
        }
        platform := ToInt32(optval.value);
        return 0;
      case 'd' =>
        var optval := ScanUnsigned(optarg);
        if optval.None? {
          return -EINVAL;
        }
        device := ToInt32(optval.value);
        return 0;
      case 'I' =>
        var optval := ScanUnsigned(optarg);
        if optval.None? {
          return -EINVAL;
        }
        iterations := optval.value;
        return 0;
      case 'c' =>
        compareOutput := true;
        return 0;
      case _ =>
        return -ENOSYS;
    }
  }

  /** The option letters of a getopt string. */
  function OptionLetters(opts: string): (l: set<char>)
    ensures forall ch :: ch in l <==> ch in opts && ch != ':'
  {
    set ch | ch in opts && ch != ':'
  }

  /** Exactly the letters of `OPENCL_OPTS` are recognised; every other one gives -ENOSYS and changes nothing. */
  lemma ParseRecognisesOpts(o: Options, c: char, optarg: string)
    ensures ParseStep(o, c, optarg).1 == -ENOSYS <==> c !in OptionLetters(OpenclOpts)
    ensures c !in OptionLetters(OpenclOpts) ==> ParseStep(o, c, optarg).0 == o
  {
    assert OpenclOpts == ['P', ':', 'd', ':', 'I', ':', 'c'];
  }

  /** A call changes at most the field its option names, and fails only by leaving the state alone. */
  lemma ParseOneField(o: Options, c: char, optarg: string)
    ensures var (o', ret) := ParseStep(o, c, optarg);
            (c != 'P' ==> o'.platform == o.platform) &&
            (c != 'd' ==> o'.device == o.device) &&
            (c != 'c' ==> o'.compareOutput == o.compareOutput) &&
            (c != 'I' ==> o'.iterations == o.iterations) &&
            (ret != 0 ==> o' == o) && (ret == 0 || ret == -EINVAL || ret == -ENOSYS)
  {
  }

  /** A number option is stored exactly when its argument scans, and rejected with -EINVAL otherwise. */
  lemma ParseNumber(o: Options, c: char, optarg: string)
    requires c == 'P' || c == 'd' || c == 'I'
    ensures ParseStep(o, c, optarg).1 == -EINVAL <==> ScanUnsigned(optarg).None?
    ensures ScanUnsigned(optarg).Some? ==>
              ParseStep(o, c, optarg) ==
                (match c
                 case 'P' => (o.(platform := ToInt32(ScanUnsigned(optarg).value)), 0)
                 case 'd' => (o.(device := ToInt32(ScanUnsigned(optarg).value)), 0)
                 case _ => (o.(iterations := ScanUnsigned(optarg).value), 0))
  {
  }

  /** Writing an iteration count in decimal and parsing it back sets exactly that count. */
  lemma ParseIterationsRoundTrip(o: Options, n: nat)
    requires n < U32
    ensures ParseStep(o, 'I', Decimal(n)) == (o.(iterations := n), 0)
  {
    ScanDecimal(n);
  }

  /** `-c` turns comparison on whatever its argument, and giving it again changes nothing. */
  lemma ParseCompareIdempotent(o: Options, a: string, b: string)
    ensures ParseStep(o, 'c', a) == (o.(compareOutput := true), 0)
    ensures ParseStep(ParseStep(o, 'c', a).0, 'c', b) == ParseStep(o, 'c', a)
  {
  }

  // ------------------------------------------------------------------ platform and device index

  /**
   * The index check of `opencl_create_context` as written: the `int` index plus
   * one, converted to `unsigned int` for the comparison with the count.
   */
  function RejectsIndexAsWritten(count: nat, index: int): (b: bool)
    requires count < U32 && -0x8000_0000 <= index < 0x8000_0000
    ensures index == -1 ==> !b
    ensures 0 <= index < 0x7FFF_FFFF ==> (b <==> count <= index)
  {
    count < (index + 1) % U32
  }

  /** The evidently intended check: the index names one of the count platforms or devices. */
  function RejectsIndex(count: nat, index: int): (b: bool)
    ensures !b <==> 0 <= index < count
  {
    !(0 <= index < count)
  }

  /** On the non-negative indices up to INT_MAX - 1 the check as written is the intended one. */
  lemma IndexChecksAgree(count: nat, index: int)
    requires count < U32 && 0 <= index < 0x7FFF_FFFF
    ensures RejectsIndexAsWritten(count, index) == RejectsIndex(count, index)
  {
  }

  /**
   * `-P -1` (or `-P 4294967295`) stores platform -1, which the check as written
   * lets through with any non-zero count, so `l_platforms[-1]` is read.
   */
  lemma MinusOneIndexPasses(count: nat)
    requires 1 <= count < U32
    ensures ParseStep(Defaults, 'P', "-1").0.platform == -1
    ensures !RejectsIndexAsWritten(count, -1)
    ensures RejectsIndex(count, -1)
  {
    ScanMinusOne();
  }

  /**
   * The platform (or device) selection with the intended check: no platforms,
   * or an index out of range, selects none.
   */
  function SelectIndex(count: nat, index: int): (r: Option<nat>)
    ensures r.Some? <==> 0 <= index < count
    ensures r.Some? ==> r.value == index
  {
    if count == 0 then None
    else if RejectsIndex(count, index) then None
    else Some(index)
  }

  // ------------------------------------------------------------------ teardown

  /** A `cl_context *`, `cl_command_queue *` or `cl_program *`: a variable holding a handle or NULL. */
  class HandleSlot {
    var handle: Option<nat>

    constructor (h: Option<nat>)
      ensures handle == h
    {
      handle := h;
    }
  }

  datatype Release = ReleaseProgram(h: nat) | ReleaseQueue(h: nat) | ReleaseContext(h: nat)

  /** The handle a possibly-NULL pointer leads to, if any. */
  ghost function Held(s: HandleSlot?): Option<nat>
    reads s
  {
    if s == null then None else s.handle
  }

  /** The releases `opencl_teardown` performs: program, then queue, then context, each only when held. */
  function Releases(prg: Option<nat>, q: Option<nat>, ctx: Option<nat>): (r: seq<Release>)
    ensures |r| <= 3
    ensures r == [] <==> prg.None? && q.None? && ctx.None?
  {
    (if prg.Some? then [ReleaseProgram(prg.value)] else []) +
    (if q.Some? then [ReleaseQueue(q.value)] else []) +
    (if ctx.Some? then [ReleaseContext(ctx.value)] else [])
  }

  /** `opencl_teardown(ctx, q, prg)`: releases every held handle and clears its variable. */
  method Teardown(ctx: HandleSlot?, q: HandleSlot?, prg: HandleSlot?) returns (released: seq<Release>)
    requires ctx != null && q != null ==> ctx != q
    requires ctx != null && prg != null ==> ctx != prg
    requires q != null && prg != null ==> q != prg
    modifies ctx, q, prg
    ensures released == Releases(old(Held(prg)), old(Held(q)), old(Held(ctx)))
    ensures Held(ctx).None? && Held(q).None? && Held(prg).None?
  {
    released := [];
    if prg != null && prg.handle.Some? {
      released := released + [ReleaseProgram(prg.handle.value)];
      prg.handle := None;
    }
    if q != null && q.handle.Some? {
      released := released + [ReleaseQueue(q.handle.value)];
      q.handle := None;
    }
    if ctx != null && ctx.handle.Some? {
      released := released + [ReleaseContext(ctx.handle.value)];
      ctx.handle := None;
    }
  }

  /** A teardown after a teardown releases nothing. */
  method TeardownTwice(ctx: HandleSlot?, q: HandleSlot?, prg: HandleSlot?) returns (second: seq<Release>)
    requires ctx != null && q != null ==> ctx != q
    requires ctx != null && prg != null ==> ctx != prg
    requires q != null && prg != null ==> q != prg
    modifies ctx, q, prg
    ensures second == []
  {
    var first := Teardown(ctx, q, prg);
    second := Teardown(ctx, q, prg);
  }

  // ------------------------------------------------------------------ output comparison

  /** The number of mismatching elements among the first n. */
  function Mismatches(rvals: seq<real>, ovals: seq<real>, mismatch: (real, real) -> bool, n: nat): (m: nat)
    requires n <= |rvals| && n <= |ovals|
    ensures m <= n
  {
    if n == 0 then 0
    else Mismatches(rvals, ovals, mismatch, n - 1) + (if mismatch(rvals[n - 1], ovals[n - 1]) then 1 else 0)
  }

  lemma {:induction false} MismatchesExist(rvals: seq<real>, ovals: seq<real>, mismatch: (real, real) -> bool, n: nat)
    requires n <= |rvals| && n <= |ovals|
    ensures Mismatches(rvals, ovals, mismatch, n) > 0 <==> exists i :: 0 <= i < n && mismatch(rvals[i], ovals[i])
  {
    if n > 0 {
      MismatchesExist(rvals, ovals, mismatch, n - 1);
    }
  }

  lemma {:induction false} MismatchesMonotone(rvals: seq<real>, ovals: seq<real>, mismatch: (real, real) -> bool, i: nat, n: nat)
    requires i <= n <= |rvals| && n <= |ovals|
    ensures Mismatches(rvals, ovals, mismatch, i) <= Mismatches(rvals, ovals, mismatch, n)
    decreases n - i
  {
    if i < n {
      MismatchesMonotone(rvals, ovals, mismatch, i, n - 1);
    }
  }

  /**
   * `opencl_compare_out_float`: `mismatch(r, o)` is the test `diff > delta` for
   * the chosen error margin. Returns -EINVAL exactly when some element
   * mismatches, and the number of mismatches reported, which stops at ten.
   */
  method CompareOutFloat(rvals: seq<real>, ovals: seq<real>, elems: nat, mismatch: (real, real) -> bool)
    returns (retval: int, errors: nat)
    requires elems <= |rvals| && elems <= |ovals|
    ensures retval == -EINVAL <==> exists i :: 0 <= i < elems && mismatch(rvals[i], ovals[i])
    ensures retval == 0 || retval == -EINVAL
    ensures errors == if Mismatches(rvals, ovals, mismatch, elems) < 10 then Mismatches(rvals, ovals, mismatch, elems) else 10
  {
    retval := 0;
    errors := 0;
    var i := 0;
    while i < elems
      invariant 0 <= i <= elems
      invariant errors == Mismatches(rvals, ovals, mismatch, i) < 10
      invariant retval == (if errors > 0 then -EINVAL else 0)
    {
      if mismatch(rvals[i], ovals[i]) {
        retval := -EINVAL;
        errors := errors + 1;
      }
      if errors >= 10 {
        MismatchesMonotone(rvals, ovals, mismatch, i + 1, elems);
        MismatchesExist(rvals, ovals, mismatch, i + 1);
        MismatchesExist(rvals, ovals, mismatch, elems);
        return;
      }
      i := i + 1;
    }
    MismatchesExist(rvals, ovals, mismatch, elems);
  }
}
