/**
 * Sums of sequences of naturals and 32-bit unsigned wrap-around, the arithmetic
 * that the scan and counting kernels perform on `unsigned int` buffers.
 */
module Sums {

  /** 2^32: the modulus of `unsigned int` arithmetic. */
  const M: nat := 0x1_0000_0000

  /** The value an `unsigned int` holds after storing x. */
  function Wrap(x: nat): (r: nat)
    ensures r < M
    ensures x < M ==> r == x
  {
    x % M
  }

  /** Sum of a sequence, peeling the last element so that prefixes extend naturally. */
  function Sum(s: seq<nat>): nat
  {
    if |s| == 0 then 0 else Sum(s[..|s| - 1]) + s[|s| - 1]
  }

  lemma {:induction false} SumConcat(a: seq<nat>, b: seq<nat>)
    ensures Sum(a + b) == Sum(a) + Sum(b)
  {
    if |b| == 0 {
      assert a + b == a;
    } else {
      assert (a + b)[..|a + b| - 1] == a + b[..|b| - 1];
      SumConcat(a, b[..|b| - 1]);
    }
  }

  /** Splitting a range at k splits its sum. */
  lemma SumSplit(s: seq<nat>, i: nat, k: nat, j: nat)
    requires i <= k <= j <= |s|
    ensures Sum(s[i..j]) == Sum(s[i..k]) + Sum(s[k..j])
  {
    assert s[i..j] == s[i..k] + s[k..j];
    SumConcat(s[i..k], s[k..j]);
  }

  lemma SumSnoc(s: seq<nat>, i: nat, j: nat)
    requires i <= j < |s|
    ensures Sum(s[i..j + 1]) == Sum(s[i..j]) + s[j]
  {
    assert s[i..j + 1][..j - i] == s[i..j];
  }

  /** Sums of prefixes grow with the prefix. */
  lemma SumPrefixMonotone(s: seq<nat>, i: nat, j: nat)
    requires i <= j <= |s|
    ensures Sum(s[..i]) <= Sum(s[..j])
  {
    SumSplit(s, 0, i, j);
    assert s[0..i] == s[..i] && s[0..j] == s[..j];
  }

  /** Adding one to an entry adds one to the sum. */
  lemma {:induction false} SumIncrement(s: seq<nat>, x: nat)
    requires x < |s|
    ensures Sum(s[x := s[x] + 1]) == Sum(s) + 1
  {
    var t := s[x := s[x] + 1];
    if x == |s| - 1 {
      assert t[..|t| - 1] == s[..|s| - 1];
    } else {
      assert t[..|t| - 1] == s[..|s| - 1][x := s[x] + 1];
      SumIncrement(s[..|s| - 1], x);
    }
  }

  /** Wrap-around addition agrees with wrapping the exact sum. */
  lemma WrapAdd(a: nat, b: nat)
    ensures Wrap(Wrap(a) + Wrap(b)) == Wrap(a + b)
  {
    var qa, ra := a / M, a % M;
    var qb, rb := b / M, b % M;
    assert a + b == (qa + qb) * M + (ra + rb);
    ModMultiple(qa + qb, ra + rb);
  }

  /** Wrapping an accumulator before adding the next value changes nothing modulo 2^32. */
  lemma WrapAccumulate(a: nat, x: nat)
    ensures Wrap(Wrap(a) + x) == Wrap(a + x)
  {
    WrapAdd(a, x);
    WrapAdd(Wrap(a), x);
  }

  lemma ModMultiple(q: nat, r: nat)
    ensures (q * M + r) % M == r % M
  {
    if q > 0 {
      assert q * M + r == (q - 1) * M + (r + M);
      ModMultiple(q - 1, r + M);
      assert (r + M) % M == r % M;
    }
  }

  /** Summing wrapped values and wrapping gives the wrapped exact sum. */
  lemma {:induction false} SumOfWrapped(s: seq<nat>, w: seq<nat>)
    requires |s| == |w|
    requires forall i :: 0 <= i < |s| ==> w[i] == Wrap(s[i])
    ensures Wrap(Sum(w)) == Wrap(Sum(s))
  {
    if |s| > 0 {
      var n := |s| - 1;
      SumOfWrapped(s[..n], w[..n]);
      calc {
        Wrap(Sum(w));
        Wrap(Sum(w[..n]) + Wrap(s[n]));
        { WrapAdd(Sum(w[..n]), Wrap(s[n])); }
        Wrap(Wrap(Sum(w[..n])) + Wrap(Wrap(s[n])));
        Wrap(Wrap(Sum(s[..n])) + Wrap(s[n]));
        { WrapAdd(Sum(s[..n]), s[n]); }
        Wrap(Sum(s));
      }
    }
  }
}
