/** Exact-real vectors: sums over index ranges, element-wise products and scaling,
    the operations the projection performs on its per-age arrays. */
module Vectors {

  /** The sum of every entry. */
  function Sum(s: seq<real>): real
    decreases |s|
  {
    if |s| == 0 then 0.0 else s[0] + Sum(s[1..])
  }

  /** The sum of the entries at indices lo .. hi-1. */
  function RangeSum(v: seq<real>, lo: nat, hi: nat): real
    requires lo <= hi <= |v|
  {
    Sum(v[lo..hi])
  }

  /** A vector of n entries, all equal to c. */
  function Constant(n: nat, c: real): (z: seq<real>)
    ensures |z| == n
    ensures forall k :: 0 <= k < n ==> z[k] == c
  {
    seq(n, _ => c)
  }

  function Zeros(n: nat): (z: seq<real>)
    ensures |z| == n
    ensures forall k :: 0 <= k < n ==> z[k] == 0.0
  {
    Constant(n, 0.0)
  }

  predicate NonNeg(v: seq<real>) {
    forall k :: 0 <= k < |v| ==> v[k] >= 0.0
  }

  /** Element-wise product, as numpy's `u * v` on two arrays of one length. */
  function Times(u: seq<real>, v: seq<real>): (r: seq<real>)
    requires |u| == |v|
    ensures |r| == |u|
    ensures forall k :: 0 <= k < |u| ==> r[k] == u[k] * v[k]
    decreases |u|
  {
    if |u| == 0 then [] else [u[0] * v[0]] + Times(u[1..], v[1..])
  }

  /** Every entry multiplied by c, as numpy's `v *= c`. */
  function Scale(v: seq<real>, c: real): (r: seq<real>)
    ensures |r| == |v|
    ensures forall k :: 0 <= k < |v| ==> r[k] == v[k] * c
    decreases |v|
  {
    if |v| == 0 then [] else [v[0] * c] + Scale(v[1..], c)
  }

  lemma {:induction false} SumConcat(a: seq<real>, b: seq<real>)
    ensures Sum(a + b) == Sum(a) + Sum(b)
    decreases |a|
  {
    if |a| == 0 {
      assert a + b == b;
    } else {
      assert (a + b)[1..] == a[1..] + b;
      SumConcat(a[1..], b);
    }
  }

  lemma SumSingleton(x: real)
    ensures Sum([x]) == x
  {
    assert [x][1..] == [];
  }

  /** The sum of a vector is the sum of all but its last entry, plus that entry. */
  lemma SumInitLast(v: seq<real>)
    requires |v| > 0
    ensures Sum(v) == Sum(v[..|v| - 1]) + v[|v| - 1]
  {
    assert v == v[..|v| - 1] + [v[|v| - 1]];
    SumConcat(v[..|v| - 1], [v[|v| - 1]]);
    SumSingleton(v[|v| - 1]);
  }

  lemma RangeSplit(v: seq<real>, lo: nat, mid: nat, hi: nat)
    requires lo <= mid <= hi <= |v|
    ensures RangeSum(v, lo, mid) + RangeSum(v, mid, hi) == RangeSum(v, lo, hi)
  {
    assert v[lo..hi] == v[lo..mid] + v[mid..hi];
    SumConcat(v[lo..mid], v[mid..hi]);
  }

  lemma RangeSumWhole(v: seq<real>)
    ensures RangeSum(v, 0, |v|) == Sum(v)
  {
    assert v[0..|v|] == v;
  }

  /** A range whose entries all equal c sums to its width times c. */
  lemma {:induction false} RangeSumConstant(v: seq<real>, lo: nat, hi: nat, c: real)
    requires lo <= hi <= |v|
    requires forall k :: lo <= k < hi ==> v[k] == c
    ensures RangeSum(v, lo, hi) == (hi - lo) as real * c
    decreases hi - lo
  {
    if lo == hi {
      assert v[lo..hi] == [];
    } else {
      RangeSumConstant(v, lo, hi - 1, c);
      RangeSplit(v, lo, hi - 1, hi);
      assert v[hi - 1..hi] == [c];
      assert [c][1..] == [];
      assert Sum([c]) == c + Sum([]);
      assert RangeSum(v, hi - 1, hi) == c;
      assert (hi - lo) as real * c == (hi - 1 - lo) as real * c + c;
    }
  }

  lemma {:induction false} SumNonNeg(v: seq<real>)
    requires NonNeg(v)
    ensures Sum(v) >= 0.0
    decreases |v|
  {
    if |v| > 0 {
      SumNonNeg(v[1..]);
    }
  }

  lemma RangeSumNonNeg(v: seq<real>, lo: nat, hi: nat)
    requires lo <= hi <= |v|
    requires NonNeg(v)
    ensures RangeSum(v, lo, hi) >= 0.0
  {
    SumNonNeg(v[lo..hi]);
  }

  /** Scaling every entry scales the sum. */
  lemma {:induction false} SumScale(v: seq<real>, c: real)
    ensures Sum(Scale(v, c)) == Sum(v) * c
    decreases |v|
  {
    if |v| > 0 {
      assert Scale(v, c)[1..] == Scale(v[1..], c);
      SumScale(v[1..], c);
    }
  }
}
