/** Age spans and piecewise-constant bands. A rate table is built by a run of
    numpy slice assignments `table[lo:hi] = value` onto a zero vector; `Fill`
    is one such assignment and `Paint` a run of them, in order. `Tiles` says a
    list of spans lies end to end and covers a range exactly once. */
module Bands {
  import opened Vectors

  /** The half-open age range lo .. hi-1, like Python's `range(lo, hi)`. */
  datatype Span = Span(lo: nat, hi: nat) {
    predicate Contains(a: int) {
      lo <= a < hi
    }

    /** The number of ages in the span, like `len(range(lo, hi))`. */
    function Width(): int {
      hi - lo
    }
  }

  /** One slice assignment: every age of `span` receives `value`. */
  datatype Band = Band(span: Span, value: real)

  function SpansOf(bands: seq<Band>): (spans: seq<Span>)
    ensures |spans| == |bands|
    ensures forall j :: 0 <= j < |bands| ==> spans[j] == bands[j].span
  {
    seq(|bands|, j requires 0 <= j < |bands| => bands[j].span)
  }

  /** The spans are non-empty, in order, each starting where the previous one
      ends, the first at lo and the last ending at hi. */
  predicate Tiles(spans: seq<Span>, lo: nat, hi: nat)
    decreases |spans|
  {
    if |spans| == 0 then lo == hi
    else spans[0].lo == lo && spans[0].lo < spans[0].hi && Tiles(spans[1..], spans[0].hi, hi)
  }

  /** Exactly one of the spans contains age a. */
  predicate ExactlyOne(spans: seq<Span>, a: int) {
    exists j :: 0 <= j < |spans| && spans[j].Contains(a) &&
      forall k :: 0 <= k < |spans| && spans[k].Contains(a) ==> k == j
  }

  predicate NoneContains(spans: seq<Span>, a: int) {
    forall j :: 0 <= j < |spans| ==> !spans[j].Contains(a)
  }

  predicate Within(spans: seq<Span>, n: nat) {
    forall j :: 0 <= j < |spans| ==> spans[j].lo <= spans[j].hi <= n
  }

  lemma {:induction false} TilesBounds(spans: seq<Span>, lo: nat, hi: nat)
    requires Tiles(spans, lo, hi)
    ensures lo <= hi
    ensures forall j :: 0 <= j < |spans| ==> lo <= spans[j].lo < spans[j].hi <= hi
    decreases |spans|
  {
    if |spans| > 0 {
      TilesBounds(spans[1..], spans[0].hi, hi);
      forall j | 1 <= j < |spans|
        ensures lo <= spans[j].lo < spans[j].hi <= hi
      {
        assert spans[j] == spans[1..][j - 1];
      }
    }
  }

  /** A tiling of lo .. hi-1 is a partition: every age inside the range lies
      in exactly one span, and no age outside it lies in any. */
  lemma {:induction false} TilesPartition(spans: seq<Span>, lo: nat, hi: nat, a: int)
    requires Tiles(spans, lo, hi)
    ensures lo <= a < hi ==> ExactlyOne(spans, a)
    ensures !(lo <= a < hi) ==> NoneContains(spans, a)
    decreases |spans|
  {
    TilesBounds(spans, lo, hi);
    if |spans| > 0 {
      var rest := spans[1..];
      TilesPartition(rest, spans[0].hi, hi, a);
      TilesBounds(rest, spans[0].hi, hi);
      if spans[0].Contains(a) {
        forall k | 0 <= k < |spans| && spans[k].Contains(a)
          ensures k == 0
        {
        }
      } else if lo <= a < hi {
        var j :| 0 <= j < |rest| && rest[j].Contains(a) &&
          forall k :: 0 <= k < |rest| && rest[k].Contains(a) ==> k == j;
        forall k | 0 <= k < |spans| && spans[k].Contains(a)
          ensures k == j + 1
        {
          assert rest[k - 1] == spans[k];
        }
        assert spans[j + 1].Contains(a);
      } else {
        forall k | 0 <= k < |spans|
          ensures !spans[k].Contains(a)
        {
          if k > 0 {
            assert rest[k - 1] == spans[k];
          }
        }
      }
    }
  }

  /** numpy's slice assignment `v[lo:hi] = value`: Python clamps both slice
      bounds to the vector, and an empty or reversed slice changes nothing. */
  function Fill(v: seq<real>, b: Band): (r: seq<real>)
    ensures |r| == |v|
    ensures forall a :: 0 <= a < |v| ==> r[a] == if b.span.Contains(a) then b.value else v[a]
  {
    var lo := if b.span.lo <= |v| then b.span.lo else |v|;
    var hi := if b.span.hi <= lo then lo else if b.span.hi <= |v| then b.span.hi else |v|;
    var r := v[..lo] + Constant(hi - lo, b.value) + v[hi..];
    assert forall a :: 0 <= a < lo ==> r[a] == v[a];
    assert forall a :: lo <= a < hi ==> r[a] == b.value;
    assert forall a :: hi <= a < |v| ==> r[a] == v[a];
    r
  }

  /** The slice assignments applied one after another, in list order. */
  function Paint(v: seq<real>, bands: seq<Band>): (r: seq<real>)
    ensures |r| == |v|
    decreases |bands|
  {
    if |bands| == 0 then v else Paint(Fill(v, bands[0]), bands[1..])
  }

  /** Painting bands that tile lo .. hi-1: an age inside a band holds that
      band's value, and an age outside the tiled range keeps its old value. */
  lemma {:induction false} PaintTiled(v: seq<real>, bands: seq<Band>, lo: nat, hi: nat, a: int)
    requires Tiles(SpansOf(bands), lo, hi)
    requires 0 <= a < |v|
    ensures forall j :: 0 <= j < |bands| && bands[j].span.Contains(a) ==> Paint(v, bands)[a] == bands[j].value
    ensures !(lo <= a < hi) ==> Paint(v, bands)[a] == v[a]
    decreases |bands|
  {
    if |bands| > 0 {
      var b := bands[0];
      var rest := bands[1..];
      assert SpansOf(bands)[1..] == SpansOf(rest);
      var w := Fill(v, b);
      PaintTiled(w, rest, b.span.hi, hi, a);
      TilesBounds(SpansOf(bands), lo, hi);
      forall j | 0 <= j < |bands| && bands[j].span.Contains(a)
        ensures Paint(v, bands)[a] == bands[j].value
      {
        if j > 0 {
          assert rest[j - 1] == bands[j];
        }
      }
    }
  }

  /** The total "width times value" over a list of bands. */
  function Mass(bands: seq<Band>): real
    decreases |bands|
  {
    if |bands| == 0 then 0.0
    else bands[0].span.Width() as real * bands[0].value + Mass(bands[1..])
  }

  /** Bands that each spread a total evenly over a non-empty span have, in
      all, the mass of those totals. */
  lemma {:induction false} SharesMass(bands: seq<Band>, totals: seq<real>)
    requires |bands| == |totals|
    requires forall j :: 0 <= j < |bands| ==>
      bands[j].span.Width() > 0 && bands[j].value == totals[j] / bands[j].span.Width() as real
    ensures Mass(bands) == Sum(totals)
    decreases |bands|
  {
    if |bands| > 0 {
      var w := bands[0].span.Width() as real;
      assert w * (totals[0] / w) == totals[0];
      SharesMass(bands[1..], totals[1..]);
    }
  }

  /** A vector that holds each band's value across the band's span sums, over
      the tiled range, to the bands' mass. */
  lemma {:induction false} TiledRangeSum(v: seq<real>, bands: seq<Band>, lo: nat, hi: nat)
    requires Tiles(SpansOf(bands), lo, hi)
    requires lo <= hi <= |v|
    requires forall j, a :: 0 <= j < |bands| && bands[j].span.Contains(a) && a < |v| ==> v[a] == bands[j].value
    ensures RangeSum(v, lo, hi) == Mass(bands)
    decreases |bands|
  {
    if |bands| == 0 {
      assert v[lo..hi] == [];
    } else {
      var b := bands[0];
      var rest := bands[1..];
      var mid := b.span.hi;
      assert SpansOf(bands)[1..] == SpansOf(rest);
      TilesBounds(SpansOf(rest), mid, hi);
      forall j, a | 0 <= j < |rest| && rest[j].span.Contains(a) && a < |v|
        ensures v[a] == rest[j].value
      {
        assert rest[j] == bands[j + 1];
      }
      TiledRangeSum(v, rest, mid, hi);
      forall a | lo <= a < mid
        ensures v[a] == b.value
      {
        assert bands[0].span.Contains(a);
      }
      RangeSumConstant(v, lo, mid, b.value);
      RangeSplit(v, lo, mid, hi);
      assert Mass(bands) == (mid - lo) as real * b.value + Mass(rest);
    }
  }

  /** The range sums of a vector over each span, in span order. */
  function SpanSums(v: seq<real>, spans: seq<Span>): (r: seq<real>)
    requires Within(spans, |v|)
    ensures |r| == |spans|
    ensures forall j :: 0 <= j < |spans| ==> r[j] == RangeSum(v, spans[j].lo, spans[j].hi)
    decreases |spans|
  {
    if |spans| == 0 then [] else [RangeSum(v, spans[0].lo, spans[0].hi)] + SpanSums(v, spans[1..])
  }

  /** Summing over a tiling of lo .. hi-1 span by span loses and double-counts
      nothing: the span sums add up to the sum over the whole range. */
  lemma {:induction false} TiledSpanSums(v: seq<real>, spans: seq<Span>, lo: nat, hi: nat)
    requires Tiles(spans, lo, hi)
    requires Within(spans, |v|) && lo <= hi <= |v|
    ensures Sum(SpanSums(v, spans)) == RangeSum(v, lo, hi)
    decreases |spans|
  {
    TilesBounds(spans, lo, hi);
    if |spans| == 0 {
      assert v[lo..hi] == [];
    } else {
      var rest := spans[1..];
      assert SpanSums(v, spans)[1..] == SpanSums(v, rest);
      TiledSpanSums(v, rest, spans[0].hi, hi);
      RangeSplit(v, lo, spans[0].hi, hi);
    }
  }

  /** A non-negative vector has non-negative span sums. */
  lemma SpanSumsNonNeg(v: seq<real>, spans: seq<Span>)
    requires Within(spans, |v|)
    requires NonNeg(v)
    ensures NonNeg(SpanSums(v, spans))
  {
    forall j | 0 <= j < |spans|
      ensures SpanSums(v, spans)[j] >= 0.0
    {
      RangeSumNonNeg(v, spans[j].lo, spans[j].hi);
    }
  }
}
