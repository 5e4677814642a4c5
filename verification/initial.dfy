/** The 1900 population vector: each bracket's census share of the initial
    total is spread evenly over the bracket's ages, and the vector is then
    rescaled so that it sums to the target total. */
module Initial {
  import opened Vectors
  import opened Bands
  import opened Config

  /** 1901 census share of each bracket, in bracket order. */
  const CensusShares: seq<real> := [0.2533, 0.2439, 0.1991, 0.1569, 0.1219, 0.0249]

  /** One slice assignment per bracket: every age gets total / width. */
  function BracketBands(totals: seq<real>): (bands: seq<Band>)
    requires |totals| == |Brackets|
    ensures |bands| == |Brackets|
    ensures SpansOf(bands) == BracketSpans()
    ensures forall j :: 0 <= j < |Brackets| ==> bands[j].span == Brackets[j].span
    ensures forall j :: 0 <= j < |Brackets| ==> bands[j].value == totals[j] / Brackets[j].span.Width() as real
  {
    seq(|Brackets|, j requires 0 <= j < |Brackets| =>
      Band(Brackets[j].span, totals[j] / Brackets[j].span.Width() as real))
  }

  /** The bracket totals spread uniformly over each bracket's ages, the
      oldest bracket included. */
  function Spread(totals: seq<real>): (v: seq<real>)
    requires |totals| == |Brackets|
    ensures |v| == Ages
    ensures forall j, a :: 0 <= j < |Brackets| && Brackets[j].span.Contains(a) ==>
      v[a] == totals[j] / Brackets[j].span.Width() as real
  {
    BracketBandsByAge(totals);
    Paint(Zeros(Ages), BracketBands(totals))
  }

  /** The vector multiplied by target / Sum(v). The source divides by the
      computed sum without a guard, so a zero sum is excluded here. */
  function Rescale(v: seq<real>, target: real): (r: seq<real>)
    requires Sum(v) != 0.0
    ensures |r| == |v|
    ensures Sum(r) == target
    ensures forall a :: 0 <= a < |v| ==> r[a] == v[a] * (target / Sum(v))
  {
    SumScale(v, target / Sum(v));
    Scale(v, target / Sum(v))
  }

  /** Painting the bracket bands leaves every age of bracket j holding that
      bracket's total over its width. */
  lemma BracketBandsByAge(totals: seq<real>)
    requires |totals| == |Brackets|
    ensures forall j, a :: 0 <= j < |Brackets| && Brackets[j].span.Contains(a) ==>
      Paint(Zeros(Ages), BracketBands(totals))[a] == totals[j] / Brackets[j].span.Width() as real
  {
    BracketsTile();
    var bands := BracketBands(totals);
    forall j, a | 0 <= j < |Brackets| && Brackets[j].span.Contains(a)
      ensures Paint(Zeros(Ages), bands)[a] == totals[j] / Brackets[j].span.Width() as real
    {
      assert bands[j].span == Brackets[j].span;
      PaintTiled(Zeros(Ages), bands, 0, Ages, a);
    }
  }

  /** Width times total over width is the total, bracket by bracket, so the
      bracket bands carry exactly the bracket totals. */
  lemma BracketBandsMass(totals: seq<real>)
    requires |totals| == |Brackets|
    ensures Mass(BracketBands(totals)) == Sum(totals)
  {
    var bands := BracketBands(totals);
    forall j | 0 <= j < |bands|
      ensures bands[j].span.Width() > 0 && bands[j].value == totals[j] / bands[j].span.Width() as real
    {
      BracketBounds(j);
    }
    SharesMass(bands, totals);
  }

  /** Spreading loses nothing: the spread vector sums to the bracket totals. */
  lemma SpreadSum(totals: seq<real>)
    requires |totals| == |Brackets|
    ensures Sum(Spread(totals)) == Sum(totals)
  {
    var v := Spread(totals);
    var bands := BracketBands(totals);
    SpreadHoldsBands(totals);
    TiledRangeSum(v, bands, 0, Ages);
    RangeSumWhole(v);
    BracketBandsMass(totals);
  }

  lemma SpreadHoldsBands(totals: seq<real>)
    requires |totals| == |Brackets|
    ensures Tiles(SpansOf(BracketBands(totals)), 0, Ages)
    ensures forall j, a :: 0 <= j < |Brackets| && BracketBands(totals)[j].span.Contains(a) && a < Ages ==>
      Spread(totals)[a] == BracketBands(totals)[j].value
  {
    var bands := BracketBands(totals);
    BracketsTile();
    forall j, a | 0 <= j < |bands| && bands[j].span.Contains(a) && a < Ages
      ensures Spread(totals)[a] == bands[j].value
    {
      PaintTiled(Zeros(Ages), bands, 0, Ages, a);
    }
  }

  /** The census shares add up to exactly one. */
  lemma CensusSharesSumToOne()
    ensures Sum(CensusShares) == 1.0
  {
    var s := CensusShares;
    assert Sum(s[5..]) == 0.0249;
    assert Sum(s[4..]) == 0.1219 + 0.0249;
    assert Sum(s[3..]) == 0.1569 + 0.1219 + 0.0249;
    assert Sum(s[2..]) == 0.1991 + 0.1569 + 0.1219 + 0.0249;
    assert Sum(s[1..]) == 0.2439 + 0.1991 + 0.1569 + 0.1219 + 0.0249;
  }

  /** The configured census is a valid one: a share per bracket, none
      negative, adding up to one. */
  lemma CensusValid()
    ensures |CensusShares| == |Brackets| && NonNeg(CensusShares) && Sum(CensusShares) == 1.0
  {
    CensusSharesSumToOne();
  }

  /** The initial vector for any census: bracket shares that add up to one,
      spread over the ages and rescaled to a positive total. It is
      non-negative, sums to exactly the total, and holds at each age its
      bracket's share of the total over the bracket's width (the rescale
      factor is exactly one in exact arithmetic). */
  function InitialFrom(shares: seq<real>, total: real): (v: seq<real>)
    requires |shares| == |Brackets| && NonNeg(shares) && Sum(shares) == 1.0
    requires total > 0.0
    ensures |v| == Ages
    ensures Sum(v) == total
    ensures NonNeg(v)
    ensures forall j, a :: 0 <= j < |Brackets| && Brackets[j].span.Contains(a) ==>
      v[a] == shares[j] * total / Brackets[j].span.Width() as real
  {
    var totals := Scale(shares, total);
    var spread := Spread(totals);
    SharesSpreadSum(shares, total);
    SharesSpreadNonNeg(shares, total);
    UnitRescale(spread, total);
    Rescale(spread, total)
  }

  /** The 1900 vector of the configured census. */
  function InitialVector(): (v: seq<real>)
    ensures |v| == Ages
    ensures Sum(v) == InitialTotalPopulation
    ensures NonNeg(v)
  {
    CensusValid();
    InitialFrom(CensusShares, InitialTotalPopulation)
  }

  lemma DivSelf(x: real)
    requires x != 0.0
    ensures x / x == 1.0
  {
  }

  /** Rescaling a vector to the total it already has changes nothing. */
  lemma UnitRescale(v: seq<real>, target: real)
    requires Sum(v) == target && target != 0.0
    ensures Rescale(v, target) == v
  {
    var r := Rescale(v, target);
    DivSelf(target);
    assert forall a :: 0 <= a < |v| ==> r[a] == v[a];
  }

  /** Spread shares of a total sum to the total before any rescaling. */
  lemma SharesSpreadSum(shares: seq<real>, total: real)
    requires |shares| == |Brackets| && Sum(shares) == 1.0
    ensures Sum(Spread(Scale(shares, total))) == total
  {
    SumScale(shares, total);
    SpreadSum(Scale(shares, total));
  }

  lemma SharesSpreadNonNeg(shares: seq<real>, total: real)
    requires |shares| == |Brackets| && NonNeg(shares) && total >= 0.0
    ensures NonNeg(Spread(Scale(shares, total)))
  {
    var totals := Scale(shares, total);
    forall j | 0 <= j < |totals|
      ensures totals[j] >= 0.0
    {
      assert totals[j] == shares[j] * total;
    }
    SpreadNonNeg(totals);
  }

  /** Non-negative bracket totals spread to a non-negative vector. */
  lemma SpreadNonNeg(totals: seq<real>)
    requires |totals| == |Brackets|
    requires NonNeg(totals)
    ensures NonNeg(Spread(totals))
  {
    BracketsTile();
    forall a | 0 <= a < Ages
      ensures Spread(totals)[a] >= 0.0
    {
      var j := BracketOf(a);
      assert Spread(totals)[a] == totals[j] / Brackets[j].span.Width() as real;
    }
  }
}
