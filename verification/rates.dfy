/** The per-age rate tables: annual mortality and per-capita fertility,
    each built from zeros by slice assignments over age bands. */
module Rates {
  import opened Vectors
  import opened Bands
  import opened Config

  /** Annual death probability per age band; the last slice is open-ended
      (`[75:]`), which after clamping is the span 75 .. MaxAge. */
  const MortalityBands: seq<Band> := [
    Band(Span(0, 15), 0.05),
    Band(Span(15, 30), 0.01),
    Band(Span(30, 45), 0.02),
    Band(Span(45, 60), 0.04),
    Band(Span(60, 75), 0.10),
    Band(Span(75, Ages), 0.20)
  ]

  /** Births per woman per year in each five-year band of ages 15 .. 44: the
      band's share of a total fertility rate of 2.8, spread over its 5 ages. */
  const FertilityBands: seq<Band> := [
    Band(Span(15, 20), 0.056),
    Band(Span(20, 25), 0.14),
    Band(Span(25, 30), 0.168),
    Band(Span(30, 35), 0.112),
    Band(Span(35, 40), 0.056),
    Band(Span(40, 45), 0.028)
  ]

  const TotalFertilityRate: real := 2.8

  /** Half of the population is assumed female; applied once, to the table. */
  const FemaleShare: real := 0.5

  /** Reference: the death probability of an age read off its band directly. */
  function MortalityRate(age: nat): real {
    if age < 15 then 0.05
    else if age < 30 then 0.01
    else if age < 45 then 0.02
    else if age < 60 then 0.04
    else if age < 75 then 0.10
    else 0.20
  }

  /** Reference: the per-woman fertility of an age read off its band directly. */
  function FertilityRate(age: nat): real {
    if age < 15 then 0.0
    else if age < 20 then 0.056
    else if age < 25 then 0.14
    else if age < 30 then 0.168
    else if age < 35 then 0.112
    else if age < 40 then 0.056
    else if age < 45 then 0.028
    else 0.0
  }

  lemma MortalityBandsTile()
    ensures Tiles(SpansOf(MortalityBands), 0, Ages)
  {
    var s := SpansOf(MortalityBands);
    assert s == [Span(0, 15), Span(15, 30), Span(30, 45), Span(45, 60), Span(60, 75), Span(75, 101)];
    assert Tiles(s[5..], 75, Ages);
    assert Tiles(s[4..], 60, Ages);
    assert Tiles(s[3..], 45, Ages);
    assert Tiles(s[2..], 30, Ages);
    assert Tiles(s[1..], 15, Ages);
  }

  lemma FertilityBandsTile()
    ensures Tiles(SpansOf(FertilityBands), 15, 45)
  {
    var s := SpansOf(FertilityBands);
    assert s == [Span(15, 20), Span(20, 25), Span(25, 30), Span(30, 35), Span(35, 40), Span(40, 45)];
    assert Tiles(s[5..], 40, 45);
    assert Tiles(s[4..], 35, 45);
    assert Tiles(s[3..], 30, 45);
    assert Tiles(s[2..], 25, 45);
    assert Tiles(s[1..], 20, 45);
  }

  /** The mortality table: every age holds the rate of its band, 0.20 at the
      last age included, and every rate is a probability. */
  function MortalityTable(): (m: seq<real>)
    ensures |m| == Ages
    ensures forall a :: 0 <= a < Ages ==> m[a] == MortalityRate(a)
    ensures forall a :: 0 <= a < Ages ==> 0.0 <= m[a] <= 1.0
  {
    MortalityBandsByAge();
    Paint(Zeros(Ages), MortalityBands)
  }

  /** Each age 0 .. MaxAge is assigned by exactly one of the six mortality
      slices, so the painted vector holds that slice's rate. */
  lemma MortalityBandsByAge()
    ensures forall a :: 0 <= a < Ages ==> ExactlyOne(SpansOf(MortalityBands), a)
    ensures forall a :: 0 <= a < Ages ==> Paint(Zeros(Ages), MortalityBands)[a] == MortalityRate(a)
  {
    MortalityBandsTile();
    forall a | 0 <= a < Ages
      ensures ExactlyOne(SpansOf(MortalityBands), a)
      ensures Paint(Zeros(Ages), MortalityBands)[a] == MortalityRate(a)
    {
      TilesPartition(SpansOf(MortalityBands), 0, Ages, a);
      PaintTiled(Zeros(Ages), MortalityBands, 0, Ages, a);
      var j := BracketOf(a);
      assert MortalityBands[j].span == Brackets[j].span;
    }
  }

  /** The fertility table: zero outside ages 15 .. 44; inside, the band's
      rate times the female share; never negative. */
  function FertilityTable(): (f: seq<real>)
    ensures |f| == Ages
    ensures forall a :: 0 <= a < Ages && (a < 15 || 45 <= a) ==> f[a] == 0.0
    ensures forall a :: 15 <= a < 45 ==> f[a] == FertilityRate(a) * FemaleShare
    ensures NonNeg(f)
  {
    FertilityBandsByAge();
    Scale(Paint(Zeros(Ages), FertilityBands), FemaleShare)
  }

  /** The painted fertility bands hold, at every age, the rate read off the
      age's band directly. */
  lemma FertilityBandsByAge()
    ensures forall a :: 0 <= a < Ages ==> Paint(Zeros(Ages), FertilityBands)[a] == FertilityRate(a)
  {
    FertilityBandsTile();
    forall a | 0 <= a < Ages
      ensures Paint(Zeros(Ages), FertilityBands)[a] == FertilityRate(a)
    {
      PaintTiled(Zeros(Ages), FertilityBands, 15, 45, a);
      if 15 <= a < 45 {
        var j := if a < 20 then 0 else if a < 25 then 1 else if a < 30 then 2
          else if a < 35 then 3 else if a < 40 then 4 else 5;
        assert FertilityBands[j].span.Contains(a);
      }
    }
  }

  /** Summed over all ages the table gives the total fertility rate times the
      female share: each band's rate is its share of 2.8 spread over 5 ages. */
  lemma FertilityTableTotal()
    ensures Sum(FertilityTable()) == TotalFertilityRate * FemaleShare
  {
    var p := Paint(Zeros(Ages), FertilityBands);
    FertilityPaintedSum();
    SumScale(p, FemaleShare);
  }

  lemma FertilityPaintedSum()
    ensures Sum(Paint(Zeros(Ages), FertilityBands)) == TotalFertilityRate
  {
    var p := Paint(Zeros(Ages), FertilityBands);
    FertilityPaintedValues();
    TiledRangeSum(p, FertilityBands, 15, 45);
    RangeSumConstant(p, 0, 15, 0.0);
    RangeSumConstant(p, 45, Ages, 0.0);
    RangeSplit(p, 0, 15, 45);
    RangeSplit(p, 0, 45, Ages);
    RangeSumWhole(p);
    FertilityBandsMass();
  }

  /** The painted fertility bands: zero outside 15 .. 44, the band's rate inside. */
  lemma FertilityPaintedValues()
    ensures Tiles(SpansOf(FertilityBands), 15, 45)
    ensures forall a :: 0 <= a < Ages && (a < 15 || 45 <= a) ==> Paint(Zeros(Ages), FertilityBands)[a] == 0.0
    ensures forall j, a :: 0 <= j < |FertilityBands| && FertilityBands[j].span.Contains(a) && a < Ages ==>
      Paint(Zeros(Ages), FertilityBands)[a] == FertilityBands[j].value
  {
    FertilityBandsTile();
    forall a | 0 <= a < Ages
      ensures (a < 15 || 45 <= a) ==> Paint(Zeros(Ages), FertilityBands)[a] == 0.0
      ensures forall j :: 0 <= j < |FertilityBands| && FertilityBands[j].span.Contains(a) ==>
        Paint(Zeros(Ages), FertilityBands)[a] == FertilityBands[j].value
    {
      PaintTiled(Zeros(Ages), FertilityBands, 15, 45, a);
    }
  }

  /** Five ages per band: the band rates add up to the total fertility rate. */
  lemma FertilityBandsMass()
    ensures Mass(FertilityBands) == TotalFertilityRate
  {
    var b := FertilityBands;
    assert Mass(b[5..]) == 5.0 * 0.028;
    assert Mass(b[4..]) == 5.0 * 0.056 + 5.0 * 0.028;
    assert Mass(b[3..]) == 5.0 * 0.112 + 5.0 * 0.056 + 5.0 * 0.028;
    assert Mass(b[2..]) == 5.0 * 0.168 + 5.0 * 0.112 + 5.0 * 0.056 + 5.0 * 0.028;
    assert Mass(b[1..]) == 5.0 * 0.14 + 5.0 * 0.168 + 5.0 * 0.112 + 5.0 * 0.056 + 5.0 * 0.028;
  }
}
