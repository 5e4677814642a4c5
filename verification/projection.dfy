/** The projection over the years 1900 .. 1967: the initial vector folded
    through one step per year, and each year's vector summed per bracket. */
module Projection {
  import opened Vectors
  import opened Bands
  import opened Config
  import opened Rates
  import opened Initial
  import opened Stepper

  /** The population vectors of `steps + 1` consecutive years: row 0 is the
      initial vector and row y is step y applied to row y - 1. */
  function Project(init: seq<real>, m: seq<real>, f: seq<real>, steps: nat): (rows: seq<seq<real>>)
    requires |init| == Ages && |m| == Ages && |f| == Ages
    ensures |rows| == steps + 1
    ensures rows[0] == init
    ensures forall y :: 0 <= y < |rows| ==> |rows[y]| == Ages
    ensures forall y :: 1 <= y < |rows| ==> rows[y] == Step(rows[y - 1], m, f, y)
    decreases steps
  {
    if steps == 0 then [init]
    else
      var earlier := Project(init, m, f, steps - 1);
      var next := Step(earlier[steps - 1], m, f, steps);
      AppendKeeps(earlier, next);
      earlier + [next]
  }

  /** Appending a row keeps the earlier rows where they were. */
  lemma AppendKeeps(rows: seq<seq<real>>, next: seq<real>)
    ensures |rows + [next]| == |rows| + 1 && (rows + [next])[|rows|] == next
    ensures forall y :: 0 <= y < |rows| ==> (rows + [next])[y] == rows[y]
  {
  }

  /** No year of the projection holds a negative count, given a
      non-negative start, probabilities for mortality and non-negative
      fertility. */
  lemma {:induction false} RowNonNeg(init: seq<real>, m: seq<real>, f: seq<real>, steps: nat, y: nat)
    requires |init| == Ages && |m| == Ages && |f| == Ages
    requires NonNeg(init) && IsProbabilities(m) && NonNeg(f)
    requires y <= steps
    ensures NonNeg(Project(init, m, f, steps)[y])
    decreases y
  {
    var rows := Project(init, m, f, steps);
    if y > 0 {
      RowNonNeg(init, m, f, steps, y - 1);
      StepNonNeg(rows[y - 1], m, f, y);
    }
  }

  lemma ProjectNonNeg(init: seq<real>, m: seq<real>, f: seq<real>, steps: nat)
    requires |init| == Ages && |m| == Ages && |f| == Ages
    requires NonNeg(init) && IsProbabilities(m) && NonNeg(f)
    ensures forall y :: 0 <= y <= steps ==> NonNeg(Project(init, m, f, steps)[y])
  {
    forall y | 0 <= y <= steps
      ensures NonNeg(Project(init, m, f, steps)[y])
    {
      RowNonNeg(init, m, f, steps, y);
    }
  }

  /** One output row: the year and the population of each bracket. */
  datatype Row = Row(year: int, counts: seq<real>)

  /** Sums a year's vector over each bracket, in bracket order. As the
      brackets partition the ages, the bracket sums add up to the total. */
  function BracketTotals(v: seq<real>): (r: seq<real>)
    requires |v| == Ages
    ensures |r| == |Brackets|
    ensures forall j :: 0 <= j < |Brackets| ==> r[j] == RangeSum(v, Brackets[j].span.lo, Brackets[j].span.hi)
    ensures Sum(r) == Sum(v)
    ensures NonNeg(v) ==> NonNeg(r)
  {
    BracketsTile();
    TiledSpanSums(v, BracketSpans(), 0, Ages);
    RangeSumWhole(v);
    if NonNeg(v) then
      SpanSumsNonNeg(v, BracketSpans());
      SpanSums(v, BracketSpans())
    else
      SpanSums(v, BracketSpans())
  }

  /** One row per year, keyed by the year, starting at StartYear. */
  function Aggregate(rows: seq<seq<real>>): (table: seq<Row>)
    requires forall y :: 0 <= y < |rows| ==> |rows[y]| == Ages
    ensures |table| == |rows|
    ensures forall y :: 0 <= y < |rows| ==> table[y].year == StartYear + y
    ensures forall y :: 0 <= y < |rows| ==> table[y].counts == BracketTotals(rows[y])
    ensures forall y :: 0 <= y < |rows| ==> |table[y].counts| == |Brackets| && Sum(table[y].counts) == Sum(rows[y])
    ensures forall y :: 0 <= y < |rows| && NonNeg(rows[y]) ==> NonNeg(table[y].counts)
  {
    seq(|rows|, y requires 0 <= y < |rows| => Row(StartYear + y, BracketTotals(rows[y])))
  }

  /** A configuration of the engine: the 1900 vector and the two rate
      tables, each one entry per age. */
  datatype Scenario = Scenario(initial: seq<real>, mortality: seq<real>, fertility: seq<real>)

  /** The configuration invariants: vectors of the right length, a
      non-negative start, death probabilities in [0, 1] and non-negative
      fertility. */
  predicate ValidScenario(sc: Scenario) {
    && |sc.initial| == Ages && |sc.mortality| == Ages && |sc.fertility| == Ages
    && NonNeg(sc.initial) && IsProbabilities(sc.mortality) && NonNeg(sc.fertility)
  }

  /** The configured scenario: the census-based initial vector and the two
      banded rate tables. */
  function Paris(): (sc: Scenario)
    ensures ValidScenario(sc)
    ensures Sum(sc.initial) == InitialTotalPopulation
  {
    Scenario(InitialVector(), MortalityTable(), FertilityTable())
  }

  /** The per-age vectors of every year 1900 .. 1967, none negative. */
  function Run(sc: Scenario): (rows: seq<seq<real>>)
    requires ValidScenario(sc)
    ensures |rows| == EndYear - StartYear + 1
    ensures forall y :: 0 <= y < |rows| ==> |rows[y]| == Ages && NonNeg(rows[y])
    ensures rows[0] == sc.initial
    ensures forall y :: 1 <= y < |rows| ==> rows[y] == Step(rows[y - 1], sc.mortality, sc.fertility, y)
  {
    ProjectNonNeg(sc.initial, sc.mortality, sc.fertility, EndYear - StartYear);
    Project(sc.initial, sc.mortality, sc.fertility, EndYear - StartYear)
  }

  /** Corollary of `Aggregate` for a run of the configured length: one row
      per year from StartYear to EndYear in increasing order, and each row
      holding the six bracket sums of its year's vector. */
  lemma TableShape(rows: seq<seq<real>>)
    requires |rows| == EndYear - StartYear + 1
    requires forall y :: 0 <= y < |rows| ==> |rows[y]| == Ages && NonNeg(rows[y])
    ensures |Aggregate(rows)| == EndYear - StartYear + 1
    ensures Aggregate(rows)[0].year == StartYear && Aggregate(rows)[|rows| - 1].year == EndYear
    ensures forall y :: 0 < y < |rows| ==> Aggregate(rows)[y].year == Aggregate(rows)[y - 1].year + 1
    ensures forall y :: 0 <= y < |rows| ==> |Aggregate(rows)[y].counts| == |Brackets| && NonNeg(Aggregate(rows)[y].counts)
    ensures forall y :: 0 <= y < |rows| ==> Sum(Aggregate(rows)[y].counts) == Sum(rows[y])
    ensures forall y, j :: 0 <= y < |rows| && 0 <= j < |Brackets| ==>
      Aggregate(rows)[y].counts[j] == RangeSum(rows[y], BracketSpan(j).lo, BracketSpan(j).hi)
  {
  }

  /** The output table: exactly one row per year from 1900 to 1967 in
      increasing order, each row holding the six bracket sums of that year's
      vector, which are non-negative and add up to the year's total. */
  function Simulate(sc: Scenario): (table: seq<Row>)
    requires ValidScenario(sc)
    ensures |table| == EndYear - StartYear + 1
    ensures table[0].year == StartYear && table[|table| - 1].year == EndYear
    ensures forall y :: 0 < y < |table| ==> table[y].year == table[y - 1].year + 1
    ensures forall y :: 0 <= y < |table| ==> |table[y].counts| == |Brackets| && NonNeg(table[y].counts)
    ensures forall y, j :: 0 <= y < |table| && 0 <= j < |Brackets| ==>
      table[y].counts[j] == RangeSum(Run(sc)[y], BracketSpan(j).lo, BracketSpan(j).hi)
    ensures forall y :: 0 <= y < |table| ==> Sum(table[y].counts) == Sum(Run(sc)[y])
    ensures Sum(table[0].counts) == Sum(sc.initial)
  {
    var rows := Run(sc);
    TableShape(rows);
    Aggregate(rows)
  }

  /** The configured run's first row accounts for the whole population of
      1901. */
  lemma ParisFirstRow()
    ensures Sum(Simulate(Paris())[0].counts) == InitialTotalPopulation
  {
  }

  /** Once the painted age has come down to a bracket's youngest age, that
      bracket's column is zero. */
  lemma CulledBracketEmpty(sc: Scenario, y: nat, j: nat)
    requires ValidScenario(sc)
    requires 1 <= y <= EndYear - StartYear && j < |Brackets|
    requires 0 <= PaintedAge(y) <= Brackets[j].span.lo
    ensures Simulate(sc)[y].counts[j] == 0.0
  {
    var rows := Run(sc);
    var span := Brackets[j].span;
    forall a | span.lo <= a < span.hi
      ensures rows[y][a] == 0.0
    {
      BracketBounds(j);
      assert Culled(y, a);
      assert rows[y] == Step(rows[y - 1], sc.mortality, sc.fertility, y);
    }
    ZeroBracket(rows[y], j);
  }

  /** A bracket whose ages are all zero sums to zero. */
  lemma ZeroBracket(v: seq<real>, j: nat)
    requires |v| == Ages && j < |Brackets|
    requires forall a :: Brackets[j].span.lo <= a < Brackets[j].span.hi ==> v[a] == 0.0
    ensures BracketTotals(v)[j] == 0.0
  {
    BracketBounds(j);
    RangeSumConstant(v, Brackets[j].span.lo, Brackets[j].span.hi, 0.0);
  }

  /** With the painted age at 101 - y in year 1900 + y, the 75+ column of
      every run is zero from 1926 to 1967. */
  lemma OldestEmptyFrom1926(sc: Scenario, y: nat)
    requires ValidScenario(sc)
    requires 1926 - StartYear <= y <= EndYear - StartYear
    ensures Simulate(sc)[y].counts[5] == 0.0
  {
    CulledBracketEmpty(sc, y, 5);
  }
}
