/** One simulated year: mortality, aging by one year, births into age 0, then
    the painted-age cull, in that order. */
module Stepper {
  import opened Vectors
  import opened Config

  /** The painted age of step i (the first simulated year is step 1): it
      starts at the oldest age and is one of the ages exactly for steps
      1 .. MaxAge + 1. */
  function PaintedAge(i: int): (p: int)
    ensures i == 1 ==> p == MaxAge
    ensures 0 <= p <= MaxAge <==> 1 <= i <= MaxAge + 1
  {
    MaxAge - i + 1
  }

  /** Step i removes everyone of age a: the painted age is one of the ages
      0 .. MaxAge, and a is at or above it. */
  predicate Culled(i: int, a: int) {
    0 <= PaintedAge(i) <= MaxAge && PaintedAge(i) <= a
  }

  predicate IsProbabilities(m: seq<real>) {
    forall a :: 0 <= a < |m| ==> 0.0 <= m[a] <= 1.0
  }

  /** Mortality: the population left alive at each age after one year. */
  function Survivors(prev: seq<real>, m: seq<real>): (cur: seq<real>)
    requires |m| == |prev|
    ensures |cur| == |prev|
    ensures forall a :: 0 <= a < |prev| ==> cur[a] == prev[a] * (1.0 - m[a])
  {
    seq(|prev|, a requires 0 <= a < |prev| => prev[a] * (1.0 - m[a]))
  }

  /** Reference: the fertility-weighted sum, cur[a] * f[a] over all ages. */
  function WeightedSum(cur: seq<real>, f: seq<real>): real
    requires |f| == |cur|
    decreases |cur|
  {
    if |cur| == 0 then 0.0 else cur[0] * f[0] + WeightedSum(cur[1..], f[1..])
  }

  /** Births: the element-wise product of a vector with the fertility table,
      summed, which is the fertility-weighted sum of the vector. */
  function Births(cur: seq<real>, f: seq<real>): (b: real)
    requires |f| == |cur|
    ensures b == WeightedSum(cur, f)
  {
    SumTimes(cur, f);
    Sum(Times(cur, f))
  }

  lemma {:induction false} SumTimes(cur: seq<real>, f: seq<real>)
    requires |f| == |cur|
    ensures Sum(Times(cur, f)) == WeightedSum(cur, f)
    decreases |cur|
  {
    if |cur| > 0 {
      assert Times(cur, f)[1..] == Times(cur[1..], f[1..]);
      SumTimes(cur[1..], f[1..]);
    }
  }

  /** Aging: newborns enter at age 0, everyone else moves up one age, and
      whoever was at the last age leaves the model. */
  function Shifted(cur: seq<real>, newborns: real): (r: seq<real>)
    requires |cur| > 0
    ensures |r| == |cur|
    ensures r[0] == newborns
    ensures forall a :: 1 <= a < |cur| ==> r[a] == cur[a - 1]
  {
    [newborns] + cur[..|cur| - 1]
  }

  /** Zeroes every age from p up when p is an index of the vector (0 included);
      otherwise leaves the vector alone. */
  function Cull(v: seq<real>, p: int): (r: seq<real>)
    ensures |r| == |v|
    ensures forall a :: 0 <= a < |v| && 0 <= p < |v| && p <= a ==> r[a] == 0.0
    ensures forall a :: 0 <= a < |v| && !(0 <= p < |v| && p <= a) ==> r[a] == v[a]
  {
    if 0 <= p < |v| then v[..p] + Zeros(|v| - p) else v
  }

  /** Reference: total births are the sum over all ages of
      survivors times fertility, prev[a] * (1 - m[a]) * f[a]. */
  function ExpectedBirths(prev: seq<real>, m: seq<real>, f: seq<real>): real
    requires |m| == |prev| && |f| == |prev|
    decreases |prev|
  {
    if |prev| == 0 then 0.0
    else prev[0] * (1.0 - m[0]) * f[0] + ExpectedBirths(prev[1..], m[1..], f[1..])
  }

  /** Advances the population vector of one year to the next, at step i. */
  function Step(prev: seq<real>, m: seq<real>, f: seq<real>, i: int): (next: seq<real>)
    requires |prev| == Ages && |m| == Ages && |f| == Ages
    ensures |next| == Ages
    ensures forall a :: 1 <= a < Ages && !Culled(i, a) ==> next[a] == prev[a - 1] * (1.0 - m[a - 1])
    ensures !Culled(i, 0) ==> next[0] == ExpectedBirths(prev, m, f)
    ensures forall a :: 0 <= a < Ages && Culled(i, a) ==> next[a] == 0.0
  {
    var cur := Survivors(prev, m);
    BirthsFromSurvivors(prev, m, f, cur);
    Cull(Shifted(cur, Births(cur, f)), PaintedAge(i))
  }

  /** Births are computed from the post-mortality counts. */
  lemma {:induction false} BirthsFromSurvivors(prev: seq<real>, m: seq<real>, f: seq<real>, cur: seq<real>)
    requires |m| == |prev| && |f| == |prev| && |cur| == |prev|
    requires forall a :: 0 <= a < |prev| ==> cur[a] == prev[a] * (1.0 - m[a])
    ensures Births(cur, f) == ExpectedBirths(prev, m, f)
    decreases |prev|
  {
    if |prev| > 0 {
      assert Times(cur, f)[1..] == Times(cur[1..], f[1..]);
      BirthsFromSurvivors(prev[1..], m[1..], f[1..], cur[1..]);
    }
  }

  lemma {:induction false} ExpectedBirthsNonNeg(prev: seq<real>, m: seq<real>, f: seq<real>)
    requires |m| == |prev| && |f| == |prev|
    requires NonNeg(prev) && IsProbabilities(m) && NonNeg(f)
    ensures ExpectedBirths(prev, m, f) >= 0.0
    decreases |prev|
  {
    if |prev| > 0 {
      ExpectedBirthsNonNeg(prev[1..], m[1..], f[1..]);
      assert prev[0] * (1.0 - m[0]) >= 0.0;
      assert prev[0] * (1.0 - m[0]) * f[0] >= 0.0;
    }
  }

  lemma {:induction false} ExpectedBirthsNoFertility(prev: seq<real>, m: seq<real>, f: seq<real>)
    requires |m| == |prev| && |f| == |prev|
    requires forall a :: 0 <= a < |f| ==> f[a] == 0.0
    ensures ExpectedBirths(prev, m, f) == 0.0
    decreases |prev|
  {
    if |prev| > 0 {
      ExpectedBirthsNoFertility(prev[1..], m[1..], f[1..]);
    }
  }

  /** With a non-negative population, death probabilities in [0, 1] and
      non-negative fertility, no age of the next year is negative. */
  lemma StepNonNeg(prev: seq<real>, m: seq<real>, f: seq<real>, i: int)
    requires |prev| == Ages && |m| == Ages && |f| == Ages
    requires NonNeg(prev) && IsProbabilities(m) && NonNeg(f)
    ensures NonNeg(Step(prev, m, f, i))
  {
    var next := Step(prev, m, f, i);
    ExpectedBirthsNonNeg(prev, m, f);
    forall a | 1 <= a < Ages && !Culled(i, a)
      ensures next[a] >= 0.0
    {
      assert prev[a - 1] >= 0.0 && 1.0 - m[a - 1] >= 0.0;
    }
  }

  /** A year the painted age misses entirely is plain mortality, aging and
      births: nothing is culled. */
  lemma StepWithoutCull(prev: seq<real>, m: seq<real>, f: seq<real>, i: int)
    requires |prev| == Ages && |m| == Ages && |f| == Ages
    requires !(0 <= PaintedAge(i) <= MaxAge)
    ensures Step(prev, m, f, i) == Shifted(Survivors(prev, m), ExpectedBirths(prev, m, f))
  {
    var cur := Survivors(prev, m);
    BirthsFromSurvivors(prev, m, f, cur);
    var v := Shifted(cur, Births(cur, f));
    assert Cull(v, PaintedAge(i)) == v;
  }

  /** Aging keeps everyone but the last age and adds the newborns. */
  lemma ShiftedSum(cur: seq<real>, newborns: real)
    requires |cur| > 0
    ensures Sum(Shifted(cur, newborns)) == Sum(cur) - cur[|cur| - 1] + newborns
  {
    assert Shifted(cur, newborns)[1..] == cur[..|cur| - 1];
    SumInitLast(cur);
  }

  /** Population balance of a year without a cull: next year's total is this
      year's survivors, minus the survivors at the last age, who leave the
      model, plus the births. */
  lemma StepBalance(prev: seq<real>, m: seq<real>, f: seq<real>, i: int)
    requires |prev| == Ages && |m| == Ages && |f| == Ages
    requires !(0 <= PaintedAge(i) <= MaxAge)
    ensures Sum(Step(prev, m, f, i)) ==
      Sum(Survivors(prev, m)) - Survivors(prev, m)[MaxAge] + ExpectedBirths(prev, m, f)
  {
    StepWithoutCull(prev, m, f, i);
    ShiftedSum(Survivors(prev, m), ExpectedBirths(prev, m, f));
  }

  /** With no deaths, no births and no cull, a year only moves everyone up
      one age: the total is kept except for those already at the last age. */
  lemma PureAgingKeepsTotal(prev: seq<real>, m: seq<real>, f: seq<real>, i: int)
    requires |prev| == Ages && |m| == Ages && |f| == Ages
    requires forall a :: 0 <= a < Ages ==> m[a] == 0.0 && f[a] == 0.0
    requires !(0 <= PaintedAge(i) <= MaxAge)
    ensures Sum(Step(prev, m, f, i)) == Sum(prev) - prev[MaxAge]
  {
    NoDeathsAllSurvive(prev, m);
    StepBalance(prev, m, f, i);
    ExpectedBirthsNoFertility(prev, m, f);
  }

  /** Mortality only removes people: with death probabilities in [0, 1],
      every age keeps between none and all of its count. */
  lemma SurvivorsBounded(prev: seq<real>, m: seq<real>)
    requires |m| == |prev|
    requires NonNeg(prev) && IsProbabilities(m)
    ensures forall a :: 0 <= a < |prev| ==> 0.0 <= Survivors(prev, m)[a] <= prev[a]
  {
    var cur := Survivors(prev, m);
    forall a | 0 <= a < |prev|
      ensures 0.0 <= cur[a] <= prev[a]
    {
      var q := 1.0 - m[a];
      assert cur[a] == prev[a] * q;
      assert 0.0 <= q <= 1.0;
      assert prev[a] * q <= prev[a] * 1.0;
    }
  }

  /** With no deaths every age survives intact. */
  lemma NoDeathsAllSurvive(prev: seq<real>, m: seq<real>)
    requires |m| == |prev|
    requires forall a :: 0 <= a < |m| ==> m[a] == 0.0
    ensures Survivors(prev, m) == prev
  {
    var cur := Survivors(prev, m);
    forall a | 0 <= a < |prev|
      ensures cur[a] == prev[a]
    {
      assert cur[a] == prev[a] * (1.0 - m[a]);
    }
  }

  /** A cohort of n newborns, death probability one half at every age and no
      fertility: after the first step n / 2 remain, all of age 1. */
  lemma HalfMortalityScenario(prev: seq<real>, m: seq<real>, f: seq<real>, n: real)
    requires |prev| == Ages && |m| == Ages && |f| == Ages
    requires prev[0] == n && forall a :: 1 <= a < Ages ==> prev[a] == 0.0
    requires forall a :: 0 <= a < Ages ==> m[a] == 0.5 && f[a] == 0.0
    ensures Sum(Step(prev, m, f, 1)) == n / 2.0
  {
    var next := Step(prev, m, f, 1);
    ExpectedBirthsNoFertility(prev, m, f);
    assert next[0] == 0.0;
    assert next[1] == n / 2.0;
    assert forall a :: 2 <= a < Ages ==> next[a] == 0.0;
    RangeSumConstant(next, 2, Ages, 0.0);
    RangeSplit(next, 0, 2, Ages);
    RangeSumWhole(next);
    assert next[0..2] == [0.0, n / 2.0];
    assert next[0..2][1..] == [n / 2.0];
    SumSingleton(n / 2.0);
  }

  /** At step MaxAge + 1 the painted age is 0, still an age, so the cull
      empties the whole vector, newborns included. */
  lemma CullAtAgeZeroEmpties(prev: seq<real>, m: seq<real>, f: seq<real>)
    requires |prev| == Ages && |m| == Ages && |f| == Ages
    ensures Step(prev, m, f, Ages) == Zeros(Ages)
  {
  }
}
