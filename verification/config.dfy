/** The run's fixed configuration: the simulated years, the age range, the
    starting population and the six reporting brackets. */
module Config {
  import opened Bands

  const StartYear: int := 1900
  const EndYear: int := 1967
  const MaxAge: nat := 100
  /** One slot per single year of age 0 .. MaxAge. */
  const Ages: nat := MaxAge + 1
  /** Population of Paris in 1901. */
  const InitialTotalPopulation: real := 2714068.0

  /** A named reporting bracket over a contiguous range of ages. */
  datatype Bracket = Bracket(name: string, span: Span)

  /** The brackets in their fixed column order. */
  const Brackets: seq<Bracket> := [
    Bracket("0-14", Span(0, 15)),
    Bracket("15-29", Span(15, 30)),
    Bracket("30-44", Span(30, 45)),
    Bracket("45-59", Span(45, 60)),
    Bracket("60-74", Span(60, 75)),
    Bracket("75+", Span(75, 101))
  ]

  function BracketSpans(): (spans: seq<Span>)
    ensures |spans| == |Brackets|
    ensures forall j :: 0 <= j < |Brackets| ==> spans[j] == Brackets[j].span
  {
    seq(|Brackets|, j requires 0 <= j < |Brackets| => Brackets[j].span)
  }

  /** The index of the bracket holding age a. */
  function BracketOf(a: nat): (j: nat)
    requires a < Ages
    ensures j < |Brackets| && Brackets[j].span.Contains(a)
  {
    if a < 15 then 0 else if a < 30 then 1 else if a < 45 then 2
    else if a < 60 then 3 else if a < 75 then 4 else 5
  }

  /** Every bracket is a non-empty range of ages within 0 .. MaxAge. */
  lemma BracketBounds(j: nat)
    requires j < |Brackets|
    ensures Brackets[j].span.lo < Brackets[j].span.hi <= Ages
  {
  }

  /** The ages of bracket j: a non-empty range within 0 .. MaxAge. */
  function BracketSpan(j: nat): (span: Span)
    requires j < |Brackets|
    ensures span == Brackets[j].span
    ensures span.lo < span.hi <= Ages
  {
    BracketBounds(j);
    Brackets[j].span
  }

  /** The bracket spans lie end to end over the ages 0 .. MaxAge. */
  lemma BracketsTile()
    ensures Tiles(BracketSpans(), 0, Ages)
    ensures Within(BracketSpans(), Ages)
    ensures forall j :: 0 <= j < |Brackets| ==> Brackets[j].span.Width() > 0
  {
    var s := BracketSpans();
    assert s == [Span(0, 15), Span(15, 30), Span(30, 45), Span(45, 60), Span(60, 75), Span(75, 101)];
    assert Tiles(s[5..], 75, Ages);
    assert Tiles(s[4..], 60, Ages);
    assert Tiles(s[3..], 45, Ages);
    assert Tiles(s[2..], 30, Ages);
    assert Tiles(s[1..], 15, Ages);
    TilesBounds(s, 0, Ages);
  }

  /** The brackets partition the ages 0 .. MaxAge: every age lies in exactly
      one bracket, with no gap and no overlap, and nothing else lies in any. */
  lemma BracketsPartitionAges(a: int)
    ensures 0 <= a < Ages ==> ExactlyOne(BracketSpans(), a)
    ensures !(0 <= a < Ages) ==> NoneContains(BracketSpans(), a)
  {
    BracketsTile();
    TilesPartition(BracketSpans(), 0, Ages, a);
  }
}
