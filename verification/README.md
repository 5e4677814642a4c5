# Cohort population projection, modelled in Dafny

This project models the population projection engine of the Paris
"painted age" simulation (`simulate_population` in `src/simulate.py`). The
engine projects the population of each single year of age 0 .. 100 from 1900
to 1967 and reports six age brackets per year. It has four parts:

- **Rate tables.** Annual mortality and per-capita fertility per age, built by
  numpy slice assignments over age bands. The female share 0.5 is applied
  once, to the fertility table.
- **Initial vector.** Each bracket's 1901 census share of 2,714,068 people is
  spread evenly over the bracket's ages, the 75+ bracket included. The vector
  is then rescaled to sum to the target.
- **Yearly step.** Mortality, then aging by one year (the survivors at age 100
  leave the model), then births into age 0 computed from the post-mortality
  counts, then the painted-age cull. The cull zeroes every age at or above
  `MaxAge - i + 1` at step `i`, when that value is an age.
- **Bracket sums.** One row per year, holding the sum of each bracket.

Numbers are exact `real`s, so the sum and normalisation identities hold
exactly. Modules follow the engine's parts:

- `Vectors` holds sums and element-wise operations.
- `Bands` holds spans, the slice assignment `Fill`, runs of assignments
  `Paint`, and tilings.
- `Config` holds the constants and the brackets.
- `Rates`, `Initial`, `Stepper` and `Projection` hold the four parts above.

Four behaviours of the code are easy to misread. The model follows the code
in each:

- The 75+ bracket is spread uniformly. There is no decreasing tail weighting.
- The 0.5 female-share factor is applied once, in the fertility table. Births
  are a plain weighted sum of the survivors.
- At step `MaxAge + 1` the painted age is 0. That is still an index of the
  vector, so the cull empties the whole vector, newborns included
  (`Stepper.CullAtAgeZeroEmpties`). The cull is a no-op only from step
  `MaxAge + 2` on, or at step 0 or below. The configured run has 67 steps,
  with painted ages from 100 down to 34, so every step culls.
- With zero mortality, zero fertility and no cull, the total is not kept
  exactly. The survivors at age 100 leave the model
  (`Stepper.PureAgingKeepsTotal`).

## Model

| member | source | states |
|---|---|---|
| Bands.Fill | src/simulate.py:24-30 | numpy slice assignment `v[lo:hi] = x` with Python's clamping: an age in the span gets x and every other age keeps its value; the length is unchanged |
| Bands.TilesPartition | src/simulate.py:14-21 | spans laid end to end over lo .. hi-1 form a partition: each age inside lies in exactly one span, and no age outside lies in any |
| Bands.PaintTiled | src/simulate.py:24-41 | after slice assignments over tiling bands, an age in a band holds that band's value, and an age outside the tiled range keeps its prior value |
| Bands.TiledRangeSum | src/simulate.py:34-41 | a vector holding each band's value across its span sums, over the tiled range, to the total of width times value |
| Bands.SharesMass | src/simulate.py:53-59 | bands that each spread a total evenly over a non-empty span carry, in all, the sum of those totals |
| Bands.TiledSpanSums | src/simulate.py:90-93 | summing span by span over a tiling loses and double-counts nothing: the span sums add up to the range sum |
| Config.BracketsTile | src/simulate.py:14-21 | the six brackets 0-14 .. 75+ lie end to end over the ages 0 .. 100, and every bracket is non-empty |
| Config.BracketsPartitionAges | src/simulate.py:14-21 | every age 0 .. 100 is in exactly one bracket, and no other value is in any |
| Rates.MortalityTable | src/simulate.py:24-30 | the mortality table has 101 entries; every age holds its band's rate as read off the reference `MortalityRate` (age 100 gets 0.20), and every entry lies in [0, 1] |
| Rates.MortalityBandsByAge | src/simulate.py:24-30 | each age 0 .. 100 is assigned by exactly one of the slices 0:15 .. 75:, and the painted vector holds that slice's rate |
| Rates.FertilityTable | src/simulate.py:34-41 | the fertility table has 101 entries: 0 outside ages 15 .. 44; inside, the reference `FertilityRate` of the age times the female share 0.5; never negative |
| Rates.FertilityBandsByAge | src/simulate.py:34-40 | before the female-share factor, the painted bands hold at every age the rate of the age's five-year band, and 0 outside 15 .. 44 |
| Rates.FertilityTableTotal | src/simulate.py:32-41 | the table sums to the total fertility rate 2.8 times the female share 0.5 |
| Initial.Spread | src/simulate.py:53-59 | every age of a bracket holds bracket_total / bracket_width, the 75+ bracket included |
| Initial.BracketBandsByAge | src/simulate.py:55-59 | one slice assignment per bracket leaves every age of the bracket holding its total over its width |
| Initial.SpreadSum | src/simulate.py:53-59 | spreading loses nothing: the spread vector sums to the sum of the bracket totals |
| Initial.SpreadNonNeg | src/simulate.py:53-59 | non-negative bracket totals spread to a non-negative vector |
| Initial.CensusSharesSumToOne | src/simulate.py:44-51 | the six census shares add up to exactly 1 |
| Initial.Rescale | src/simulate.py:61-64 | multiplying by target / sum gives a vector that sums to exactly the target, each entry scaled by the same factor |
| Initial.UnitRescale | src/simulate.py:61-64 | rescaling a vector to the total it already has leaves it unchanged |
| Initial.InitialFrom | src/simulate.py:53-64 | for bracket shares adding up to one and a positive total, the initial vector has 101 entries, sums to exactly the total, is non-negative, and holds bracket share times total over bracket width at each age |
| Initial.InitialVector | src/simulate.py:43-64 | the configured 1900 vector has 101 entries, sums to exactly 2,714,068 and is non-negative |
| Initial.BracketBandsMass | src/simulate.py:53-59 | the per-bracket slice values, times the bracket widths, add back up to the bracket totals |
| Stepper.PaintedAge | src/simulate.py:83-84 | the painted age is the oldest age at the first step, and it is an age of the vector exactly for steps 1 .. 101 |
| Stepper.SurvivorsBounded | src/simulate.py:71-72 | mortality only removes people: with death probabilities in [0, 1], each age keeps between none and all of its count |
| Stepper.NoDeathsAllSurvive | src/simulate.py:71-72 | with zero mortality at every age, applying mortality leaves the vector unchanged |
| Stepper.Births | src/simulate.py:78-79 | the summed element-wise product of a vector with the fertility table equals the reference weighted sum of cur[a] * f[a] over all ages |
| Stepper.Shifted | src/simulate.py:74-80 | aging: the newborns are at age 0, age a holds what age a-1 held, and the last age's count leaves |
| Stepper.Cull | src/simulate.py:82-85 | when p is an index, every age at or above p becomes 0 and ages below p are kept; when p is not an index, nothing changes |
| Stepper.Step | src/simulate.py:67-87 | for 1 <= a <= 100 not culled, next[a] = prev[a-1] * (1 - m[a-1]); unless the cull reaches age 0, next[0] is the sum of prev[a] * (1 - m[a]) * f[a]; every culled age is 0 |
| Stepper.BirthsFromSurvivors | src/simulate.py:71-80 | births are the fertility-weighted sum of the post-mortality counts, prev[a] * (1 - m[a]) * f[a] summed over all ages |
| Stepper.StepNonNeg | src/simulate.py:67-87 | with prev >= 0, mortality in [0, 1] and fertility >= 0, every entry of the next vector is >= 0 |
| Stepper.StepWithoutCull | src/simulate.py:82-85 | when the painted age is not an age, the step is mortality, aging and births with nothing removed |
| Stepper.ShiftedSum | src/simulate.py:74-80 | aging keeps everyone but the last age and adds the newborns |
| Stepper.StepBalance | src/simulate.py:71-80 | without a cull, next total = survivors total - survivors at age 100 + births |
| Stepper.PureAgingKeepsTotal | src/simulate.py:67-87 | with no deaths, no births and no cull, the total is kept except for the people at age 100, who leave |
| Stepper.HalfMortalityScenario | src/simulate.py:67-87 | a cohort of n newborns, mortality 0.5 at every age and no fertility leave exactly n / 2 people after the first step |
| Stepper.CullAtAgeZeroEmpties | src/simulate.py:83-85 | at step 101 the painted age is 0, still an index, and the whole vector is zeroed |
| Projection.Project | src/simulate.py:66-87 | the fold gives steps + 1 rows of 101 entries: row 0 is the initial vector and row y is step y applied to row y-1 |
| Projection.RowNonNeg | src/simulate.py:66-87 | by induction over the years, every row of the projection is non-negative |
| Projection.ProjectNonNeg | src/simulate.py:66-87 | every year's vector is non-negative |
| Projection.BracketTotals | src/simulate.py:89-93 | the six bracket sums of a vector add up to its total, each is the sum over its bracket's ages, and they are non-negative when the vector is |
| Projection.Aggregate | src/simulate.py:89-93 | one row per vector keyed by year StartYear + y; its bracket counts add up to that year's total |
| Projection.Paris | src/simulate.py:23-64 | the configured tables and initial vector meet the engine's invariants, and the initial vector sums to 2,714,068 |
| Projection.Run | src/simulate.py:66-87 | 68 non-negative vectors, the first being the initial vector and each later one the step of the one before |
| Projection.Simulate | src/simulate.py:12-93 | the output table has one row per year 1900 .. 1967 in increasing order; the count of bracket j in row y is the sum of year y's projected vector over the bracket's ages; the counts are non-negative and add up to that year's total, which in 1900 is the initial total |
| Projection.ParisFirstRow | src/simulate.py:61-64 | the configured run's 1900 row accounts for exactly 2,714,068 people |
| Projection.CulledBracketEmpty | src/simulate.py:83-93 | once the painted age is at or below a bracket's youngest age, that bracket's count is 0 in that year |
| Projection.ZeroBracket | src/simulate.py:90-93 | a bracket whose ages are all zero has a zero count |
| Projection.OldestEmptyFrom1926 | src/simulate.py:83-93 | in every run the 75+ column is 0 in every year from 1926 to 1967 |

## Left out

- The CSV export (`src/simulate.py:96`) is file I/O. The model ends at the table of rows.
- `src/plot.py` (chart rendering and image loading) and `main.py` (the command-line dispatcher) are not part of this model.
- pandas and numpy mechanics are not modelled: DataFrame and Series allocation, `.loc` indexing, and the integer-to-float dtype upcast of the zero-initialised frames. Vectors are `seq<real>`.
- IEEE floating-point rounding is not modelled. Values are exact reals. In exact arithmetic the census shares sum to exactly 1, so the rescale factor is exactly 1 (`Initial.UnitRescale`). With floats it corrects rounding drift.
- Initial.Rescale: requires a non-zero sum. The source divides without a guard; with floats a zero sum would give non-finite values, which the model does not represent. The configured spread sums to the positive target.
- Bands.Fill: slice bounds are natural numbers. Python's negative slice indices, counted from the end, are not modelled; the source's slice assignments use none. The negative bound of the aging step is modelled by `Stepper.Shifted`.
- The years 1900 .. 1967 and the age range 0 .. 100 are fixed constants, as in the source. Only the initial vector and the rate tables are parameters (`Projection.Scenario`).
