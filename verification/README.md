# Rowshape in Dafny

A model of the parts of rowshape that make promises about data and text, with
proofs of those promises: the hydration engine that rebuilds rows from statistics,
the canonical form behind a fixture's digest, the shape merge and the value gate of
the profiler, two statement analyses, and the managed block an agent rule is kept in.

`dafny verify dfyconfig.toml` checks the whole project.

## How it is laid out

| part | modules |
|---|---|
| Fan-out allocation (`internal/hydrate/fanout.go`) | `Fanouts`, `FanoutShapes`, `Sums` |
| CHECK text as value domains (`internal/hydrate/checkdomain.go`) | `CheckText`, `CheckDomains`, `CheckParse`, `CheckRenderings`, `CheckSound` |
| Cell values, keys, tables (`internal/hydrate/engine.go`, `prng.go`) | `Columns`, `TypeNames`, `Rendering`, `Forms`, `Nulls`, `Engine`, `Prng`, `Cells`, `Shapes`, `Holders`, `Keys`, `Orphans`, `EveryDraw`, `Budget`, `Generation`, `CheckedCells`, `UniqueCells`, `ReferenceCells` |
| Canonical form and digest (`internal/fixture`) | `Canonicals` on values, `NodeTrees` on the heap |
| Shape merge and value gate (`internal/profile`) | `Skeletons`, `SampleOrder`, `ShapeMeaning`, `ValueGate` |
| WHERE windows and transactions (`internal/findings`) | `WindowText`, `Window`, `WindowParse`, `Epochs` |
| Managed rule block (`internal/agentrule/version.go`) | `ManagedBlock` |
| Go's own operations | `Numbers`, `Digits`, `Text`, `Order`, `FiniteSets`, `Values`, `Wrappers` |

What the program computes step by step is a method with the source's loops, proved
against a function or a relation; what is promised of it is proved about that function
or relation. int64 is `int` with explicit wrapping (`Numbers.Wrap`) where it matters,
float64 is `real`. SHA-256, number parsing, `math.Pow` and time parsing are parameters,
so the theorems hold whatever they return. `Engine` states cells over any numbers drawn;
`Cells` draws them from the splitmix64 generators of a run.

## Where the code differs from what it says

Each item is a lemma; where a promise fails, the condition under which it holds is
exact.

- `Fanouts.AllChildrenDangleIff`: orphan groups are compared with the number of
  parents, not of groups that get children. A reference can dangle as a whole, which the
  comment at `internal/hydrate/fanout.go:302-303` rules out.
- `Fanouts.ReconciledTotal`: with more populated parents than children the total is
  the number of populated parents, not of children.
- `Fanouts.BandKeptIff`: the comment at `internal/hydrate/fanout.go:192-194` leaves the band
  near p95 alone; the loops treat it as body and take back from it first.
- `Keys.ChildKeyMatchesIff`: a child's key skips the NULL, label, CHECK-list, CHECK-bound,
  domain and bucket steps that made the parent's own cell. `EveryDraw.KeyAlwaysMatchesIff`
  says for which fixtures the two agree whatever is drawn.
- `Keys.BorrowedHoldsIff`, `Keys.BorrowedNumberIff`: a parent column that is a foreign key itself
  holds its own parent's key, while its children carry the key of the row's ordinal. The two agree
  only where the row was assigned an ordinal with the same value: a shared primary key without a
  fan-out resolves exactly below the number of rows it refers to (`Keys.SharedKeyHoldsIff`).
  `Generation.SharedKeyDangles` is an instance.
- `Orphans.OrphanResolvesIff`: the id of a deliberate orphan is one no parent has
  (`internal/hydrate/engine.go:841-842`), where every parent holds its children's key, only if no
  parent is the first with its value. `Orphans.RepeatingOrphanIff` (ipv4, MAC addresses, bit strings,
  timestamps and others that start over) and `Orphans.DigitOrphanIff` (numeric strings under a
  width) give the ordinals that fail.
- `Orphans.NumberOrphanIff`: where the CHECK bounds move parents, a numeric orphan resolves as soon
  as a lower bound truncates to its number; `Orphans.OrphanCanResolve` is an instance.
  `Orphans.RenderedOrphanIff`, `Orphans.BorrowedOrphanIff` and `EveryDraw.DrawnOrphanNeverIff` are the
  conditions for other values with NULLs, for borrowed keys, and for texts that are drawn.
- `ReferenceCells.NullsReproduced`, `ReferenceCells.KeysUniqueIff`, `ReferenceCells.KeysMeetIff`: a
  foreign key skips the NULL, unique and CHECK steps (`internal/hydrate/engine.go:271-282`). None of
  its rows is NULL, whatever fraction is recorded; its rows differ only where no two ordinals have
  one key; and its CHECKs are met only by keys that meet them by themselves.
- `UniqueCells.ColumnUniqueIff`, `UniqueCells.RenderedUniqueIff`: values of a unique column
  collide (`internal/hydrate/engine.go:389-390` says never) where the rendering starts over or the
  CHECK bounds move two numbers together. `UniqueCells.TimestampsUniqueIff` and
  `UniqueCells.NumbersApartIff` are the cases of timestamps and of numbers;
  `UniqueCells.DrawnUniqueIff` is that of columns drawn from a CHECK list or labels.
- `Rendering.NumericStringsUniqueIff`: `numeric_string` is the one format whose clamped
  text can repeat an earlier row's digits; `Rendering.CollisionAtWidthTwo` is an instance.
- `CheckSound.ClampedIntegersSatisfyIff`, `CheckSound.ClampedNumbersSatisfyIff`: an integer
  is truncated after clamping, so a fractional bound can be missed, and strict bounds less
  than two apart are moved past each other. `CheckSound.StrictUnitIntervalViolated` refutes
  the comment at `internal/hydrate/checkdomain.go:236-239` that a fractional column still
  satisfies its constraint. `CheckedCells.ColumnMeetsIff` carries the condition to the
  generated tables.
- `CheckSound.DrawnValueSatisfiesIff`, `CheckSound.EveryOrderAdmitsCommonIff`: value lists
  without a common value are merged to an empty list that then reads as none.
- `Budget.RowCountGrowsIff`: a scaled count past the int64 range falls back to one row
  on amd64.
- `Epochs.ConflictIff`: a CHECK that every row violates is not reported where the end of the range
  that it turns on was not recorded and the other end violates it; `Epochs.CertainConflictMissed` is
  an instance.
- `ShapeMeaning.MergedShapeTellsIff`: the merged shape says what stands in the samples exactly where no
  path mixes objects, arrays and scalars; an empty array counts as a scalar there.
- `SampleOrder.OrderIndependentIff`: the merged shape depends on sample order unless the
  samples are order-free; `SampleOrder.SampleOrderCanMatter` is an instance.
- `Window.SilenceIsSoundIff`: the span wraps to a small number for a window of more than
  MaxInt64 values. `Window.UniqueColumnSelectsFewRows` and `Window.RepeatedColumnSelectsMany`:
  the span counts values, and rows only where the column is unique.
- `Window.OutcomeFaultsIff`: a conjunct that ends in its comparison operator is indexed
  past its end; `WindowParse.TrailingOperatorFaults` is an instance.
- `Window.OrderDecidesIff`: with windows on several columns the finding can depend on map
  order; `WindowParse.SpanDependsOnMapOrder` is the case of two.
- `WindowText.TextsSplitIff`: a BETWEEN inside parentheses or a literal swallows the
  conjunct after it.
- `ManagedBlock.UpsertIdempotentIff`, `ManagedBlock.TextSurvivesTwiceIff`: in a file with an
  unclosed begin marker the first run appends a block and the second replaces everything from
  that marker on, so text outside any block is lost (`internal/agentrule/version.go:94-96` promises
  it back); only the third run changes nothing.

The gate of the value set recovers counts exactly up to a million samples
(`ValueGate.CountsRecoveredIff`); the profiler takes at most 500 (`internal/profile/columns.go:22`),
so the failure past that is out of its reach.

## Model

| member | source | states |
|---|---|---|
| Fanouts.FanoutFacts | internal/hydrate/fanout.go:132-152 | the facts used are positive and ordered p50 <= p95 <= max, whatever was recorded |
| FanoutShapes.FactsSurvive | internal/hydrate/fanout.go:132-152 | facts that are usable and in order are taken as recorded |
| FanoutShapes.FactsCompleted | internal/hydrate/fanout.go:132-152 | a missing median or mean is taken from the other, both from an even spread, and p95 and max are raised only where they lie below the fact before them |
| FanoutShapes.PopulatedIsNearest | internal/hydrate/fanout.go:91-96 | as many parents have children as makes the recorded mean their mean, to the nearest, between one and all |
| FanoutShapes.ScaledMaxIs | internal/hydrate/fanout.go:98-105 | the largest count stays in proportion to the children handed out |
| FanoutShapes.WhaleIsNearest | internal/hydrate/fanout.go:98-105 | and the largest parent gets it to the nearest, between one and all children |
| FanoutShapes.BodyIsLower | internal/hydrate/fanout.go:107-112 | the body is the lower 95 percent of the populated parents, rounded down |
| FanoutShapes.CountIsNearest | internal/hydrate/fanout.go:114-124 | a quantile counts as the nearest whole child, and as one at least |
| FanoutShapes.CurveThroughFacts | internal/hydrate/fanout.go:165-185 | the curve starts at the reflection of p95 about the median or at one, passes through the median in the middle and ends at p95 |
| FanoutShapes.CurveLinearBelow | internal/hydrate/fanout.go:165-185 | below the median equal steps gain equally |
| FanoutShapes.CurveGeometricAbove | internal/hydrate/fanout.go:165-185 | above it equal steps multiply equally |
| FanoutShapes.LargestShownIff | internal/hydrate/fanout.go:86-128 | the finished counts show the scaled largest count iff one child for every other populated parent leaves room for it, or it is one |
| FanoutShapes.PercentileShown | internal/hydrate/fanout.go:86-128 | they show the recorded p95 above the body where no more is missing than there are parents below |
| FanoutShapes.MedianShown | internal/hydrate/fanout.go:86-128 | the lower half of the body has no more than the recorded median and the upper half no less, moved by the even share of what is missing to within one child |
| FanoutShapes.OrphansAreNearest | internal/hydrate/fanout.go:286-311 | the rows that should dangle are the recorded share of the children, to the nearest |
| Fanouts.GrowBody | internal/hydrate/fanout.go:212-218 | missing children are dealt round-robin: every body parent gains d / body, the first d % body one more, the whale nothing |
| Fanouts.DrainBody | internal/hydrate/fanout.go:219-235 | children are taken back to a water level max(1, old - k), one extra from a suffix, and never past the point where the body is all ones |
| Fanouts.SettleWhale | internal/hydrate/fanout.go:230-239 | the whale changes only when the whole body is at one |
| Fanouts.Reconcile | internal/hydrate/fanout.go:195-241 | both loops together leave the array in the relation Reconciled, entries past the prefix untouched |
| Fanouts.ReconciledTotal | internal/hydrate/fanout.go:195-241 | the prefix sums to max(childN, nonEmpty), so to childN exactly when nonEmpty <= childN, and every prefix count stays at least one |
| Fanouts.ReconciledUnique | internal/hydrate/fanout.go:195-241 | the relation leaves no choice: two arrays reconciled from the same counts are equal |
| Fanouts.ReconciledNearlyAscending | internal/hydrate/fanout.go:195-241 | an ascending body ends ascending to within one child |
| Fanouts.TargetCounts | internal/hydrate/fanout.go:86-128 | the per-parent counts are the reconciled shape of mean, p50, p95 and max |
| Fanouts.TargetCountsTotal | internal/hydrate/fanout.go:86-128 | positive on the populated parents, zero beyond, summing to childN iff the populated parents are no more than the children |
| Fanouts.MeanOfOneReachesTotal | internal/hydrate/fanout.go:86-128 | a usable mean of at least one is enough for that |
| Fanouts.TargetCountsNearlyAscending | internal/hydrate/fanout.go:86-128 | below the whale, later parents have at least as many children, to within one |
| Fanouts.BodyQuantileMonotone | internal/hydrate/fanout.go:165-185 | the quantile curve through p50 and p95 rises, up to values that count as one child anyway |
| Fanouts.EvenlySpread | internal/hydrate/fanout.go:187-241 | the residual goes evenly over the body: everyone gains an equal share to within one child, or gives back equally to within one unless left with one |
| Fanouts.WhaleKeptIff | internal/hydrate/fanout.go:187-241 | the largest parent keeps its count iff one child for each of the others leaves room for it, or it has only one |
| Fanouts.BandKeptIff | internal/hydrate/fanout.go:187-241 | the parents between p95 and the largest keep their counts iff nothing is missing, no more than the parents below them, or too much was shaped and they have one child each |
| Fanouts.OrphanGroupCount | internal/hydrate/fanout.go:286-311 | the orphan groups are the shortest run from the bottom that reaches the wanted rows, capped at one less than all parents |
| Fanouts.LayGroups | internal/hydrate/fanout.go:46-61 | the slots are filled group by group, and the loop for leftover children never runs |
| Fanouts.AssignForeignKeys | internal/hydrate/fanout.go:20-63 | childN ordinals in the layout of the target counts, or round-robin without a fan-out, or zeros without parents |
| Fanouts.AssignmentFollowsCounts | internal/hydrate/fanout.go:20-63 | each group p occurs exactly as often as it is served, counts[p] times while the populated parents are no more than the children, under parentN + p for an orphan group and p otherwise, and no other ordinal occurs |
| Fanouts.AssignmentOrphanRows | internal/hydrate/fanout.go:46-62 | the orphan rows are the rows of the first groups and overshoot the wanted number by less than the last group taken |
| Fanouts.AllChildrenDangleIff | internal/hydrate/fanout.go:286-311 | every child dangles iff some parent is childless and the wanted rows exceed all served groups but the last, for any number of populated parents |
| Fanouts.WholeReferenceCanDangle | internal/hydrate/fanout.go:286-311 | one percent orphans over one populated parent of two: all hundred rows dangle |
| Numbers.ToI64 | internal/hydrate/convert.go:28-42 | truncation toward zero, saturating at the end of the int64 range on the side of the input |
| CheckText.StripOuterParensLoop | internal/hydrate/checkdomain.go:149-178 | the nested scan terminates and strips what the tail-recursive StripOuterParens strips |
| CheckText.WrapsIffInsideBalanced | internal/hydrate/checkdomain.go:149-178 | on balanced text a pair of parentheses is stripped iff what lies between is balanced on its own |
| CheckText.StripEnclosed | internal/hydrate/checkdomain.go:149-178 | any number of enclosing parentheses and blanks strips to what the text alone strips to |
| CheckText.SplitConjuncts | internal/hydrate/checkdomain.go:117-140 | the index loop computes Conjuncts |
| CheckText.SplitUndoesJoin | internal/hydrate/checkdomain.go:117-190 | splitting text that joins atoms with AND, under any enclosing parentheses, gives back exactly those atoms |
| CheckText.SplitSingle | internal/hydrate/checkdomain.go:117-140 | a single atom comes back with its own enclosing parentheses removed |
| CheckDomains.ArrayLiteralsLoop | internal/hydrate/checkdomain.go:308-339 | the quote-aware scan computes ArrayLiterals |
| CheckDomains.CheckDomains | internal/hydrate/checkdomain.go:50-79 | the map holds for every column the merge of all checks recognized in obeyed constraints, and no column without a restriction |
| CheckDomains.Intersect | internal/hydrate/checkdomain.go:100-112 | the elements are those of both lists |
| CheckParse.ComparisonReadBack | internal/hydrate/checkdomain.go:196-255 | a comparison of a column with a number is read as exactly that bound on that column |
| CheckParse.MembershipReadBack | internal/hydrate/checkdomain.go:196-255 | "column = ANY (ARRAY[...])" is read as exactly those values, whatever quotes, brackets or commas they hold |
| CheckParse.CheckBodyReadBack | internal/hydrate/checkdomain.go:117-255 | conditions joined with AND contribute exactly their checks, in order |
| CheckRenderings.ColumnIsRead | internal/hydrate/checkdomain.go:291-304 | a name under any parentheses, with a cast behind or without, is read as that name |
| CheckRenderings.NumeralIsRead | internal/hydrate/checkdomain.go:342-353 | and a numeral as its number |
| CheckRenderings.WrittenComparisonRead | internal/hydrate/checkdomain.go:196-255 | so a comparison is read as that bound on the named column, however its sides are enclosed and cast |
| CheckDomains.ConstraintContributes | internal/hydrate/checkdomain.go:50-79 | a CHECK contributes its recognized conjuncts unless it is opaque or was never validated, and no other constraint does |
| CheckSound.ClampedNumbersSatisfyIff | internal/hydrate/engine.go:314-353 | every fraction lands inside every recognized check iff the merged bounds are consistent or the upper one alone meets the checks |
| CheckSound.ClampedIntegerSatisfiesIff | internal/hydrate/engine.go:314-353 | one integer lands inside every check iff it is inside the merged bounds or the bound it is moved to survives truncation |
| CheckSound.ClampedIntegersSatisfyIff | internal/hydrate/engine.go:314-353 | every integer lands inside every check iff both truncated bounds do, or the truncated upper one where the bounds exclude each other |
| CheckSound.IntegralBoundsAreSafeIff | internal/hydrate/engine.go:314-353 | with integral bounds an integer lands inside every check iff the bounds are consistent, whichever integer it is |
| CheckSound.StrictUnitIntervalViolated | internal/hydrate/checkdomain.go:233-243 | the strict bounds 0 and 1 are moved past each other: every number becomes 0, although one half met both checks |
| CheckSound.FractionalBoundCanBeViolated | internal/hydrate/engine.go:331-343 | a lower bound of one half on an integer column is missed |
| CheckSound.DrawnValueSatisfiesIff | internal/hydrate/engine.go:314-326 | the drawn value is in every list iff the lists have a value in common |
| CheckSound.CellMeetsChecksIff | internal/hydrate/engine.go:314-353 | a non-null cell meets any mix of recognized checks iff they are lists with a common value, or bounds met by an integer as above |
| CheckedCells.CellMeetsIff | internal/hydrate/engine.go:265-284 | the same for the cells the engine generates and the checks it parsed from their table |
| CheckedCells.ColumnMeetsIff | internal/hydrate/engine.go:265-284 | in a generated table a column that is no foreign key meets its checks iff every value drawn for it is NULL or can meet them |
| CheckedCells.NumberColumnMeetsIff | internal/hydrate/engine.go:265-284 | a generated number column under integral bounds meets its checks iff the bounds are consistent or every row is NULL |
| CheckSound.EveryOrderAdmitsCommonIff | internal/hydrate/checkdomain.go:83-112 | every order of the constraints admits exactly the values in all lists iff there is no list or the lists have a value in common |
| CheckSound.MergeOrderIrrelevant | internal/hydrate/checkdomain.go:83-112 | the merged domain, bounds included, is then the same for any order |
| CheckSound.MergeOrderCanMatter | internal/hydrate/checkdomain.go:83-112 | without one the last list wins |
| Columns.EffectiveWidth | internal/hydrate/engine.go:548-560 | the tighter of the type's limit and the declared length, none only if both are absent |
| Columns.CharWidthReadBack | internal/sqlkind/chartype.go:22-93 | a character type written with a positive length, in any case and spacing and with further modifiers, is read as exactly that length |
| Columns.CharWidthDefault | internal/sqlkind/chartype.go:79-93 | without a length a character holds one and any other text is unbounded |
| Columns.ChainResolved | internal/fixture/model.go:164-188 | a chain of domains resolves to the type at its bottom, and a longer one than sixteen to the sixteenth base |
| Rendering.RawFakeValue | internal/hydrate/engine.go:629-696 | a value is never NULL; it is an integer exactly for an unhinted numeric column, and then the in-range one |
| Rendering.FakeValue | internal/hydrate/engine.go:477-479 | the width clamp never touches a number |
| Rendering.WidthRespected | internal/hydrate/engine.go:510-560 | no text exceeds the type's limit nor the declared length, and text that fits is left alone |
| Forms.HintedForm | internal/hydrate/engine.go:629-654 | a hinted text has the form its hint names: an address, a UUID, a URL, a host, a slug, digits, one of the values |
| Forms.LiteralForm | internal/hydrate/engine.go:656-696 | an unhinted value is a literal of its type: an IP or MAC address, the ordinal's last bits in binary, a point, a boolean |
| Forms.TemplateForm | internal/hydrate/engine.go:656-696 | and a UUID, an interval in seconds or an element where the type fills a template |
| Forms.SharedTextCut | internal/hydrate/engine.go:510-538 | text too long for a column that is not unique fills the width with its own beginning and the ordinal's base-36 digits |
| TypeNames.FamilyRead | internal/hydrate/engine.go:977-1030 | every type name of a family, in any case, with blanks and modifiers, is synthesized as that family's |
| Rendering.FillInjective | internal/hydrate/engine.go:629-696 | different ordinals render as different text, padded or not |
| Rendering.TailInjective | internal/hydrate/engine.go:614-626 | the base-36 tail tells ordinals below 36^width apart |
| Rendering.ClampedTextInjective | internal/hydrate/engine.go:510-538 | clamped text of a unique column tells ordinals below 36^width apart, mixing clamped and unclamped ones |
| Rendering.TemplatesAreMarked | internal/hydrate/engine.go:629-696 | of the formats that render an ordinal, all but numeric_string hold a character that is no base-36 digit |
| Rendering.NumericStringsUniqueIff | internal/hydrate/engine.go:510-538 | a unique numeric_string column of up to 36^width rows is free of duplicates iff no row too long for the width is written in base 36 with decimal digits only |
| Rendering.CollisionAtWidthTwo | internal/hydrate/engine.go:614-626 | ordinals 30 and 108 at width 2 |
| Nulls.NullCountIsFloor | internal/hydrate/engine.go:702-712 | of the first n ordinals exactly floor(n * p) are NULL, for every p in [0, 1] and n |
| Nulls.NullShareClose | internal/hydrate/engine.go:698-712 | so the share of NULLs is within 1/n of the fraction |
| Shapes.EnumCellIsLabel | internal/hydrate/engine.go:364-372 | a non-null cell of an enum type holds one of the labels that its definition lists |
| Shapes.EnumArrayIsLabel | internal/hydrate/engine.go:373-382 | and one of an array of the enum a one-element array of a label |
| Shapes.IntegerRangeShown | internal/hydrate/engine.go:741-768 | over a recorded integer range a column that is not unique stays inside and shows every integer, and a unique one counts up from the least |
| Shapes.OtherRangeRead | internal/hydrate/engine.go:756-768 | fractional ends are truncated, and a range without numbers or with its ends exchanged is none |
| Shapes.NumberInRange | internal/hydrate/engine.go:741-754 | a column that is not unique stays inside its range, whose span may wrap |
| Shapes.UniqueNumberInRangeIff | internal/hydrate/engine.go:722-754 | a unique column is inside its range exactly for ordinals below the number of integers in it, wrapping included, and there equals the wrapping form |
| Shapes.TimeInRange | internal/hydrate/engine.go:772-788 | a timestamp stays inside its range |
| Shapes.HoursCountUp | internal/hydrate/engine.go:770-788 | without a range timestamps count up from the year 2000 by the hour |
| Shapes.NanosecondsCountUp | internal/hydrate/engine.go:770-788 | over a range they count up from its least by the nanosecond and start over at its greatest |
| Shapes.SampledInBucket | internal/hydrate/engine.go:419-448 | a sampled value lies between two neighbouring histogram bounds |
| Shapes.PointDivides | internal/hydrate/engine.go:419-448 | the sampled point divides two bounds in the drawn proportion, from the lesser on, in whichever order they stand |
| Shapes.FractionOfWord | internal/hydrate/prng.go:37-40 | a draw is taken as a fraction of 2^64, to within 2^-53 |
| Shapes.AtMostDistinctValues | internal/hydrate/engine.go:392-412 | a column with a known number of distinct values shows only that many renderings |
| EveryDraw.ShownIff | internal/hydrate/engine.go:392-448 | over all draws a column that is not unique shows exactly the renderings of the ordinals below its distinct count, or below 2^20, every one of them, or the points of its histogram's buckets |
| Budget.HydratedRowCount | internal/hydrate/engine.go:174-186 | an empty table stays empty, any other keeps a row, and the cap holds |
| Budget.RowCountIsScaled | internal/hydrate/engine.go:174-186 | any other table has the declared count times the scale, rounded down but at least one, and the cap exactly where that is smaller |
| Budget.WholeRowCount | internal/hydrate/engine.go:174-186 | at scale one without a cap it has exactly the declared rows |
| Budget.RowCountGrows | internal/hydrate/engine.go:174-186 | a larger scale gives no fewer rows while the scaled count is an int64 |
| Budget.RowCountGrowsIff | internal/hydrate/engine.go:174-186 | on amd64 only then, for a table of more than one row |
| Budget.DivisionTestIsExact | internal/hydrate/engine.go:121-129 | the division test fails for every wrapped product and no other |
| Budget.CheckBudget | internal/hydrate/engine.go:104-147 | with wrapping arithmetic, accepts iff the limit, fifty million by default, is negative or the mathematical number of cells is within it; overflow and total errors name true facts |
| Budget.CellsCounted | internal/hydrate/engine.go:113-119 | a table counts its rows times its columns, and one cell a row without any |
| Prng.Rng.Next | internal/hydrate/prng.go:28-34 | the n-th call returns the n-th number of the seed's stream |
| Prng.Rng.Intn | internal/hydrate/prng.go:43-48 | a number below n from one draw, 0 from none when n is not positive |
| Prng.Rng.Float64 | internal/hydrate/prng.go:37-40 | the top 53 bits of one draw as a fraction |
| Prng.PublishedStart | internal/hydrate/prng.go:28-34 | the stream of seed 0 starts with the number published for splitmix64, so the constants, shifts and wrapped products are those of that generator |
| Prng.CellRng | internal/hydrate/prng.go:55-73 | a fresh splitmix64 generator seeded by the hash of the cell's own coordinates |
| Prng.CellKeyInjective | internal/hydrate/prng.go:62-84 | different cells hash different bytes: the length prefixes leave no boundary in doubt |
| Cells.SampleHistogram | internal/hydrate/engine.go:419-448 | a bucket and a point in it from the generator's next numbers, and how many it used |
| Cells.GenerateValue | internal/hydrate/engine.go:358-413 | drawing through the cell's own generator gives the value the numbers of that cell's stream decide, each number used in its turn |
| Cells.GenerateCell | internal/hydrate/engine.go:265-284 | a cell that is no foreign key, with a second fresh generator for its CHECK list |
| Keys.ReferenceRead | internal/hydrate/engine.go:909-924 | a reference names its table, qualified or not, and the column behind the last dot |
| Keys.StepAboveLargest | internal/hydrate/engine.go:826-888 | stepping above the largest parent id in wrapping arithmetic gives the id of the orphan's own ordinal |
| Keys.KeyIsOrdinalsOwn | internal/hydrate/engine.go:826-857 | so every branch of parentIDValue yields the unique value of its ordinal |
| Keys.KeysTellApart | internal/hydrate/engine.go:826-888 | keys are equal iff ordinals are: orphans differ from every parent and from each other, for every column that tells its rows apart |
| Holders.SameValueIff | internal/hydrate/engine.go:477-757 | two ordinals of any unique column carry one value iff they have one holder, the first ordinal with that value: itself, its place in the cycle, the first text cut to the same tail, or the first label or array element it meets |
| Holders.MeetIff | internal/hydrate/engine.go:510-538 | with labels too long for the width, or arrays, two ordinals meet iff both fit and are one label or one rendered element, both are cut to one tail, or one's label is the other's base-36 tail |
| Holders.TellsApartIff | internal/hydrate/engine.go:477-757 | the values of n rows are pairwise different iff there is room for n: no cycle ended, no tail repeated, no two labels or elements meeting, no plain digits met by base-36 text |
| Holders.DigitsThatFit | internal/hydrate/engine.go:510-538 | numeric_string keys that fit their width undisturbed are told apart |
| Orphans.OrphanMeetsIff | internal/hydrate/engine.go:841-856 | the id of a deliberate orphan is some parent's generated cell iff the generator's guards let it through in that parent's row, for every parent column |
| Orphans.OrphanResolvesIff | internal/hydrate/engine.go:841-856 | where every parent holds its children's key, an orphan's id is some parent's generated cell iff the first ordinal with its value is a parent's |
| Orphans.RepeatingOrphanIff | internal/hydrate/engine.go:841-856 | there, the orphan of a key whose values start over resolves iff its ordinal is past the first cycle, 256 for ipv4, however few parents there are |
| Orphans.DigitOrphanIff | internal/hydrate/engine.go:510-538 | there, a plain-digit orphan under a width resolves iff its base-36 text reads as the decimal digits of a parent |
| Orphans.MovedOrphanIff | internal/hydrate/engine.go:314-353 | a numeric orphan resolves iff the CHECK bounds move some parent that is not NULL onto its number, wherever the range wraps |
| Orphans.NumberOrphanIff | internal/hydrate/engine.go:314-353 | for keys that count up: iff the parents are not all NULL and the lower bound truncates to the orphan's number, or the upper one does under bounds that exclude each other |
| Orphans.OrphanCanResolve | internal/hydrate/engine.go:314-353 | six parents under the CHECK that an id is at least 10: all become 10, which is the orphan's id |
| Orphans.RenderedOrphanIff | internal/hydrate/engine.go:841-856 | a unique column that is no number, NULLs included: iff some parent that is not NULL has the orphan's holder |
| Orphans.BorrowedOrphanIff | internal/hydrate/engine.go:272-275 | a parent column that is a foreign key itself: iff some parent row was assigned an ordinal with the orphan's value |
| EveryDraw.DrawnOrphanNeverIff | internal/hydrate/engine.go:314-326 | a parent column drawn from a CHECK list or labels: whatever is drawn no parent has the orphan's id iff it is none of the texts, or all parents are NULL |
| Keys.ChildKeyMatchesIff | internal/hydrate/engine.go:265-284 | for every parent column, one that is a foreign key itself included, a child's key equals the cell its parent generated iff the generator's guards let it through: never at a NULL, by the drawn list value or label, by the rendering of the domain's base and the bounds, by the drawn bucket, or by the ordinal a borrowed row was assigned |
| Keys.BorrowedHoldsIff | internal/hydrate/engine.go:272-275 | a parent row that is a foreign key itself, over columns that render alike, holds its children's key iff its own ordinal and the one it was assigned have one holder |
| Keys.BorrowedNumberIff | internal/hydrate/engine.go:272-275 | a borrowed number is the children's key iff the row's ordinal and the assigned one give one number, each in its own column's range |
| Keys.SharedKeyHoldsIff | internal/hydrate/engine.go:272-275 | a shared primary key assigned row after row: exactly the rows below the number of rows it refers to hold their children's key |
| Keys.BorrowedKeyCanDangle | internal/hydrate/engine.go:272-275 | numbers from 5 over a key of numbers from 1: the first parent row holds 1, its children carry 5 |
| EveryDraw.KeyAlwaysMatchesIff | internal/hydrate/engine.go:354-413 | whatever 64-bit words are drawn, the parent's cell is its children's key iff the fixture and the assignment alone say so: every list value or label is the key, all that the buckets or the histogram can yield ends up as it, or nothing is drawn and it holds |
| EveryDraw.ReferenceAlwaysMatchesIff | internal/hydrate/engine.go:354-413 | the same for all rows of a reference at once |
| EveryDraw.SharedNumberAlwaysIff | internal/hydrate/engine.go:392-448 | for a number column that is not unique, histograms and domains included: iff the key is a number and both ends of every bucket that can be drawn, clamped into the CHECK bounds, are it |
| Keys.NullParentDangles | internal/hydrate/engine.go:358-361 | a NULL parent cell is no child's key |
| Keys.ClampedKeyIff | internal/hydrate/engine.go:510-560 | a hinted key, or one over a plain text domain, is rendered alike for parent and child iff its text fits both widths, or fits neither and its base-36 digits are cut alike |
| Keys.DomainTypedKeyIff | internal/hydrate/engine.go:383-387 | an unhinted key whose type reads as text or unknown, as a domain's does: over a text base only the widths can part it from its parent's; over any other base the two meet only where both are cut alike, or a bit string reads like the cut text |
| EveryDraw.SharedNumberHoldsIff | internal/hydrate/engine.go:392-448 | a number column that is not unique holds the key of a row iff that key is a number, the one drawn from its histogram or its buckets, clamped into the CHECK bounds; without bounds and histogram never from the number of buckets on |
| Keys.UniqueSurvivesBoundsIff | internal/hydrate/engine.go:331-353 | consecutive keys stay distinct under any bounds, fractional or exclusive, iff the bounds leave every one alone |
| UniqueCells.ColumnUniqueIff | internal/hydrate/engine.go:389-412 | the rows of a generated unique column differ, NULLs aside, iff no two of them meet: numbers beyond one bound or with one integer left, other values with one holder |
| UniqueCells.RenderedUniqueIff | internal/hydrate/engine.go:389-412 | without NULLs, a column that is no number is unique iff its rendering tells its rows apart |
| UniqueCells.NumbersApartIff | internal/hydrate/engine.go:331-353 | a column of numbers is unique iff the CHECK bounds make no two rows that are not NULL one, wherever its range wraps |
| UniqueCells.NumbersUniqueIff | internal/hydrate/engine.go:331-353 | without NULLs, two numbers or more that count up are unique iff the CHECK bounds leave every number alone |
| UniqueCells.TimestampsUniqueIff | internal/hydrate/engine.go:772-788 | a unique timestamp column is unique iff no two rows that are not NULL are a multiple of its cycle apart, the nanoseconds of its range or 2^51 rows without one; without NULLs, iff there are no more rows than that |
| UniqueCells.DrawnUniqueIff | internal/hydrate/engine.go:314-382 | a column drawn from a CHECK list or labels is unique whatever is drawn iff at most one row is not NULL |
| UniqueCells.DrawnRepeats | internal/hydrate/engine.go:314-382 | without NULLs, it is never unique once there are more rows than texts |
| ReferenceCells.NullsReproduced | internal/hydrate/engine.go:702-712 | in a generated table exactly floor(n * p) rows of a nullable column are NULL, and none of a foreign key's |
| ReferenceCells.KeysUniqueIff | internal/hydrate/engine.go:272-275 | the rows of a generated foreign-key column differ iff no two of their ordinals have one key |
| ReferenceCells.ApartKeysUniqueIff | internal/hydrate/engine.go:272-275 | for keys that are told apart: iff no ordinal is assigned twice |
| ReferenceCells.ServedOnceIff | internal/hydrate/engine.go:272-275 | so through a fan-out iff no group is served more than one row |
| ReferenceCells.RoundRobinUniqueIff | internal/hydrate/engine.go:272-275 | and without one iff there are no more rows than parents |
| ReferenceCells.KeysMeetIff | internal/hydrate/engine.go:272-275 | a generated foreign-key column meets the CHECKs on it iff every assigned key meets them by itself |
| ReferenceCells.NumberKeysMeetIff | internal/hydrate/engine.go:272-275 | numeric keys meet integral bounds iff every one of them is inside |
| Keys.KeyOccurrences | internal/hydrate/engine.go:265-284 | a key occurs among the children as often as its ordinal was assigned |
| Orphans.FanoutReachesCells | internal/hydrate/engine.go:265-284 | group p's key stands in exactly the rows the allocator serves the group, and, where every parent holds its children's key, a row matches no generated parent cell iff it belongs to an orphan group |
| Generation.AssignAll | internal/hydrate/engine.go:250-257 | every referencing column is assigned by its last reference |
| Generation.FirstRefusable | internal/hydrate/engine.go:203-219 | the first column in order whose type has no synthesis rule, or none |
| Generation.GenerateTable | internal/hydrate/engine.go:189-286 | every cell holds the assigned parent's key or the column's own value; refusal names the first unsupported column |
| Generation.Generate | internal/hydrate/engine.go:49-79 | nothing is generated iff the mathematical cell count is over the limit; otherwise all tables in order of name, none with an unsupported column, or a truly unsupported column |
| Generation.GeneratedRows | internal/hydrate/engine.go:49-79 | each generated table has the rows its declared count, the scale and the cap ask for, a scale that is not positive meaning the whole fixture |
| Generation.StoredLeftOut | internal/hydrate/engine.go:221-240 | a column is left to the database iff it is stored and its expression is known |
| Generation.RefusedIff | internal/hydrate/engine.go:1050-1062 | a column whose type the fixture does not define is refused iff the type is a text-search, range or geometric one |
| Generation.LargerScaleExtends | internal/hydrate/engine.go:265-284 | of two runs with one seed, the larger scale extends every column that is no foreign key |
| Generation.NewColumnChangesNothing | internal/hydrate/prng.go:50-57 | of two runs with one seed, an added column changes no cell of any other column that is no foreign key |
| Generation.ChildRowResolvesIff | internal/hydrate/engine.go:265-284 | between generated tables, a child cell equals the parent row it was assigned iff that parent holds its children's key, for every parent column, foreign keys included |
| Generation.ReferenceResolvesIff | internal/hydrate/engine.go:265-284 | all rows of a generated reference hold their parents' cells iff every assigned parent holds its children's key, and in every run when the fixture and the assignment alone say so |
| Generation.SharedKeyDangles | internal/hydrate/engine.go:265-284 | a shared primary key of numbers from 5 over one of numbers from 1: in the generated tables the child row holds 5 and its parent row 1 |
| Generation.FindsParentIff | internal/hydrate/engine.go:841-856 | a row of a generated foreign key, an orphan's as well, finds a row of the parent table iff its ordinal resolves |
| Generation.OrphansReproduced | internal/hydrate/engine.go:265-284 | where keys are told apart and every parent row holds its children's key, exactly the rows of the orphan groups, which come first, find no parent row |
| Generation.RunDrawsWords | internal/hydrate/prng.go:28-48 | the generators of every run draw 64-bit words, so what holds whatever words are drawn holds in every run |
| Generation.FanoutReproduced | internal/hydrate/engine.go:250-284 | in the generated child table each group's key fills exactly the rows the allocator serves it, the target counts themselves for a usable mean of at least one |
| Canonicals.StableSortAscending | internal/fixture/canonical.go:93-106 | sorted pairs with distinct keys are in strictly ascending order |
| Canonicals.CanonicalIffSameMeaning | internal/fixture/canonical.go:56-106 | two documents have the same canonical form iff they mean the same, whatever the key order; sequence order counts |
| Canonicals.CanonIdempotent | internal/fixture/canonical.go:56-88 | canonicalizing twice is canonicalizing once |
| Canonicals.CanonExpands | internal/fixture/canonical.go:56-88 | an alias canonicalizes as what it points at |
| Canonicals.CanonBare | internal/fixture/canonical.go:56-88 | no anchor and no alias is left |
| Canonicals.DropIgnoresExcluded | internal/fixture/canonical.go:112-119 | neither meta.digest nor meta.generated_at reaches what is hashed |
| Canonicals.DropKeepsOthers | internal/fixture/canonical.go:112-119 | and everything else does, within meta and beside it |
| Canonicals.DigestIffSameMeaning | internal/fixture/digest.go:15-25 | two fixtures have one digest iff they mean the same apart from the two fields, as long as the hash tells their canonical forms apart |
| Canonicals.Fixture.SetDigest | internal/fixture/digest.go:27-34 | storing the digest does not change it, so a second call stores the same |
| NodeTrees.Node.SortMapping | internal/fixture/canonical.go:93-106 | the heap nodes are reordered in place and stand for the stably sorted mapping |
| NodeTrees.Node.Canonicalize | internal/fixture/canonical.go:56-88 | the in-place rewrite leaves the node standing for the canonical form, its footprint unchanged |
| NodeTrees.Node.FindKey | internal/fixture/canonical.go:122-132 | the first pair with the key, only in a mapping |
| NodeTrees.Node.RemoveKey | internal/fixture/canonical.go:135-147 | the pairs with another key stay, in place and in order |
| NodeTrees.Node.DropExcludedMetaFields | internal/fixture/canonical.go:112-119 | only the two excluded fields of the meta mapping go |
| NodeTrees.Node.CanonicalForm | internal/fixture/canonical.go:24-51 | the root ends up standing for the canonical form without the excluded fields |
| Skeletons.UnionLeafText | internal/profile/format_class.go:257-271 | the text of the union is the same whatever order the set is walked in |
| Skeletons.MergeCommutative | internal/profile/format_class.go:212-254 | merging is commutative on all shapes |
| Skeletons.MergeAssociative | internal/profile/format_class.go:212-254 | and associative on shapes with the same structure at every shared path |
| Skeletons.MergeIdempotent | internal/profile/format_class.go:212-254 | and idempotent on well-formed shapes |
| Skeletons.SkeletonWellFormed | internal/profile/format_class.go:179-207 | the shape of any JSON value is well-formed |
| Skeletons.JsonSkeleton | internal/profile/format_class.go:159-174 | the loop folds the shapes of the samples that parse |
| Skeletons.RepeatedSampleAbsorbed | internal/profile/format_class.go:159-174 | merging the merged shape with itself changes nothing |
| ShapeMeaning.MergedShapeTellsIff | internal/profile/format_class.go:159-254 | the merged shape has exactly the paths of the samples and names at each exactly the kinds of the values there iff no path mixes objects, arrays and scalars |
| ShapeMeaning.LeafNames | internal/profile/format_class.go:179-271 | a leaf then names the types of the scalars at its path, and the empty arrays that end there |
| ShapeMeaning.MarksDiffer | internal/profile/format_class.go:179-207 | different kinds of values have different names |
| SampleOrder.OrderIndependentIff | internal/profile/format_class.go:155-254 | the merged shape is the same for every order of the samples iff they are order-free |
| SampleOrder.SameStructureIsOrderFree | internal/profile/format_class.go:155-254 | samples that agree in structure wherever they overlap are order-free |
| SampleOrder.JsonSkeletonOrderFree | internal/profile/format_class.go:159-174 | jsonSkeleton gives order-free samples one shape |
| SampleOrder.SampleOrderCanMatter | internal/profile/format_class.go:212-271 | an object and two strings at one path: the order decides |
| ValueGate.CountRecovered | internal/profile/columns.go:419-421 | up to a million samples the count recovered from the rounded frequency is the true one |
| ValueGate.CountsRecoveredIff | internal/profile/privacy.go:253-261 | for every count, exactly then: past a million two counts share a frequency |
| ValueGate.RareValueRecounted | internal/profile/privacy.go:253-261 | nineteen sightings in two million count as the default threshold |
| ValueGate.ValueSetFromSample | internal/profile/columns.go:455-476 | the distinct values in order, each with its rounded share, or nothing past fifty |
| ValueGate.PublishedIffCommon | internal/profile/privacy.go:238-262 | a value set is published iff it has at most fifty values and each occurred at least k times |
| ValueGate.Column.PermissiveValuesAllowed | internal/profile/privacy.go:238-262 | the loop decides Allowed |
| ValueGate.Column.ApplyColumnPrivacy | internal/profile/privacy.go:173-219 | redact list, then level, in place; the count and sample size stay |
| ValueGate.LevelsWithhold | internal/profile/privacy.go:204-218 | strict withholds the range, the histogram and the values, standard the values, permissive those that are not safe, and each keeps the rest |
| ValueGate.RedactionWithholds | internal/profile/privacy.go:173-202 | a fact on the column's own list is never published, at any level |
| ValueGate.StricterTellsNoMore | internal/profile/privacy.go:173-219 | a stricter level publishes no more, no level adds a fact, and a second application changes nothing |
| WindowText.SplitConjuncts | internal/findings/rsbackfill.go:384-414 | the index loop with its per-start BETWEEN map computes Split |
| WindowText.SplitUndoesJoin | internal/findings/rsbackfill.go:384-414 | splitting undoes joining with AND, conjuncts with BETWEEN included |
| WindowText.SplitSwallows | internal/findings/rsbackfill.go:384-414 | conjuncts without an AND of their own split into exactly what is left when each BETWEEN takes the conjunct after it |
| WindowText.TextsSplitIff | internal/findings/rsbackfill.go:384-414 | any number of them come apart iff none but the last holds a BETWEEN |
| Window.BoundedRange | internal/findings/rsbackfill.go:295-380 | a result the source may give: some full column's span in map order, none without one, a fault at the first faulting conjunct |
| Window.SelectedIsWithin | internal/findings/rsbackfill.go:325-357 | values the conjunction selects stay within the gathered limits, however often one is overwritten |
| Window.SelectedFitWindow | internal/findings/rsbackfill.go:295-380 | no more int64 values are selected than the window holds |
| Window.SilenceIsSoundIff | internal/findings/rsbackfill.go:359-378 | a known span below the threshold means a window below it iff the window holds at most MaxInt64 values |
| Window.SpanIsWindowSize | internal/findings/rsbackfill.go:359-378 | the span is the window's size unless an open end sits at an int64 extreme |
| Window.SmallSpanSelectsFew | internal/findings/rsbackfill.go:117-139 | whichever column the map yields, a silencing span means few selected values of that column |
| Window.UniqueColumnSelectsFewRows | internal/findings/rsbackfill.go:117-139 | and few selected rows when the column is unique |
| Window.RepeatedColumnSelectsMany | internal/findings/rsbackfill.go:117-139 | but any number of them when it is not |
| Window.ReadFaultsIff | internal/findings/rsbackfill.go:417-431 | reading a conjunct indexes past its end iff its text ends in its first ">" or "<", with no BETWEEN, ">=" or "<=" inside |
| Window.OutcomeFaultsIff | internal/findings/rsbackfill.go:295-380 | boundedRange panics iff some conjunct of a condition without OR is such text |
| Window.MeasureIsSize | internal/findings/rsbackfill.go:359-378 | for every window the span is its size wrapped to int64, open ends stepped inside with wrapping, and unknown iff an end is no literal |
| Window.SilencedIff | internal/findings/rsbackfill.go:117-139 | a window silences the finding iff its size is unknown, below the threshold or above MaxInt64 |
| Window.OrderDecidesIff | internal/findings/rsbackfill.go:359-378 | for any statement, the result is independent of the map's order iff all windows with both ends have one size, and whether the finding is silenced iff their sizes are all small or too wide, or none is |
| WindowParse.DecimalRead | internal/findings/rsbackfill.go:449-460 | every int64 written in decimal is read back |
| WindowParse.LiteralWritten | internal/findings/rsbackfill.go:449-460 | in quotes or without, with a cast or without |
| WindowParse.ColumnWritten | internal/findings/rsbackfill.go:434-444 | a column is read by its own name, qualified or not, in double quotes or not |
| WindowParse.BetweenReadBack | internal/findings/rsbackfill.go:325-342 | a BETWEEN over plain words is read as that window |
| WindowParse.ComparisonReadBack | internal/findings/rsbackfill.go:417-431 | a comparison over plain words is read as that limit, for all four operators |
| WindowParse.BatchedStatementSilencedIff | internal/findings/rsbackfill.go:108-139 | a statement batched by BETWEEN over a known column is silenced iff its window is below the threshold or too wide for an int64 |
| WindowParse.SpanDependsOnMapOrder | internal/findings/rsbackfill.go:359-378 | with windows on two columns either span can come back |
| WindowParse.TrailingOperatorFaults | internal/findings/rsbackfill.go:417-431 | a condition "col >" panics |
| Epochs.TxEndWords | internal/findings/rsconstraint.go:304-306 | a transaction ends with COMMIT, ROLLBACK or END and with nothing of another initial |
| Epochs.EpochTellsTx | internal/findings/rsconstraint.go:44-81 | equal transaction counts iff no transaction end and no change away from a named file lies between |
| Epochs.LastAddSuffices | internal/findings/rsconstraint.go:41-76 | keeping only the last add of each name loses nothing |
| Epochs.MustViolateIff | internal/findings/rsconstraint.go:103-182 | whatever a column may hold violates the comparison iff a recorded end does |
| Epochs.ConflictIff | internal/findings/rsconstraint.go:103-182 | an error is reported iff a violation is certain and the end the comparison turns on was recorded; a certain one is missed iff that end was not and the other violates it |
| Epochs.CertainConflictMissed | internal/findings/rsconstraint.go:103-182 | at least 10 over a column whose greatest value is 3 and whose least was not recorded |
| Epochs.UnconfirmedIff | internal/findings/rsconstraint.go:184-214 | a warning is given iff the decisive end was sampled and passes, and nothing iff it was not recorded, or read as a whole and passes |
| Epochs.ConflictMeansViolation | internal/findings/rsconstraint.go:103-182 | for any values the column may hold, an error means a violating one; with the decisive end read as a whole it is reported iff there is one, and over a sample silence never means there is none |
| Epochs.UnconfirmedIsOpen | internal/findings/rsconstraint.go:184-214 | a sample's warning is right either way: the data may meet the comparison or not |
| Epochs.Analyze | internal/findings/rsconstraint.go:37-83 | the findings of each statement in turn, its CHECK before its VALIDATE |
| Epochs.FindingsAreExact | internal/findings/rsconstraint.go:37-83 | a VALIDATE is reported iff it stands in the transaction of a NOT VALID add, with the last add's table, and a CHECK iff its decisive end violates it, or passes but was sampled |
| Epochs.FindingsOrdered | internal/findings/rsconstraint.go:37-83 | the findings follow the statements |
| Epochs.ReportableWithinFile | internal/findings/rsconstraint.go:45-55 | run file by file, only an add in the same file with no end between is reported |
| ManagedBlock.RenderedBlockIsWhole | internal/agentrule/version.go:69-75 | wherever the rendered block stands it is one begin marker, then its end marker, with none between |
| ManagedBlock.UpsertIdempotentIff | internal/agentrule/version.go:97-113 | a second application reports no change iff a whole block or no begin marker was there |
| ManagedBlock.UpsertKeepsSurroundings | internal/agentrule/version.go:97-113 | replacing keeps all text before and after the block |
| ManagedBlock.UpsertKeepsText | internal/agentrule/version.go:97-113 | appending keeps the content without trailing newlines as a prefix, and the block is found where it was put iff no begin marker precedes it |
| ManagedBlock.UnclosedMarkerCostsText | internal/agentrule/version.go:92-113 | over an unclosed begin marker the second run replaces everything from the first such marker on, and the third changes nothing |
| ManagedBlock.TextSurvivesTwiceIff | internal/agentrule/version.go:92-113 | text without a whole block survives two runs iff it has no begin marker or what follows the first one is what the block starts with |
| ManagedBlock.SettlesInTwoRuns | internal/agentrule/version.go:97-113 | whatever the file held, a third run changes nothing |

## Left out

- Database access, YAML decoding and encoding, file writes, the CLI and everything rendered for people: input and output.
- SHA-256, `math.Pow`, `strconv.ParseFloat`, time parsing and Go's `%v` rendering: parameters of the model, so array values are compared by what `%v` renders of their elements.
- IEEE rounding and fused multiply-add: float64 is `real`, so a value beyond 2^53 converted to float64 and back is not rounded.
- The int64 overflow of the running sum inside `reconcile`: counts are unbounded there.
- Unicode: text is ASCII, and a character is a byte.
- Aliases on the heap: `NodeTrees` has none, as a document decoded from a marshalled fixture has none; `Canonicals` covers them on values.
- Parsing of `ADD CONSTRAINT` and `VALIDATE CONSTRAINT` statements and of their comparisons: `Epochs.Statement` carries what the parsers found.
- The rule text inside the managed block: any text that holds no comment opener and ends on its own line.
- The version number in the begin marker, which `FindBlock` also returns: it does not decide where the block is.
- The spelling of format hints: `Columns.Format` is the vocabulary synthesis knows, with `json` and `jsonb_shape` as one.
- Placeholder labels of a withheld enum: `Columns.TypeDef` carries the labels in effect.
- Titles, details and evidence of findings, error texts, and the rules settled by one branch (`rsreverse`, `rsdeploy`, `rsindex`, `rslock`).
- Format inference, histograms' construction and length statistics of the profiler: plain aggregation.
- RawFakeValue: its contract tells the kind of value and the number, not each text; what the texts are for is stated by SameValueIff, TellsApartIff and WidthRespected.
- LargerScaleExtends: holds for columns that are no foreign key, because an assignment of foreign keys depends on the row counts.
- Columns whose rows are drawn at random: whether two of them differ is stated for all draws (`UniqueCells.DrawnUniqueIff`), not for one.
