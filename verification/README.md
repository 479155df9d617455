# TallyDB maintained views: a Dafny model

TallyDB keeps *maintained views*: a stored fold of a table that can be corrected
at any time, plus a stamp saying how much of the table's history the fold has
seen. A read recomputes the buckets touched since the stamp and takes the rest
from the store, and it is claimed to be exact however stale the store is. This
project models that engine and proves the claim, together with the two other
parts of the repository whose arguments are delicate: the sliding-window
statistics and the byte-level containers.

Run `dafny verify dfyconfig.toml` to check everything.

## The parts

**The view engine.** `Keys` is the truncating bucket arithmetic over saturating
64-bit keys, `Ranges` the range algebra built on it. `Log` is a table's knowledge
history: rows are born at a coordinate and killed at a later one, and the past at
a watermark is recoverable. `Tables` is the mutation half of a table over such a
log. `Joins` gives the as-of and equi joins their meaning and holds the interval
lemma for corrected reference rows. `Engine` says what a view promises: every
bucket it still claims equals the definition over the pair of pasts it is stamped
at. `Refresh` is the refresh as a function of state, and what a crash part-way
leaves; `Runs` puts appends, deletes, corrections, syncs, refreshes and crashes
into one state machine and proves reads exact over all its runs but those through
one window, where it says exactly when they are. `Views` is the view object itself,
each method proved against those functions.

`Aggregates`, `Partials`, `Running`, `Sizing` and `Cumulative` carry the views that
store partial aggregates: what an aggregate is, how it comes apart into partials
and back together, running totals per group, the choice of the hidden bucket
width, and expanding windows split at one hidden bucket. `Predicates` is the
three-valued filter logic the plans use.

**The statistics.** `Solve` is the in-place symmetric solve, `Fitting` what a least
squares fit over a window is, `Moments` the sliding multi-factor carrier, `Sweep`
the one- and two-column statistics. Values are exact reals; a square root is a
function with `sqrt(d) * sqrt(d) == d`, "not finite" is a flag on a row, and the NaN
of a division 0/0 is an answer of its own.

**The byte layer.** `Buffers` is the copy-on-write buffer over counted allocations,
`Bitmaps` the packed bitmap in the layout of the Apache Arrow Columnar Format,
section "Validity bitmaps", and `Records` the view definition record.

## What the code does not promise

Five results say where a stated law stops holding.

- A refresh of an as-of view that *lowers* its ceiling removes the rows of the
  band at once, but the record that carries the lower ceiling is renamed into
  place later and never synced (src/view.rs:1041-1045, 1061-1074). From the row
  flush until that record, or a later one, is durable, a power loss brings an older
  record back over the newer rows, also after the refresh has returned and after
  more refreshes that touched nothing. Reads are then exact if and only if no row is
  *stranded*: stored under the old record, in a bucket the old record finds clean,
  at or above the ceiling that was lost. This holds for a record from any point
  before, whatever refreshes, dips of the ceiling and source changes lie in between
  (`Runs.LostRecordRead`), and for a crash inside the refresh
  (`Runs.InterruptedRead`). The next refresh repairs it if and only if every
  stranded row lies at or above the ceiling it sets (`Runs.LostRecordHeals`); a
  stranded row below it stays missing, under fresh stamps, until a change names its
  key or the ceiling drops below it again. `Runs.LoweredCeilingLosesARow` and
  `Runs.LossOutlivesARefresh` are such a run. Every other crash is survived: one
  inside a refresh that strands nothing (`Refresh.SpoiledKeepsInv`), and any older
  record that claims no row at or above the current ceiling, so every one whose own
  ceiling is no higher, even if the ceiling dipped and recovered in between
  (`Refresh.OlderRecordHolds`, `Runs.RisingCeilingsShelter`).
- If the record of a freshly chosen hidden width is lost while rows folded under
  that width survive, the next refresh chooses a width again and overlooks every
  such row whose label no change names under the new width. Reads after it are exact
  if and only if there is no such row (`Sizing.ResizedReads`);
  `Sizing.LostWidthKeepsAStray` is a run in which one stays. Publishing a segment
  syncs the directory the record was renamed into
  (src/storage_lite/io.rs:241-243), so the rows must come from the view table's own
  log, which is on by default (src/storage_lite/store.rs:1044-1048).
- `ROWS BETWEEN 18446744073709551615 PRECEDING` is accepted, and the one- and
  two-column sweeps add one to it without saturating: a build without overflow
  checks sweeps windows of length 0 (one with them panics). Every row then answers
  NaN or NULL from no rows at all. The sweep refines the per-frame evaluation on all
  columns if and only if the bound is not that one (`Sweep.SweepRefinesIff`).
- A definition record round-trips if and only if each string is shorter than
  2^32 bytes, because lengths are cast to 32 bits (`Records.RoundTrip`).
- A bucket's closed key range is exactly the keys that truncate to its index if
  and only if the index is attainable at all; saturation makes the ranges of
  unattainable indices catch strangers (`Keys.RangeIsBucketIffAttainable`).

The comment at src/view.rs:502 says a DELETE that matches nothing spends a
coordinate; `Store::tombstone` (src/storage_lite/store.rs:2145) returns before
spending one. The model follows the code.

## Model

| member | source | states |
|---|---|---|
| Keys.BucketOf | src/view.rs:3147-3158 | division truncates toward zero on both signs |
| Keys.BucketOfMonotone | src/view.rs:3147-3158 | truncating division never reorders keys, across the sign change too |
| Keys.LowEdge | src/view.rs:3153-3158 | a key is at or above an attainable bucket's low edge exactly when its bucket index is |
| Keys.HighEdge | src/view.rs:3163-3168 | the mirror statement for the high edge |
| Keys.RangeIsBucketIffAttainable | src/view.rs:3147-3168 | the closed range between the edges is exactly the keys of the bucket, if and only if some 64-bit key has that bucket |
| Keys.AttainableBetween | src/view.rs:3147-3168 | every index between two attainable ones is attainable |
| Keys.Clamp | src/view.rs:3153-3168 | saturating arithmetic ends at the two 64-bit ends and nowhere else |
| Ranges.MergeInto | src/view.rs:1969-1975 | one range merged into a normal list keeps it normal and adds exactly that range's keys |
| Ranges.MergeKeyRanges | src/view.rs:1966-1978 | sorting and merging non-empty ranges keeps the union and leaves sorted ranges with gaps between them |
| Ranges.NormalFormUnique | src/view.rs:1966-1978 | two merged lists with the same keys are the same list |
| Ranges.ContiguousRuns | src/view.rs:3174-3183 | increasing bucket indices collapse to maximal runs covering exactly them, with total length their number |
| Ranges.KeyRangesToBucketRuns | src/view.rs:1950-1960 | the runs cover exactly the buckets that own a covered key, and end on attainable indices |
| Ranges.SourceHitIsBucketHit | src/view.rs:1337-1353 | the source-side key ranges of bucket runs select exactly the keys whose bucket the runs name |
| Ranges.ViewHitIsBucketHit | src/view.rs:1359-1369 | the view-side ranges, bucket labels multiplied by the scale, select exactly the stored rows of those buckets |
| Ranges.BucketTimesWidthFits | src/view.rs:1359-1369 | multiplying an attainable index by the width never saturates |
| Log.AsOfIsPast | src/view.rs:345-350 | the rows known at a watermark are the live rows of the log cut there |
| Log.PastIsFixed | src/storage_lite/store.rs:813-853 | a log that extends another shows the same rows and kills, hence the same `AS OF` answer, at every watermark the other had reached |
| Log.StepsExtend | src/storage_lite/store.rs:2030-2260 | append, delete and supersede only ever extend the history |
| Runs.MutationMeans | src/storage_lite/store.rs:2030-2260 | what a mutation does to the live rows: one younger row more, the victims fewer, or both for a replacement; and what it makes durable |
| Tables.ReplaceContents | src/table.rs:1087-1131 | whichever branch replaces rows, the table afterwards holds the unmatched rows plus the replacements |
| Tables.SupersedeIsOneEvent | src/table.rs:1217-1226 | no cut of the history sees half an update |
| Tables.AppendAllShape | src/table.rs:1116-1122 | rows appended one by one cost one coordinate each and disturb nothing |
| Tables.Table.ForEachMatch | src/table.rs:1004-1035 | exactly the live matching rows, in storage order |
| Tables.Table.Delete | src/table.rs:1144-1150 | kills the matching rows at one coordinate, and spends none when nothing matches |
| Tables.Table.Update | src/table.rs:1151-1228 | every matched row, once and in arrival order, is gone and its own correction stands in the contents in its place, numbered in that order, at one coordinate; nothing is spent when nothing matches |
| Tables.CorrectedContents | src/table.rs:1195-1226 | superseding matched rows by their corrected copies leaves the unmatched rows and, i-th after what had arrived, the i-th row's own correction |
| Tables.Table.ReplaceMatching | src/table.rs:1087-1131 | the refresh's write half: matched rows out, replacements in |
| Joins.Best | src/query_lite/exec.rs:563-655 | the match is a latest reference row at or before (or strictly before) the fact, newest birth on ties |
| Joins.BestUnique | src/database.rs:931-939 | the match is determined: two best candidates are one row |
| Joins.MatchIsMeant | src/query_lite/exec.rs:563-655 | stated on raw keys: no match exactly when no live row has the fact's symbol (within reach, for an as-of join); otherwise a row of that symbol within reach, none later, none equally late and born later |
| Joins.MeantIsUnique | src/query_lite/exec.rs:563-655 | that description names one row at most, unique keys given for an equi join |
| Joins.KeyUniqueIffNoChoice | src/query_lite/exec.rs:521-545 | the keys are unique exactly when every live keyed row is the match of every fact of its symbol |
| Joins.JoinRowsAreMeant | src/query_lite/exec.rs:439-450 | LEFT yields every fact with its meant match or none, INNER exactly the facts that have one |
| Joins.NextReferenceKey | src/view.rs:1879-1917 | the symbol's least current reference key after a given one, if any |
| Joins.IntervalIsReach | src/view.rs:1825-1871 | a key is in a reference row's interval exactly when no later row of the symbol comes between them (or meets the key, where a tie matches) |
| Joins.CorrectionInterval | src/view.rs:1825-1871 | however many reference rows were born or killed since a stamp, a fact outside all their intervals matches now what it matched then |
| Joins.CorrectedMonotone | src/view.rs:1825-1871 | a key once inside a correction interval of a stamp stays inside as history grows |
| Engine.AnswerIsLocal | src/view.rs:1337-1353 | a bucket's rows depend only on that bucket's joined facts |
| Engine.AnswerMeans | src/view.rs:1337-1353 | one row per inhabited bucket and tag, folding exactly the accepted rows of that group |
| Engine.CurrentIsMeant | src/view.rs:813-848 | the definition folds exactly the join described on raw keys, so every read equal to it does |
| Engine.RestrictedIsCurrent | src/view.rs:1337-1353 | re-folding runs of buckets gives exactly those buckets of the current answer |
| Engine.UntouchedIsFrozen | src/view.rs:1318-1331 | a bucket no touched key names has the same answer now as at the stamps |
| Engine.FreshView | src/view.rs:195-218 | a view that has stored nothing keeps the invariant over any history |
| Engine.InvMoves | src/view.rs:345-350 | the invariant survives any growth, sync or rewind of either source down to what was durable |
| Engine.UnionReadIsExact | src/view.rs:541-591 | stored clean buckets plus live touched buckets are the definition over current rows, and the halves share no row |
| Engine.CleanBucketIsCurrent | src/view.rs:541-591 | a stored bucket outside the dirty and open ones is current |
| Refresh.RefreshCompletes | src/view.rs:415-523 | after a refresh every bucket below the ceiling is stored as it is now, stamps at the watermarks, for all three shapes |
| Refresh.RefreshedCeiling | src/view.rs:654-660 | a key lies below an as-of view's new ceiling exactly when some live reference row lies in a later bucket; a star view's ceiling is parked at the top |
| Refresh.SettledBelowCeiling | src/view.rs:646-654 | below the ceiling no reference row arriving in order changes a match |
| Refresh.CompleteSingleIsCurrent | src/view.rs:415-523 | for a single source the store alone is then the whole answer |
| Refresh.CompleteIsInv | src/view.rs:415-523 | a completed refresh over durable sources re-establishes the invariant |
| Refresh.RefreshedTableIsSpoiled | src/view.rs:458-523 | a refresh touches only victim buckets |
| Refresh.TornRefreshIsSpoiled | src/view.rs:458-523 | a crash may undo any of a refresh's removals and any of its insertions: every such table is one the crash results cover |
| Refresh.SpoiledKeepsInv | src/view.rs:458-523 | a crash anywhere between the row write and the record of a refresh that strands nothing leaves the old record right over whatever rows it finds |
| Refresh.OlderRecordHolds | src/view.rs:1036-1074 | an older record over the newer rows is right, whatever came between, unless it claims a row at or above the newer ceiling |
| Refresh.CutReads | src/view.rs:541-591 | an old record over a table cut off at another ceiling reads exactly if and only if no stored row it finds clean lay at or above that ceiling |
| Refresh.RefreshMovesCut | src/view.rs:671-735 | seen from an old record, an as-of refresh moves the place its table is cut off to the ceiling it sets, whether that drops or rises |
| Refresh.CutHeals | src/view.rs:671-735 | a refresh of such a state is complete if and only if every stranded row lies at or above the ceiling it sets |
| Refresh.FreshReadsIffComplete | src/view.rs:813-848 | with stamps at the watermarks, an as-of read is exact if and only if every bucket below the ceiling is stored as it is now |
| Runs.StepKeepsInv | src/view.rs:415-523 | every mutation, sync, refresh and crash keeps the invariant, except the interruption of a refresh that strands rows and the return of a record that claims rows at or above the current ceiling |
| Runs.RisingCeilingsShelter | src/view.rs:1036-1074 | a returning record whose ceiling is no higher than the current one, and an interrupted refresh whose ceiling is no lower, are never among those exceptions |
| Runs.RunKeepsInv | src/view.rs:415-523 | so does every run without those two events |
| Runs.EveryReadIsExact | src/view.rs:541-591 | after every such run, from the empty state, the union read is exact and disjoint |
| Runs.RefreshCompletesEveryRun | src/view.rs:415-523 | a run that ends in a refresh has every bucket below the ceiling stored as it is now |
| Runs.OnlyAsOfNeedsShelter | src/view.rs:746-801 | single-source and star views need no assumption about crashes or lost records |
| Runs.StampsNeverLead | src/view.rs:1046-1054 | no run leaves a stamp above its source's watermark |
| Runs.CrashForgets | src/storage_lite/store.rs:1835-1900 | a crash keeps every answer up to the coordinate it kept, forgets all later ones, and leaves the view as it was |
| Runs.InterruptionMeans | src/view.rs:706-734 | a refresh flushes both sources and changes neither; power lost after the row flush leaves the old record over any torn table |
| Runs.LossUndoesTheRecord | src/view.rs:1061-1074 | losing the record a refresh just wrote gives the record before it, over the new rows, with every older one still to lose |
| Runs.LostRecordRead | src/view.rs:1036-1074 | an as-of record from any point of a run comes back after any refreshes and source changes, and the sources move on: reads are exact if and only if no row stored under it, in a bucket it finds clean, lay at or above the ceiling the loss forgets |
| Runs.LostRecordHeals | src/view.rs:671-735 | and reads after one more refresh are exact if and only if every such row lies at or above the ceiling that refresh sets |
| Runs.InterruptedRead | src/view.rs:706-734 | a crash after the row flush and before the record leaves exact reads, whatever the sources do next, if and only if the refresh stranded nothing |
| Runs.LoweredCeilingLosesARow | src/view.rs:706-734 | for every blotter, a concrete run after which every read misses a stored trade |
| Runs.LossOutlivesARefresh | src/view.rs:671-735 | in that run one more quote and a whole refresh later, stamps fresh, the trade is still missing |
| Views.MaterializedView.TouchedRuns | src/view.rs:1318-1331 | the touched buckets since the stamp, as maximal runs, and how many they are |
| Views.MaterializedView.JoinedTouchedRanges | src/view.rs:1825-1871 | a changed star dimension asks for a rebuild; otherwise the ranges are exactly the dirty keys |
| Views.MaterializedView.QueryUnion | src/view.rs:541-591 | the single-source read returns the definition over current rows |
| Views.MaterializedView.QueryJoined | src/view.rs:813-848 | so does the join read, unless an equi join's keys are not unique, which is an error |
| Views.MaterializedView.RefreshSingle | src/view.rs:415-523 | the refresh reaches the refreshed state and reports how many buckets it folded; the invariant is kept |
| Views.MaterializedView.FoldTouched | src/view.rs:478-523 | the incremental branch of that refresh |
| Views.MaterializedView.RefreshJoined | src/view.rs:610-736 | both join shapes: flush, refuse duplicate keys, reach the refreshed state, keep the invariant |
| Views.MaterializedView.RefreshAsOf | src/view.rs:610-736 | empty reference, rebuild floor and incremental fold, with the count each reports |
| Views.MaterializedView.FoldBelow | src/view.rs:671-735 | folds dirty keys below the new ceiling plus newly stable ones, and drops the stranded band |
| Views.MaterializedView.RefreshStar | src/view.rs:746-801 | any dimension change rebuilds everything, fact changes re-fold their buckets |
| Views.MaterializedView.ClipBelow | src/view.rs:686-691 | the ranges' keys strictly below the ceiling, no empty range |
| Views.FoldedBucketCount | src/view.rs:1766-1785 | the number of folded buckets inside the facts' own span, capped at 64 bits |
| Views.SpanCounts | src/view.rs:1766-1785 | that number is of the named buckets with a fact at or below and a fact at or above, and saturates at 2^64 - 1 |
| Aggregates.TotalUnion | src/query_lite/exec.rs:2560-2790 | a sum over two disjoint groups is the sum of the sums |
| Aggregates.PickIsAny | src/query_lite/exec.rs:2560-2790 | MIN, MAX, FIRST and LAST are determined by any extreme row |
| Aggregates.EvalOfNothing | src/query_lite/exec.rs:2560-2790 | over no rows COUNT is 0 and every other aggregate NULL |
| Aggregates.CountGains | src/query_lite/exec.rs:2560-2790 | one row more counts once, unless its argument is NULL |
| Aggregates.SumGains | src/query_lite/exec.rs:2560-2790 | one row more adds its value; a NULL changes nothing |
| Aggregates.AvgIsMean | src/query_lite/exec.rs:2560-2790 | AVG is NULL together with SUM and otherwise SUM over COUNT of the column |
| Aggregates.MinGains | src/query_lite/exec.rs:2560-2790 | one row more replaces the MIN exactly when it is smaller or the first value |
| Aggregates.MaxGains | src/query_lite/exec.rs:2560-2790 | the mirror statement for MAX |
| Aggregates.LaterRowIsLast | src/query_lite/exec.rs:2735-2779 | a row later than every other, by clock and then storage, makes its value LAST and leaves FIRST alone |
| Aggregates.EarlierRowIsFirst | src/query_lite/exec.rs:2735-2779 | a row earlier than every other makes its value FIRST and leaves LAST alone |
| Partials.Decompose | src/partials.rs:86-135 | AVG stores two partials, every other aggregate one, each combined from its own column |
| Partials.SumOfSums | src/partials.rs:86-135 | summing bucket sums is summing rows, NULL when nothing is seen |
| Partials.SumOfCounts | src/partials.rs:86-135 | summing bucket counts is counting rows |
| Partials.PickOfPicks | src/partials.rs:86-135 | the extreme of bucket extremes is the extreme row's value; for FIRST and LAST because buckets are monotone in the key |
| Partials.AvgExact | src/view.rs:2033-2115 | AVG divided once after the combine is the average over rows |
| Partials.ItemIsExact | src/view.rs:2033-2115 | finalizing one item's combined partials is the aggregate over the group's rows, for all seven aggregates |
| Partials.ListIsExact | src/view.rs:1377-1515 | the whole SELECT list: every item finds its own columns and is exact |
| Running.StoredIsPartial | src/view.rs:1377-1515 | a materialized running view holds one partial row per group and hidden bucket |
| Running.GroupIsExact | src/view.rs:862-898 | combining one group's partials and finalizing is its aggregates over all rows |
| Running.ReadIsAnswers | src/view.rs:862-898 | the running read is the definition's answer over current rows, group for group |
| Running.AnswersGain | src/view.rs:862-898 | one source row more joins the group of its keys, and no other group's answer changes |
| Running.PlacesAreAnswered | src/view.rs:862-898 | in a group's answer LAST is the value of its latest row and FIRST that of its earliest |
| Sizing.WidthFor | src/view.rs:473-478 | the least width whose target count of buckets spans the keys |
| Sizing.WidthMeetsTarget | src/view.rs:473-478 | the first and last buckets of the span are at most the target count apart |
| Sizing.ChosenWidthFits | src/view.rs:463-478 | the width chosen is the one for the earliest and latest live rows |
| Sizing.WidthSteps | src/view.rs:473-478 | 1024 keys still get width 1, one more gets 2 |
| Sizing.EmptyRefreshStamps | src/view.rs:463-472 | a refresh that sees no row moves the stamp and nothing else |
| Sizing.SizedRunKeeps | src/view.rs:458-523 | choosing the width at the first refresh that sees rows keeps the invariant over every run, lost width records included, unless a refresh that chooses a width finds a row it would overlook |
| Sizing.PartialsUnionIsComplete | src/view.rs:992-1010 | stored plus live partials are the partials of all current rows, after every such run |
| Sizing.EveryRunningReadIsExact | src/view.rs:862-898 | after every such run the running read is exact |
| Sizing.PlacesAreRead | src/view.rs:862-898 | after every such run the read's LAST and FIRST cells are the latest and earliest live row's values |
| Sizing.WidthIsChosenOnce | src/view.rs:460-480 | over all runs, once chosen only the loss of its record changes the width, back to unchosen, under a stamp nothing was live at |
| Sizing.ResizedReads | src/view.rs:460-523 | the refresh that chooses a width over surviving rows leaves exact reads if and only if a change names the label of each |
| Sizing.LostWidthKeepsAStray | src/view.rs:460-523 | a concrete run after which every read holds a partial row of no current bucket |
| Predicates.LowerBoundIsSound | src/view.rs:2158-2184 | for every And/Or/Not tree, a reported bound is at or below the key of every row the predicate accepts |
| Predicates.BoundIsBest | src/view.rs:2158-2184 | AND promises whatever either side promises, OR only what both do |
| Predicates.LiteralBounds | src/view.rs:2158-2184 | which comparisons promise a bound: the literal itself, a fraction rounded down |
| Predicates.LogicLaws | src/query_lite/predicate.rs:464-502 | what the three-valued connectives accept, De Morgan's laws, and that UNKNOWN is neither accepted nor rejected |
| Predicates.ComparisonLaws | src/query_lite/predicate.rs:605-625 | a comparison is UNKNOWN exactly on NULL; otherwise the six operators are those of the number line |
| Predicates.RangesPredicateIsCover | src/view.rs:3187-3206 | the OR-chain accepts exactly the rows whose key the ranges cover |
| Predicates.RestrictedPlanSelects | src/view.rs:1337-1353 | the restricted plan selects exactly the definition's own rows in the named buckets |
| Predicates.CleanPlanSelects | src/view.rs:1359-1369 | the negated view-side predicate selects exactly the rows of the other buckets |
| Cumulative.WindowSplits | src/view.rs:912-987 | an expanding window is the rows below the hidden bucket plus its own rows from the bucket's low edge, disjointly |
| Cumulative.FrameIs | src/query_lite/plan.rs:207-212 | a row's full windows are the aggregates over its partition's accepted rows up to it, by clock and then arrival, itself included |
| Cumulative.LaterRowsDoNotCount | src/query_lite/plan.rs:207-212 | a row later than another never changes that one's windows |
| Cumulative.FirstRowStandsAlone | src/view.rs:912-987 | a partition's first row answers over itself alone |
| Cumulative.NextRowAddsItself | src/view.rs:912-987 | the next row's windows are the previous row's frame and itself |
| Cumulative.CountNumbersRows | src/view.rs:912-987 | COUNT(*) numbers a partition's rows 1, 2, 3, … in that order |
| Cumulative.EvalSplits | src/view.rs:2369-2460 | SUM, COUNT, MIN and MAX over two disjoint halves fold to the whole, NULLs included |
| Cumulative.PartialsBelow | src/view.rs:2215-2252 | the stored partials below a bucket are the partials of the rows below it |
| Cumulative.ItemAdjusts | src/view.rs:2257-2365 | one adjusted cell is the full expanding aggregate |
| Cumulative.PartitionIsExact | src/view.rs:2215-2365 | one partition: boundary and assembled windows fold to the full expanding windows, for every item |
| Cumulative.AdjustColumn | src/view.rs:2257-2365 | the column loop adjusts every row by its own partition's boundary |
| Cumulative.BatchRowIsAdjusted | src/view.rs:2257-2365 | read across the columns, a batch's rows are its adjusted rows |
| Cumulative.AdjustBatches | src/view.rs:2257-2365 | the batch loop, empty batches skipped, puts out exactly the adjusted rows of all batches in order |
| Cumulative.BoundaryRows | src/view.rs:2210-2250 | the boundary map holds each partition's combined row and nothing else |
| Cumulative.LookupIsBoundary | src/view.rs:2210-2250 | what the map gives a partition, absent or all NULL included, is its boundary cell for cell |
| Cumulative.EveryCumulativeReadIsExact | src/view.rs:912-987 | after every run that overlooks no row when it chooses a width, for every row at or above the floor, the boundary and the assembled windows adjust to the full expanding window |
| Cumulative.QueryCumulative | src/view.rs:912-987 | the composed read: from the query's own bound, the combine's rows and the assembly's batches, through map and batch loop, every output row is its full expanding windows, and what the query's predicate keeps is exactly the definition's answer |
| Cumulative.AssemblyCoversTheQuery | src/view.rs:912-987 | every row the query's filter accepts is assembled |
| Solve.FactorUnique | src/multifactor.rs:92-122 | a factor with positive diagonal is unique, column by column |
| Solve.NoFactorPast | src/multifactor.rs:105-112 | a column whose pivot misses the floor admits no usable factor at all |
| Solve.FloorOnTwo | src/multifactor.rs:105-112 | two unit factors with correlation c are usable exactly when 1 - c² exceeds the floor of 10⁻¹² |
| Solve.Factorize | src/multifactor.rs:98-122 | in place; true exactly when a usable factor exists, and then the lower triangle is it, upper triangle untouched |
| Solve.SubstitutionsSolve | src/multifactor.rs:123-143 | forward then back substitution solves the symmetric system |
| Solve.Forward | src/multifactor.rs:123-130 | overwrites the right-hand side with the forward solution |
| Solve.Backward | src/multifactor.rs:131-140 | overwrites it with the backward solution |
| Solve.SolveSpd | src/multifactor.rs:92-146 | true exactly when the matrix is usably positive definite, and then the right-hand side holds the solution |
| Solve.SolutionUnique | src/multifactor.rs:82-91 | a usable system has one solution |
| Solve.LowerTriangleDecides | src/multifactor.rs:85-86 | matrices agreeing on the lower triangle are usable together and have the same solutions |
| Fitting.CenteringForgetsAnchors | src/multifactor.rs:256-288 | whatever the anchors, centering the moments gives the same spread and the same mean |
| Fitting.CenteredIsLeastSquares | src/multifactor.rs:262-300 | the centered system with the intercept through the means holds if and only if the raw normal equations do |
| Fitting.LeastSquaresIsBest | src/multifactor.rs:253-318 | no other coefficients have a smaller squared error on the window |
| Fitting.SseIsMisses | src/multifactor.rs:253-318 | the squared error is, row by row, the response less intercept and slopes times factors, squared |
| Fitting.LineIsRecovered | src/multifactor.rs:253-318 | data on a line is fitted by that line and by no other |
| Fitting.FitIsUnique | src/multifactor.rs:253-318 | an identified window has one best fit, so no anchor can matter |
| Fitting.ExplainedIsRest | src/multifactor.rs:266-271 | the sum the code calls explained is the total less the squared error |
| Fitting.SseWithinTotal | src/multifactor.rs:266-271 | the fit never does worse than the mean alone |
| Fitting.RSquaredIsShare | src/multifactor.rs:311-316 | R² is one less the unexplained share and lies between 0 and 1 |
| Moments.AddHolds | src/multifactor.rs:229-251 | folding the next row in turns the window's moments into the longer window's |
| Moments.RemoveHolds | src/multifactor.rs:229-251 | folding the first row out turns them into the shorter window's |
| Moments.ReportsOneAnswer | src/multifactor.rs:48-52 | a window has one answer, NULL or value, however it was reached |
| Moments.ReportMeans | src/multifactor.rs:518-524 | a coefficient output is the best fit's coefficient; R² is NULL on a flat response and else one less the squared misses' share of its spread |
| Moments.LineIsReported | src/multifactor.rs:518-524 | data on a line answers that line's coefficients and an R² of 1 |
| Moments.FrameReach | src/multifactor.rs:473-475 | a frame ends at its row and reaches the given number of rows back, or to the first |
| Moments.SchedulesAgree | src/multifactor.rs:449-526 | any two schedules over a column answer alike |
| Moments.FactorMoments.Accumulate | src/multifactor.rs:234-252 | every field moves by the row's signed deviation products and nothing else does |
| Moments.FactorMoments.Refold | src/multifactor.rs:199-221 | anchors on the last row and holds exactly the window's moments; untainted if and only if every row is finite |
| Moments.FactorMoments.Slide | src/multifactor.rs:508-514 | one row in and the departed rows out holds the next frame's moments |
| Moments.FactorMoments.FitWindow | src/multifactor.rs:272-318 | NULL exactly when the window is not identified; otherwise the coefficients satisfy the normal equations of the raw window and R² is their share |
| Moments.MultiFactorRegression.Evaluate | src/multifactor.rs:419-432 | one frame on its own reports that frame's answer |
| Moments.MultiFactorRegression.EvaluateFrames | src/multifactor.rs:449-526 | every clean row gets its own frame's answer, recomputed exactly where a non-finite row is in the frame, at most a window's length of slides after a rebuild |
| Moments.ChainIsScheduled | src/multifactor.rs:508-514 | a slide count that restarts at each rebuild bounds the slides since one |
| Sweep.ShiftedMoments.Add | src/table.rs:1861-1869 | the frame grown at the end is held about the same shift |
| Sweep.ShiftedMoments.Remove | src/table.rs:1871-1879 | the frame shrunk at the front is held about the same shift |
| Sweep.ShiftedMoments.Read | src/table.rs:1882-1900 | the population moments are the frame's own, whatever the shift |
| Sweep.Unshifted | src/table.rs:1882-1889 | anchored moments divided and centered give the two-pass moment, for every shift |
| Sweep.ShiftedSweep | src/table.rs:1925-1966 | every clean row reports its frame's population, every other row the recompute, at most a window's length of slides after a rebuild |
| Sweep.CorrectedSums | src/table.rs:1753-1773 | the corrected two-pass sums are the spreads about the means |
| Sweep.CorrectionIsZero | src/table.rs:1756-1761 | the correction term is zero in exact arithmetic |
| Sweep.EvaluatePair | src/table.rs:1746-1775 | the per-frame pair statistic equals the sweep's finalization of the same frame; NULL on no rows |
| Sweep.EvaluateRegression | src/table.rs:1513-1567 | so does the per-frame regression, though it works from sums |
| Sweep.EvaluateFrames | src/table.rs:1777-1803 | for every statistic and every 64-bit frame bound: each clean row gets its own frame's answer, the others the recompute; at the greatest bound every row gets the answer of no rows |
| Sweep.AnswerIsFrames | src/table.rs:1777-1803 | the answer it gives a row is the statistic of the rows at most the bound back, a value or NULL as the statistic has one or not |
| Sweep.SweepRefinesIff | src/table.rs:1569-1592 | the sweep refines the per-frame evaluation on every column if and only if the bound is not the greatest one |
| Sweep.LongestFrameMisses | src/table.rs:1777-1803 | at the greatest bound, over the rows 0 and 1, every statistic has a value and the sweep reports none |
| Sweep.SumsAgree | src/table.rs:1535-1631 | finalizing sums or per-row shares gives the same NULLs and the same values |
| Sweep.DispersionMeans | src/table.rs:1700-1718 | variance, deviation and covariance are the spreads' shares and their root; the clamp never acts |
| Sweep.StatisticsDefined | src/table.rs:1610-1631 | a regression output is NULL exactly on fewer than two rows or a flat side, the eigenvalue exactly on fewer than two rows |
| Sweep.NoRowsIsNull | src/table.rs:1610-1631 | no rows answer NULL exactly for the statistics that are NULL below two rows; the others divide 0 by 0 |
| Sweep.ClosedFormIsLeastSquares | src/table.rs:1558-1566 | slope and intercept satisfy the raw normal equations of the frame |
| Sweep.ClosedFormRSquared | src/table.rs:1551-1557 | R² is one less the unexplained share; its clamp never acts |
| Sweep.CorrDefined | src/table.rs:1813-1817 | a correlation is NULL exactly when one side is flat |
| Sweep.CorrIsBounded | src/table.rs:1813-1818 | a correlation lies between -1 and 1, squares to the share of the spreads and has the sign of the cross spread |
| Sweep.EigenIsLargest | src/table.rs:1819-1837 | the reported value is an eigenvalue and no direction has more variance |
| Buffers.Buffer.MakeMut | src/arrow_lite/buffer.rs:186-205 | sole ownership and room; moves exactly when shared or full, to the stated capacity, leaving one owner fewer behind |
| Buffers.Buffer.Push | src/arrow_lite/buffer.rs:208-214 | appends; writes only a solely owned allocation; copying stays paid for on a never-shared handle |
| Buffers.Buffer.Extend | src/arrow_lite/buffer.rs:217-221 | the same for a run of elements |
| Buffers.Buffer.SetAt | src/arrow_lite/buffer.rs:243-248 | the same for an in-place write |
| Buffers.Grow | src/arrow_lite/buffer.rs:186-221 | any sequence of pushes and extends on a handle never shared appends them all, copies at most twice the final length and holds room for at most twice it (or eight) |
| Buffers.FromIter | src/arrow_lite/buffer.rs:316-324 | collecting copies at most twice the final length |
| Buffers.FromSlice | src/arrow_lite/buffer.rs:177-181 | building from a slice never reallocates |
| Buffers.Pool.Push | src/arrow_lite/buffer.rs:208-214 | with any number of handles, only the pushed one changes, and owner counts stay the handle counts |
| Buffers.Pool.Clone | src/arrow_lite/buffer.rs:286-295 | a clone shares its allocation, copies nothing and reads the same |
| Buffers.Pool.Drop | src/arrow_lite/buffer.rs:286-295 | a handle gone leaves the others as they were and one owner fewer |
| Buffers.Pool.Replay | src/arrow_lite/buffer.rs:186-295 | any interleaving of operations acts like the same operations on independent sequences |
| Bitmaps.CanonicalIsUnique | src/arrow_lite/bitmap.rs:19-25 | with zero padding, equal bytes are equal bits |
| Bitmaps.MaskTailIsCanonical | src/arrow_lite/bitmap.rs:52-67 | masking the tail clears the padding and no payload bit |
| Bitmaps.ZipIsPointwise | src/arrow_lite/bitmap.rs:212-229 | a byte operation that acts bit by bit and keeps zero padding is that operation on the bits |
| Bitmaps.NotIsPointwise | src/arrow_lite/bitmap.rs:173-184 | complementing bytes and masking the tail negates the bits |
| Bitmaps.Bitmap.NewSet | src/arrow_lite/bitmap.rs:61-67 | all bits set, padding zero |
| Bitmaps.FromBools | src/arrow_lite/bitmap.rs:86-101 | the bitmap of a sequence of bools reads back as it |
| Bitmaps.PushBit | src/arrow_lite/bitmap.rs:91-99 | one more bit, padding still zero |
| Bitmaps.Bitmap.Set | src/arrow_lite/bitmap.rs:126-134 | one bit written in place, every other as it was, padding still zero |
| Bitmaps.Bitmap.CountSet | src/arrow_lite/bitmap.rs:140-143 | the byte-wise count is the number of true bits |
| Bitmaps.Bitmap.IterSet | src/arrow_lite/bitmap.rs:190-200 | yields the set indices, whole zero bytes skipped |
| Bitmaps.SetBelowIsExact | src/arrow_lite/bitmap.rs:186-200 | those are exactly the set indices, strictly increasing |
| Bitmaps.Bitmap.And | src/arrow_lite/bitmap.rs:153-155 | conjunction bit by bit |
| Bitmaps.Bitmap.Or | src/arrow_lite/bitmap.rs:161-163 | disjunction bit by bit |
| Bitmaps.Bitmap.Not | src/arrow_lite/bitmap.rs:173-184 | negation bit by bit |
| Records.RoundTrip | src/view.rs:3232-3340 | decoding an encoded definition gives it back if and only if every string's length fits its prefix |
| Records.LegacyReadsBack | src/view.rs:3222-3228 | a version 1 record decodes with width 0 |
| Records.DecodesExactly | src/view.rs:3261-3340 | bytes of a current version decode to a definition if and only if the checksum matches, the payload starts with that definition's encoding and its strings fit |
| Records.HeaderLayout | src/view.rs:3232-3256 | magic, version 2 or 3 by whether there is a second source, then stamp and width, least significant byte first |
| Records.PrefixIsLength | src/view.rs:3244-3247 | a string is written as its length's low 32 bits and then its bytes, whole |
| Records.DecodedIsPrefix | src/view.rs:3261-3340 | a record that decodes starts with the encoding of what it decoded to, and its fields hold values of their types |
| Records.DecodedLengthsFit | src/view.rs:3289-3302 | no decoded string is longer than its prefix could say |
| Records.ReadText | src/view.rs:3289-3302 | a string read never passes the end of the payload, on any bytes whatever |
| Records.FromLeOfLe | src/view.rs:3240-3256 | little-endian bytes read back as the number |
| Records.LeOfFromLe | src/view.rs:3261-3290 | and the bytes of a read number are the bytes read |

## Left out

- SQL parsing, planning and the executor: a query is its mathematical meaning; eligibility refusals are taken as preconditions (width at least 1, the bucket selected, a matching multiplier).
- Segments, the write-ahead log and compaction internals: a log knows which of its coordinates are durable, and a crash keeps at least those; rows are stored in arrival order.
- Rounding, infinities and NaN arithmetic: values are exact reals. In the sweeps "not finite" is a flag per row and the arithmetic of a frame holding such a row is a function the sweep is given.
- Materialized rows are sets tagged by group or fact row; the two halves of a read are proved disjoint, so counts of equal rows follow.
- A running or cumulative view's key columns ride as tags on its partial rows; only aggregate columns are laid out by index.
- Running and cumulative reads with `AS OF`, before a width is chosen, or without a lower bound run the definition itself over the source; there is nothing to prove about them.
- NULL window arguments are refused by the executor; the cumulative model skips them as the aggregates do.
- A record file torn by power loss fails its checksum and the view does not open; runs contain only crashes that leave a whole record.
- Partials.Decompose: its contract fixes the lengths and columns only; that the chosen partial and combining functions are the right ones is Partials.ItemIsExact.
- Unbounded window frames: both sweeps hand them to the shared recompute, which is not part of this model.
- `solve_spd` takes a flat row-major slice; here the matrix is a two-dimensional array and the fitted coefficients leave the solve's own array in one copy, so slice splitting is not modelled.
- Solve.SolveSpd: does not model the final finiteness tests, because exact reals have no infinities.
- Buffers.Buffer.MakeMut: does not model alignment, raw pointers or overflow of the byte size; an allocation is its cells and an owner count, and a dropped allocation is one with no owners.
- CRC-32C and UTF-8 validity are functions the record codec is given.
- The shell, scripts, driver, harness, corpus generator, database name routing and foreign-function glue: no state of their own worth a model.
