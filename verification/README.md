# Verified model of the pleat ribbon filters

`pleat` builds ribbon filters: each 64-bit key is hashed to one banded linear equation over GF(2),
the equations are eliminated on the fly, the band is back-substituted into an interleaved bit
layout, and a query takes masked word parities of that layout. There are two families, homogeneous
(64-bit rows, no right-hand side) and standard (128-bit rows, hashed 32-bit right-hand side, retry
over 64 ordinal seeds), three ways to build each (arrival order, pleated, slot-range parallel), and
a checksummed serialization.

The project models these five parts in Dafny and proves the crate's central claim, that all
builders return the same filter bit for bit, together with the absence of false negatives and both
directions of the codec. `dafny verify dfyconfig.toml` checks everything.

## How the model is laid out

- `Words.dfy`, `Arith.dfy`: machine words of any width as bit sequences, least significant bit
  first, with the wrapping operations the crate uses; facts about quotients.
- `Band.dfy`: the banded system. A slot holds a 32-bit value, one bit for each possible result
  column, so one equation stands for the 32 columns that the `u32` result rows carry. `Iterate` is
  one turn of the reduction loop, `Reduce` runs it, `BackSolve` solves slot by slot. Everything is
  generic in the row width and in the base of a slice.
- `Solutions.dfy`: solution sets. A slot is *free* when two solutions agree above it and differ in
  it; the *canonical* solution of a set of equations is the one that holds the prescribed fill in
  every free slot. Neither notion mentions elimination, order or multiplicity.
- `Runs.dfy`, `Encoding.dfy`: feeding lists of equations to a matrix or slice; the segments of a
  set of equations; the least successful attempt.
- `Columns.dfy`: solvability column by column; what two, three and four equations do to a matrix.
- `Numbers.dfy`, `Values.dfy`: words as numbers; hashes, rows and seeds as numbers with their
  constants written out, and the first reference vectors.
- `Interleave.dfy`: the layout, the rolling back-substitution, the two-block query.
- `Hash.dfy`: finalizer, range reduction, coefficient and result rows, seed mixing.
- `Banding.dfy` (module `Homogeneous`), `Banding128.dfy` (module `Standard`): the mutable banding
  matrices as classes over arrays, and the queries. Each module defines the *filter of a set of
  keys* from the canonical solution.
- `Pleat.dfy`, `Ranges.dfy`, `Slices.dfy`, `Workers.dfy`: the counting partition; range bounds and
  routing; cutting the matrix into slices; the threads as a state machine under any scheduler.
- `Builders.dfy`, `Parallel.dfy`, `ParallelStd.dfy`: the builders. Each is proved to return the
  filter of its *set* of keys, so any two of them agree for the same slot
  count, whatever the order or repetition (the code takes the count from the length of the list).
- `EmptyFilter.dfy`: the homogeneous filter of no keys, which is all fill.
- `SmallKeySets.dfy`, `Clashes.dfy`: what two and three keys can do; seeds refused for one column.
- `Format.dfy`, `Codec.dfy`, `FormatValues.dfy`: envelope, checks, checksum; both families' codecs;
  the byte layout and the decoder's errors as numbers.

Loops that follow a hash computation are split off as `Insert`, `Probe` and `InsertInSlice`; the
arrival and pleated seed searches of the standard family share one method with an optional window
shift. The methods of the parallel builders write the threads' passes one after the other.
`Parallel.AnyScheduleIsFilter` and `ParallelStd.AnySchedulesAreFilter` state the same result for
every interleaving of the threads' steps.

## Findings about the code

- The standard family asks for consistency in all 32 result columns although a query reads only
  the low `R` (`src/banding128.rs:69-71`). An attempt is refused although every column below `R`
  could be solved exactly when some column from `R` on cannot (`Standard.RefusedForUnusedColumns`).
  A refusal takes at least four keys: no two ever refuse each other, because different keys have
  different rows (`SmallKeySets.TwoKeysAccepted`), and no three do, because no sum of two rows is a
  row (`SmallKeySets.ThreeKeysAccepted`). `Columns.ThreeRefuse` and `Columns.FourByColumn` give
  the exact conditions for three equations and for two and two at neighbouring starts.
  `Clashes.FourKeysRefused` names four keys for every seed, in 256 slots (the least slot count there
  is), whose system is solvable in all columns but number 24: their hashes times the coefficient
  factor are 2^2+2^1, 2^32+2^1, 2^39+2^1 and 2^39+2^31. `Clashes.NoFilterExists` joins four such
  keys for each of the 64 seeds to a list of 256 keys that has no filter in the 384 slots that a
  list of this length gets, for every `R`; here the column is number 10.
- "Invariant to insertion order" (`src/filter.rs:4-6`) holds of the occupied slots and of the
  solution (`Runs.OrderIndependence`), not of the stored rows: two keys leave different rows in
  their two orders exactly when they share their start and differ in their row
  (`SmallKeySets.HomogRowsDependOnOrder`, `SmallKeySets.StdRowsDependOnOrder`). Such keys are named
  for every seed and slot count (`SmallKeySets.OrderMatters`, `SmallKeySets.StdOrderMatters`).

## Model

| member | source | states |
|---|---|---|
| Words.Ctz | src/banding.rs:75 | the shift count lands on the lowest set bit and everything below it is zero |
| Words.ParityXor | src/banding128.rs:236-237 | parity is additive over exclusive or, which justifies folding halves |
| Words.XorShiftInvolution | src/hash.rs:19 | a right xor-shift by at least half the width undoes itself |
| Words.MulInverse | src/hash.rs:20 | wrapping multiplication by an odd constant is undone by its inverse |
| Band.DotShift | src/banding.rs:75-77 | shifting out trailing zeros while advancing the slot keeps the equation |
| Band.Iterate | src/banding.rs:64-78 | a turn that continues has strictly advanced inside the matrix and left a row with its low bit set |
| Band.IterateSound | src/banding128.rs:60-75 | on solutions of the stored rows, one turn keeps the meaning of the row in hand, and a row reduced to zero has decided it |
| Band.IterateFits | src/banding.rs:64-78 | the support of the row in hand never leaves the slots it started within |
| Band.ReduceSound | src/banding128.rs:55-76 | the same for the whole loop, for matrices and slices alike |
| Band.ReducePlace | src/banding.rs:60-79 | band invariant: stored rows keep a set low bit and support below the last slot; a whole matrix never spills, so no index is out of bounds |
| Band.AddMeaning | src/filter/parallel.rs:111-133 | adding to a slice intersects its solutions with the equation; an inconsistent one had none |
| Band.SolveSlot | src/banding.rs:108-122 | in the solution every empty slot holds its fill and every stored row is satisfied |
| Band.SolveSol | src/banding.rs:98-128 | back-substitution always constructs a solution, whatever the fill |
| Solutions.CanonicalUnique | src/filter.rs:4-6 | a set of equations has at most one canonical solution |
| Solutions.EmptyIffFree | src/banding128.rs:55-76 | pivot invariance: the empty slots are exactly the free slots of the equation set |
| Solutions.SameEquationsSameSolution | src/filter.rs:4-6 | matrices for the same equations have the same occupied slots and rank and the same solution |
| Solutions.SolveCanonical | src/banding.rs:98-128 | any matrix that stores the equations back-substitutes to their canonical solution |
| Solutions.AddExact | src/banding128.rs:53-76 | refused exactly when no current solution satisfies the equation; unchanged and accepted exactly when all do; otherwise the solution set is intersected |
| Solutions.ReaddIsNoOp | src/banding.rs:71-74 | adding an accepted equation again is accepted and changes nothing |
| Runs.FeedAllMeaning | src/banding128.rs:404-433 | over any list: the band invariant is kept, what was absorbed and what spilled add up to what was fed, and only an unsatisfiable list fails |
| Runs.WholeRun | src/banding128.rs:83-87 | adding a list to a whole matrix succeeds exactly when the system is solvable, and then the matrix stores exactly that system |
| Runs.OrderIndependence | src/filter.rs:4-6 | lists with the same equations are accepted alike and give the same occupied slots and solution |
| Runs.CanonicalExists | src/banding.rs:88-94 | every solvable system inside the slots has a canonical solution |
| Columns.SolvableByColumns | src/banding128.rs:69-71 | consistency on all 32 bits of the result row is consistency in each column |
| Columns.TwoRefuse | src/banding128.rs:60-71 | two equations refuse each other exactly when they want different sums of the same slots |
| Columns.TwoOrders | src/banding128.rs:62-66 | two equations leave different rows in their two orders exactly when they differ and share their start |
| Columns.ThreeRefuse | src/banding128.rs:60-75 | three equations no two of which ask for the same row at the same start are refused exactly when two at one start and a later one have rows, but not right-hand sides, that sum to zero |
| Columns.ClashInColumn | src/banding128.rs:67-71 | no system that contains two rows at one slot and two at the next that sum to zero is solvable in a column where their right-hand sides do not |
| Columns.FourByColumn | src/banding128.rs:60-75 | alone, four such equations are solvable in exactly the columns where their right-hand sides sum to zero |
| Encoding.EncodedUnique | src/banding.rs:98-128 | whatever matrix stores a system, its segments are those of the system |
| Encoding.EncodedMatches | src/banding128.rs:219-245 | a query on the segments answers for the canonical solution, and yes for every equation of the system |
| Encoding.LeastIsLeast | src/banding128.rs:83-89 | trying attempts in turn finds the least that succeeds, or none exactly when none does |
| Interleave.WindowParity | src/banding.rs:120 | the parity of a masked column word is that column of the inner product |
| Interleave.LayoutMeaning | src/banding.rs:124-125 | bit `k` of segment `b*R+j` is column `j` of slot `b*W+k` |
| Interleave.RollRefines | src/banding.rs:118-122 | one step of a column's rolling word refines one slot of the slot-wise solution |
| Interleave.RollSlot | src/banding128.rs:127-131 | every column's word is rolled by its own right-hand side bit |
| Interleave.StoreBlock | src/banding.rs:124-125 | the state is copied to its block's segments and nowhere else |
| Interleave.QueryBounds | src/banding128.rs:232-233 | both blocks of a query lie inside the segments |
| Interleave.JoinBit | src/banding.rs:219-227 | every row bit meets the right bit of the first or the second block, the aligned case included |
| Interleave.QueryRefines | src/banding.rs:212-234 | the joined word has the parity of the row masked with the slots from the start on, with indices in bounds |
| Interleave.MatchesMeaning | src/banding128.rs:217-245 | on a solution's segments, a query answers whether the low `R` columns of the key's equation hold |
| Hash.RibbonHashBijective | src/hash.rs:17-25 | for every seed the key hash, spelled out in `Values.RibbonHashValue`, is a bijection on 64-bit words, with its inverse |
| Hash.StartRange | src/hash.rs:30-32 | the start is below the number of starts |
| Hash.StartOnto | src/hash.rs:30-32 | every start is reached by some hash |
| Hash.CoeffRow | src/hash.rs:37-40 | the row has its low bit set |
| Hash128.CoeffRow128 | src/hash128.rs:28-32 | the 128-bit row has its low bit set |
| Hash128.DistinctKeysDistinctRows | src/hash128.rs:28-32 | under one seed, keys have equal 128-bit rows exactly when they are equal |
| Hash128.NibbleMask | src/hash128.rs:20 | the bit pattern used for the seed mixing mask is the constant |
| Hash128.OrdinalToRawSeedBijective | src/hash128.rs:45-49 | the seed mapping, spelled out in `Values.OrdinalToRawSeedBits`, is a bijection on all of `u32`, with its inverse |
| Numbers.NatOfXor | src/hash.rs:19 | an exclusive or of words is the carry-free sum of the numbers they stand for |
| Values.RibbonHashValue | src/hash.rs:17-25 | the key hash as a number: key plus seed, three carry-free sums with the number over 2^33, two products with the written-out constants, all modulo 2^64 |
| Values.StartValue | src/hash.rs:30-32 | the start is the hash times the number of starts over 2^64, rounded down |
| Values.CoeffRowValue | src/hash.rs:37-40 | the row as a number: the product with the written-out factor, made odd |
| Values.CoeffRow128Value | src/hash128.rs:28-32 | the row as a number: the product in the high half, its carry-free sum with the written-out constant, made odd, in the low half |
| Values.ResultRowValue | src/hash128.rs:38-41 | the result row as a number: the product's four high bytes, the highest first |
| Values.OrdinalToRawSeedBits | src/hash128.rs:45-49 | every bit of the raw seed in terms of the ordinal's product with the written-out factor |
| Values.OrdinalToRawSeedValue | src/hash128.rs:45-49 | the raw seed as a number: each byte's high half summed into its low half |
| Values.HashVector | tests/vectors/homog_w64_r7.json:5 | the first reference vector's hash |
| Values.StartVector | tests/vectors/std_w128_r7.json:5 | its starts, in the slots of both files |
| Values.RowVector | tests/vectors/std_w128_r7.json:5 | its coefficient rows in both families |
| Values.ResultVector | tests/vectors/std_w128_r7.json:5 | its result row |
| Values.SeedVectors | src/hash128.rs:45-49 | ordinal seeds 0 and 1 have raw seeds 0 and 0x3de4d003 |
| Homogeneous.KeyEquationValid | src/banding.rs:61-63 | every key's row fits below the last slot and has its low bit set |
| Homogeneous.HomogeneousNeverFails | src/banding.rs:58-74 | without right-hand sides no row is ever refused and none appears |
| Homogeneous.Banding.constructor | src/banding.rs:35-42 | a new matrix is empty and has `num_slots - W + 1` starts |
| Homogeneous.Banding.Add | src/banding.rs:60-79 | the matrix becomes what the reduction's outcome says; always accepted |
| Homogeneous.Banding.Insert | src/banding.rs:64-78 | the loop over `i` and `cr` computes that outcome |
| Homogeneous.Banding.AddAll | src/banding.rs:81-85 | the matrix after a list is that of feeding its equations in order |
| Homogeneous.Banding.BackSubstitute | src/banding.rs:98-128 | the segments are those of the slot-wise solution with the pseudorandom fill, whose value is `EmptyFilter.FillValue` |
| Homogeneous.Banding.SolveBlock | src/banding.rs:105-126 | one block, with the state carried over from the block above |
| Homogeneous.Banding.RollBlock | src/banding.rs:108-123 | the state rolls over a block's slots, an empty slot loading its fill (`EmptyFilter.FillValue`) |
| Homogeneous.Banding.Solve | src/banding.rs:88-94 | the segments with the geometry and seed they were built for |
| Homogeneous.Contains | src/banding.rs:212-234 | yes exactly when the key's row has even parity in every column |
| Homogeneous.Probe | src/banding.rs:219-233 | the column loop with its early exit decides that |
| Homogeneous.FedIsFilter | src/filter.rs:90-95 | feeding any list of the keys leads to the filter of the key set |
| Homogeneous.Answer | src/banding.rs:209-234 | what a filter answers for any key, in terms of the canonical solution |
| Homogeneous.NoFalseNegatives | src/filter.rs:128-132 | a filter answers yes for every key it was built from |
| EmptyFilter.FillValue | src/banding.rs:113-114 | the fill of slot `i` is `i` times the written-out constant, modulo 2^32 |
| EmptyFilter.EmptyFilterAnswer | src/banding.rs:108-117 | the filter of no keys says yes exactly to the keys whose row sums to zero over the fill |
| EmptyFilter.AbsentKeyRefused | src/banding.rs:209-234 | for every seed and width a key is named that the filter of no keys refuses |
| Standard.Banding128.constructor | src/banding128.rs:30-39 | a new matrix is empty |
| Standard.Banding128.Reset | src/banding128.rs:41-46 | the matrix is cleared and the raw seed is tied to the ordinal seed by the mapping that `Values.OrdinalToRawSeedBits` spells out |
| Standard.Banding128.Add | src/banding128.rs:53-76 | the matrix becomes what the outcome says; false exactly on an inconsistent one |
| Standard.Banding128.Insert | src/banding128.rs:60-75 | the loop over `i`, `cr` and `rr` computes that outcome |
| Standard.Banding128.AddWhileConsistent | src/banding128.rs:85 | stops at the first refused key and says so |
| Standard.Banding128.BackSubstitute | src/banding128.rs:117-137 | the segments are those of the slot-wise solution, empty slots zero |
| Standard.EmptySlotsZero | src/banding128.rs:126 | every slot loads its stored result row, and an empty slot comes out zero in all 32 columns |
| Standard.Banding128.IntoSolution | src/banding128.rs:139-146 | the segments with geometry and both seeds |
| Standard.Contains | src/banding128.rs:219-245 | yes exactly when every column has the parity the key's result row asks for |
| Standard.FoldKeepsParity | src/banding128.rs:236-237 | folding the halves keeps the parity |
| Standard.Probe | src/banding128.rs:222-244 | the column loop over the two block slices decides that |
| Standard.AttemptMeaning | src/banding128.rs:83-87 | an attempt succeeds exactly when the seed's 32-column system is solvable, and then stores it |
| Standard.RefusedForUnusedColumns | src/banding128.rs:69-71 | an attempt succeeds exactly when every result column is solvable; it is refused although the low `R` are exactly when those are solvable and some other is not |
| Standard.FoundIsFilter | src/banding128.rs:81-90 | the least solving seed's matrix gives the filter of the key set |
| Standard.FilterSeed | src/banding128.rs:78-90 | no filter exactly when none of the seeds 0 to 63 solves, otherwise that of the least that does |
| Standard.FilterHasNoFalseNegatives | src/filter.rs:508-512 | whatever filter is returned answers yes for every key it was built from |
| Pleat.PleatInto | src/lib.rs:114-136 | the output is the windows one after the other, `counts` holds where each begins, and a cell lies in run `w` exactly when its key starts in `w * 2^shift .. (w + 1) * 2^shift` |
| Pleat.CountWindows | src/lib.rs:122-125 | the first pass counts each window |
| Pleat.PrefixSums | src/lib.rs:126-128 | the counts become offsets |
| Pleat.FillWindows | src/lib.rs:129-134 | the second pass writes every cell, advancing the cursors |
| Pleat.FoldedPermutes | src/lib.rs:102-106 | the result is a permutation of the keys |
| Pleat.WindowRun | src/lib.rs:104-106 | cells `counts[w]..counts[w+1]` hold exactly window `w`'s keys in arrival order |
| Pleat.FoldedSorted | src/lib.rs:104-106 | windows come in table order |
| Pleat.WindowInRange | src/lib.rs:98-100 | every start's window (`Pleat.WindowBounds`) and the count one place up are in range |
| Pleat.WindowBounds | src/lib.rs:123 | window `w` is the starts from `w * 2^shift` up to the next window's |
| Pleat.NumWindowsValue | src/lib.rs:98-100 | the number of windows is the window of `num_starts` plus two |
| Pleat.CellStart | src/lib.rs:102-106 | a cell of the folded stream lies in a window's run exactly when its key starts in that window's range |
| Pleat.PickAppend | src/lib.rs:129-134 | a key that arrives later comes later in its window |
| Builders.NumSlotsLeast | src/filter.rs:53-60 | the slot count is the least whole number of blocks, at least two, that covers the estimate |
| Builders.SlotsOf256 | src/banding128.rs:249-261 | 256 keys get 384 slots in the standard family, for every `R` |
| Builders.EstimateIsFloor | src/banding128.rs:249-255 | the standard family's estimate is its overhead factor, as a real number, times the number of keys, rounded down |
| Builders.FromKeys | src/filter.rs:90-95 | arrival order returns the filter of the set of keys |
| Builders.FromKeysPleated | src/filter.rs:109-119 | pleated order returns the same filter, for any window shift |
| Builders.TrySeed | src/banding128.rs:99-110 | one attempt, pleated or not, succeeds exactly when the seed solves |
| Builders.FindSeed | src/banding128.rs:81-113 | the least solving seed's matrix, or none when no seed solves |
| Builders.BuildStd128 | src/banding128.rs:265-279 | arrival and pleated builds return the same option: the filter of the set of keys |
| SmallKeySets.TwoKeysAccepted | src/banding128.rs:55-76 | under every seed and slot count no two keys refuse each other |
| SmallKeySets.HomogRowsDependOnOrder | src/banding.rs:60-79 | the rows two keys leave depend on their order exactly when they share their start and differ in their row |
| SmallKeySets.StdRowsDependOnOrder | src/banding128.rs:55-76 | in the standard family, exactly when the keys differ and share their start |
| SmallKeySets.OrderMatters | src/filter.rs:4-6 | under every seed and slot count some two keys leave different rows in their two orders |
| SmallKeySets.StdOrderMatters | src/filter.rs:4-6 | the same in the standard family |
| SmallKeySets.AcceptedIffSolvable | src/banding128.rs:85 | a list is taken in exactly when the system of its keys is solvable in all 32 columns |
| SmallKeySets.ThreeKeysAccepted | src/banding128.rs:55-76 | no three keys refuse each other either |
| SmallKeySets.SumIsNoRow | src/hash128.rs:28-32 | the sum of two coefficient rows, shifted to its lowest set bit, is no coefficient row |
| Clashes.ClashByColumn | src/banding128.rs:60-75 | four keys of the clashing shape are solvable under a seed in every column except those they clash in |
| Clashes.FourKeysRefused | src/banding128.rs:69-71 | for every seed four different keys are refused for result column 24 although every other column is solvable |
| Clashes.NoFilterExists | src/banding128.rs:265-268 | a list of 256 keys is refused under all 64 seeds in the 384 slots that a list of its length gets |
| Ranges.BoundLast | src/filter/parallel.rs:37-41 | saturating arithmetic still makes the last bound the slot count |
| Ranges.RangeBounds | src/filter/parallel.rs:35-43 | the deduplicated bounds are exactly those dealt out, rise strictly from 0 to the slot count, and all but the last are multiples of the window |
| Ranges.BoundValue | src/filter/parallel.rs:39-41 | a bound is `t * per * window` below the slot count and the slot count otherwise: saturation never shows |
| Ranges.DestinationExact | src/filter/parallel.rs:53-60 | a key is deferred exactly when it starts within 16384 slots of the upper bound of a range that is not the last; any other goes to the range it starts in |
| Ranges.RangeIndex | src/filter/parallel.rs:54 | the partition point names the range that holds the slot |
| Ranges.Route | src/filter/parallel.rs:46-61 | each bucket holds, in order, exactly its range's keys, and the deferred list exactly those too close to the next range |
| Ranges.RouteConserves | src/filter/parallel.rs:51-61 | buckets and deferred list together hold every key as often as it was given |
| Ranges.RouteMeaning | src/banding128.rs:319-327 | the keys' equations are routed to the ranges they start in, or deferred |
| Slices.SliceSol | src/filter/parallel.rs:63-74 | the matrix is satisfied exactly when every slice is |
| Slices.SliceValid | src/filter/parallel.rs:63-74 | the band invariant of the whole follows from that of the slices |
| Slices.SliceReduce | src/filter/parallel.rs:111-133 | a reduction on a slice spills exactly when the same one on the whole matrix would cross the upper bound, and otherwise has the same outcome |
| Slices.SliceStepIsAdd | src/filter/parallel.rs:111-133 | a slice step is `add` on the whole matrix, or a spill that changes nothing |
| Slices.ProgressStep | src/filter/parallel.rs:76-86 | banding one range leaves every other range as it was |
| Slices.BandedSpills | src/filter/parallel.rs:98-101 | only bucket equations spill, and the last range never does |
| Slices.ParallelMeaning | src/banding128.rs:285-387 | a slice or the tail is refused exactly when the whole system is inconsistent; otherwise the matrix stores exactly the whole system |
| Workers.Step | src/banding128.rs:404-432 | one atomic step of a thread stays within its own slice and bucket |
| Workers.StepKeepsFinal | src/filter/parallel.rs:109-134 | no step changes what a thread will end with |
| Workers.ExecKeepsFinal | src/filter/parallel.rs:77-86 | nor does any schedule |
| Workers.BusyTerminates | src/filter/parallel.rs:77-86 | every schedule of unfinished threads is bounded by their total budget |
| Workers.ScheduleExists | src/filter/parallel.rs:77-86 | some schedule finishes every thread |
| Workers.SchedulesAgree | src/filter/parallel.rs:7-9 | any two finishing schedules leave the same slices, spills and verdicts |
| Workers.AnyInterleaving | src/banding128.rs:347-387 | for every finishing interleaving, slices and tail are refused exactly when the whole system is inconsistent, and otherwise store exactly it |
| Workers.EndMeaning | src/banding128.rs:347-384 | however a parallel build ends, it was refused exactly when the whole system is inconsistent, and otherwise stores exactly it |
| Workers.EveryBuildEnds | src/filter/parallel.rs:77-95 | some schedule ends the build, and every schedule that stops all threads has ended it |
| Parallel.InsertInSlice | src/filter/parallel.rs:113-133 | a slice step is the reduction on the slice; on the whole matrix (`Slices.SliceStepIsAdd`) it is `add`, or a spill that changes nothing exactly when `add` would cross the boundary |
| Parallel.BandSlice | src/filter/parallel.rs:102-135 | a thread's pass: its slice and spilled keys, nothing outside the slice |
| Parallel.BandSlices | src/filter/parallel.rs:63-86 | all passes together band every slice |
| Parallel.AddTail | src/filter/parallel.rs:91-94 | deferred keys and then each thread's spills, on the whole matrix |
| Parallel.FillParallel | src/filter/parallel.rs:45-95 | afterwards the matrix stores the whole system of the key set |
| Parallel.FromKeysParallel | src/filter/parallel.rs:19-96 | the parallel build, its passes taken one after the other, returns the filter of the set of keys, for every thread count and window shift |
| Parallel.AnyScheduleIsFilter | src/filter/parallel.rs:76-95 | for every interleaving of the threads' steps, the segments of the finished build are those of the set of keys' filter |
| ParallelStd.InsertInSlice128 | src/banding128.rs:409-431 | the same with right-hand sides: `add` on the whole matrix with its verdict, or a spill that changes nothing |
| ParallelStd.BandRange128 | src/banding128.rs:394-434 | None exactly when the pass met an inconsistent dependence, otherwise the spilled keys |
| ParallelStd.BandRanges128 | src/banding128.rs:329-359 | all passes together band every slice and report truthfully |
| ParallelStd.AddTail128 | src/banding128.rs:363-380 | the tail stops at the first refused key and says so |
| ParallelStd.TryParallel | src/banding128.rs:303-384 | a parallel attempt succeeds exactly when the seed solves |
| ParallelStd.BuildStd128Parallel | src/banding128.rs:285-387 | the parallel build, its passes taken one after the other, returns the same option as arrival order |
| ParallelStd.AnySchedulesAreFilter | src/banding128.rs:296-387 | a retry over seeds whose threads interleave in any way ends with the same option as arrival order: least solving seed, segments, and None |
| Format.Fnv1a | src/format.rs:72-78 | the accumulating loop computes the fold over all bytes, whose step and start are `FormatValues.FnvStepValue` and `FormatValues.FnvEmptyValue` |
| Format.FnvStepInjective | src/format.rs:75 | a step is injective in the running hash and in the byte |
| Format.FnvDetects | src/format.rs:72-78 | changing one byte changes the checksum |
| Format.AcceptedGeometry | src/format.rs:153-182 | acceptance means at least two whole blocks, addressable on the target, and a payload of exactly one element for each block and column |
| Format.OneByteCorruption | src/format.rs:127-137 | changing exactly one byte of an accepted buffer is refused, by the magic for its four bytes and by the checksum for all others |
| Format.AcceptedPrefix | src/format.rs:180-182 | no proper prefix or extension of an accepted buffer is accepted |
| Format.NoReinterpretation | src/format.rs:138-145 | an accepted buffer is refused by name for another family or width |
| Format.ChunksOfSegments | src/filter.rs:208-211 | reading the payload back gives the segments written |
| Format.SegmentsOfChunks | src/filter.rs:195-197 | writing the segments read gives the payload back |
| Format.WriteEnvelope | src/filter.rs:186-199 | header, segments appended one at a time, checksum |
| Format.EnvelopeRoundTrip | src/format.rs:90-187 | every storable filter's bytes are accepted and give back what was stored |
| Format.EnvelopeUnique | src/format.rs:90-187 | every accepted buffer is the envelope of what it decodes to |
| FormatValues.FnvStepValue | src/format.rs:75 | a step as a number: the byte summed into the hash without carry, then the product with the written-out prime modulo 2^64 |
| FormatValues.FnvEmptyValue | src/format.rs:73 | the checksum of nothing is the written-out offset |
| FormatValues.FnvVector | src/format.rs:72-78 | the published checksum of the letter "a" |
| FormatValues.HeaderLayout | src/format.rs:12-22 | every header byte as a number: magic, family, width, zeros, and the three fields, the lowest byte first |
| FormatValues.EnvelopeLayout | src/format.rs:12-22 | where header, payload and checksum lie |
| FormatValues.PayloadLayout | src/filter.rs:195-197 | every payload byte as a number: segment by segment, the lowest byte first |
| FormatValues.FamilyBytes | src/filter.rs:186-199 | the family byte is 0 or 1, and the seed stored is the raw or the ordinal one |
| FormatValues.GeometryExact | src/format.rs:153-178 | what the chain of overflow checks comes to: whole blocks, at least two, one segment for each block and column, and a buffer that fits in memory |
| FormatValues.DecodeExact | src/format.rs:117-187 | which buffers are accepted, and which error every other one draws |
| FormatValues.BadSeedExact | src/filter.rs:580-582 | a standard buffer is refused for its seed exactly when all else is in order and the seed is 64 or more |
| Codec.ToBytes | src/filter.rs:186-199 | the homogeneous filter's bytes |
| Codec.HomogRoundTrip | src/filter.rs:201-215 | a homogeneous filter survives being written and read |
| Codec.HomogAccepted | src/filter.rs:204-215 | an accepted buffer re-encodes to itself, and its filter may be queried with any key without leaving the segments |
| Codec.HomogAcceptedIff | src/filter.rs:204-215 | exactly the buffers written for storable filters are accepted |
| Codec.HomogBuilt | src/filter.rs:90-95 | every built filter that fits in memory is storable |
| Codec.ToBytes128 | src/filter.rs:560-573 | the standard filter's bytes, with the ordinal seed |
| Codec.StdRoundTrip | src/banding128.rs:444-451 | a standard filter survives, its raw seed recomputed from the ordinal seed |
| Codec.StdAccepted | src/filter.rs:576-590 | an accepted standard buffer re-encodes to itself and its filter may be queried with any key |
| Codec.StdAcceptedIff | src/filter.rs:576-590 | exactly the buffers written for storable standard filters are accepted |
| Codec.StdBuilt | src/filter.rs:481-486 | every built standard filter that fits in memory is storable |

## Left out

- Floating-point overhead factors: the builders take the slot estimate as an arbitrary natural number, of which only the rounding to whole blocks is modelled. `Builders.Estimate128` is the standard family's estimate where its product is exact, below 2^43 keys.
- False-positive rates and bits-per-key figures: they are probabilistic or measured, not decided by the code.
- Prefetch hints, `contains_batch` and storage relocation: they do not affect any answer.
- Hashing of arbitrary `Hash` keys: foreign library code.
- Thread spawning and joining: threads are steps of a state machine, and passes over slices in the builders.
- Vector capacities and allocation failure; the reuse of one key buffer over seed retries is modelled as a fresh list for each seed.
- Overflow of slot counts near the largest machine integer in `num_slots_for`: sizes are natural numbers there, and the parallel builders require the count to be a machine integer.
- The panics on an oversized window shift: window sizes are natural numbers and the results hold for every shift.
- Display and Debug texts.
