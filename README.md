# NSGA-II and SPEA2 ranking and selection, modelled in Dafny

This project models the ranking and selection kernel of a small C++ library of
multi-objective evolutionary algorithms. It has three parts.

- **Dominance oracle** (`multiobjective.dfy`, module `MultiObjective`).
  - `dominate` compares two objective vectors after multiplying each
    coordinate by the sign of its objective: +1 minimises, -1 maximises.
  - `distanceCalc` measures how far apart two vectors are.
  - The loop of `filter` keeps the points that no other point dominates.
- **NSGA-II engine** (`nsga2.dfy`, module `NsgaEngine`, class `Nsga2`).
  - The fast non-dominated sort charges each member of the double-size
    population, sorts by the charge counter and tiles the array into fronts.
  - `crownding_distance` sorts a front by each objective in turn, gives its
    two ends the distance 100000 and adds to each inner member the gap
    between its neighbours divided by the spread of the front.
  - `nextPopulation` walks the fronts, computing the crowding distances of
    each front it reaches, until the population size is reached. It sorts
    the boundary front by the crowded-comparison order.
  - The binary tournament rule picks one of two drawn positions.
- **SPEA2 engine** (`spea2.dfy`, module `SpeaEngine`, class `Spea2`).
  - Fitness assignment computes strengths, then raw fitness, then density.
  - The density matrix is built and each row is sorted. Density is read at
    column `kth`, where `kth` is the integer square root of `all_pop`.
  - Environmental selection moves every undominated slot to the archive region
    at the tail.
    - Case A: if there are too few, it fills up with the best dominated slots.
    - Case B: if there are too many, it truncates by repeatedly removing the
      member of the closest pair.
  - The two slot moves: `changePos` swaps two slots. `removal` rotates a slot to
    the front of the archive.

`sorting.dfy` (module `Sorting`) supplies the sorting specification that both
engines use for `std::sort`. It defines a strict weak order and states what
sorting one range of an array does (`SortsRange`): the slots outside the range
stay, and the range becomes a sorted permutation of its old contents. Equal
elements may end in any order. It also states the effect of sorting every row
of a row-major matrix (`RowsSorted`). An insertion sort (`Sort`) shows that such
an outcome always exists.

The population arrays of both engines are Dafny `array`s owned by a class.
- Every step that changes them in the source is a `method` with a `modifies`
  clause.
- Each such method is proved against a function over `old(population[..])`:
  `Ranked`, `SortsRange`, `Recrowded`/`PassDone`, `CrowdedThrough`/`SortedThrough`,
  `Swap`, `Rotated`, `Filtered`, `Filling`/`CaseAResult`, `Shrunk`,
  `Matrix`/`RowsSorted`, `Fitted`.
- What the source promises is proved about those functions as lemmas.

The objective signs (`Info::objconf`) are an explicit parameter `signs`. The
number of objectives is `|signs|`.

Where the design description and the code disagree, the model follows the code:
- **Identical vectors in the fast non-dominated sort.** Each dominates the
  other, because the test is "nowhere worse". The second `dominate` call sits in
  an `else` branch, so only the member at the lower position is charged
  (`IdenticalChargesLower`).
- **Ties in the binary tournament.** The second drawn position wins a tie, not
  the first.
- **Sorting.** `std::sort` is not stable. The model promises only a sorted
  permutation, never stability.
- **The tolerance comparison in `dominate`.** It feeds only a counter that is
  never read, so it has no effect on the result (`DominateTallied`).
- **Case A of `truncation2`.** It sorts only the slots `[0, all_pop - ARCSIZE)`,
  not every slot outside the archive, and takes candidates from that range only
  (`CaseAResult`). A taken slot receives the individual that stood just before
  the archive (`ScannedSlot`). An individual that the compaction leaves in the
  slots `[all_pop - ARCSIZE, all_pop - in_archive)` is therefore never a
  candidate: with four slots, `ARCSIZE = 2` and only slot 0 selected, the
  compaction gives `[x3, x1, x2, x0]` (`CompactionExample`), so case A chooses
  among `x3` and `x1` only, whatever the fitness of `x2`.
- **`getDensity` when `kth >= POPSIZE`.** It reads index `i * POPSIZE + kth`,
  which then lies in a later row of the matrix. That only happens on the first
  generation with an archive much larger than the population. The model reads
  exactly that cell (`Fitted`). `KthWithinRow` and `KthInRange` give the
  conditions under which the cell is inside row `i`.

## Model

| member | source | states |
|---|---|---|
| MultiObjective.DominateTallied | multiobjective.h:51-69 | the loop that also counts tolerance-equal coordinates returns the same verdict as the loop without the counter: the tolerance never changes the result |
| MultiObjective.DominateFromSpec | multiobjective.h:55-68 | scanning from coordinate `i` returns DOMINATED exactly when no later signed coordinate of the first vector exceeds the second's |
| MultiObjective.DominateSpec | multiobjective.h:51-69 | `dominate` returns 1 exactly when the first vector is nowhere worse after applying the signs, otherwise 0 |
| MultiObjective.DominatesIff | multiobjective.h:51-69 | the boolean dominance predicate holds exactly when `dominate` returns 1 |
| MultiObjective.DominatesReflexive | multiobjective.h:55-68 | every vector dominates itself, since no coordinate is strictly worse |
| MultiObjective.DominatesTransitive | multiobjective.h:55-68 | dominance is transitive |
| MultiObjective.MutualDominance | multiobjective.h:62 | two vectors dominate each other exactly when their signed coordinates are all equal |
| MultiObjective.MutualDominanceIsEquality | multiobjective.h:62 | with every sign +1 or -1, mutual dominance holds exactly for equal vectors |
| MultiObjective.DominatesBySigns | multiobjective.h:62 | a +1 sign means "not larger", a -1 sign "not smaller"; a zero sign ignores the coordinate |
| MultiObjective.DominatesMinimising | multiobjective.h:62 | with every sign +1, dominance is coordinatewise `<=` |
| MultiObjective.SquaredSum | multiobjective.h:71-78 | the accumulated sum of squared differences is non-negative |
| MultiObjective.DistanceSymmetric | multiobjective.h:71-78 | the distance is symmetric |
| MultiObjective.DistanceZero | multiobjective.h:71-78 | equal vectors are at distance zero |
| MultiObjective.DominatorCount | multiobjective.h:143-155 | the `count` of point `i` is at most the number of points |
| MultiObjective.DominatorCountZero | multiobjective.h:143-156 | `count` is zero exactly when no other point dominates point `i` |
| MultiObjective.EqualPointsRejected | multiobjective.h:143-156 | a point with an identical copy at another position is never printed, because each copy dominates the other |
| MultiObjective.Filter | multiobjective.h:143-160 | the printed indices are strictly ascending and are exactly the points that no other point dominates |
| NsgaEngine.FitnessLessIsStrictWeakOrder | nsga2.h:220 | ordering by the charge counter is a strict weak order, as `std::sort` needs |
| NsgaEngine.CrowdedLessIsStrictWeakOrder | nsga2.h:45-49 | the crowded-comparison order (lower counter, then larger crowding) is a strict weak order |
| NsgaEngine.ChargeCountBound | nsga2.h:202-216 | a member is charged at most once per other member |
| NsgaEngine.ChargeCountZero | nsga2.h:202-216 | a count over a range is zero exactly when no position of the range charges the member |
| NsgaEngine.CounterZeroIff | nsga2.h:199-216 | after the pair loop a counter is zero exactly when every other member dominating it sits at a lower position and is dominated back |
| NsgaEngine.UndominatedCounterZero | nsga2.h:199-216 | a member that no other member dominates ends with counter zero |
| NsgaEngine.StrictDominatorCharges | nsga2.h:205-215 | a member dominated by one it does not dominate is charged by it, and never the other way round |
| NsgaEngine.IdenticalChargesLower | nsga2.h:205-215 | of two members with identical objectives, the higher position charges the lower one and not the reverse |
| NsgaEngine.ChargeStep | nsga2.h:205-215 | for a pair `j < i`, `j` gains a charge when `i` dominates it; `i` gains one only when `i` does not dominate `j` and `j` dominates `i` |
| NsgaEngine.ChargesAsymmetric | nsga2.h:205-215 | two members never charge each other |
| NsgaEngine.ChargesTransitive | nsga2.h:205-215 | charges compose: if `y` charges `x` and `x` charges `w`, then `y` charges `w` |
| NsgaEngine.MaximalAmongFirst | nsga2.h:202-216 | every non-empty prefix holds a member that no member of the prefix charges |
| NsgaEngine.SomeCounterIsZero | nsga2.h:199-216 | some member of a non-empty population ends with counter zero, so the first front is never empty |
| NsgaEngine.ScanStart | nsga2.h:199-200 | resetting member `i` (crowding 0, counter 0) opens row `i` of the scan |
| NsgaEngine.ScanStep | nsga2.h:202-216 | one pass of the inner loop charges exactly as the pair rule says |
| NsgaEngine.ScanEnd | nsga2.h:195-218 | a finished inner loop of row `i` is the state before row `i + 1` |
| NsgaEngine.PendingAll | nsga2.h:195-218 | after the last row the population is the ranked one |
| NsgaEngine.SortedRankedStartsAtZero | nsga2.h:199-220 | any sorted permutation of the ranked population has non-negative ascending counters, with 0 at position 0 |
| NsgaEngine.RankedThenSorted | nsga2.h:220 | sorting the whole ranked array gives such a sorted permutation |
| NsgaEngine.FrontsAreRuns | nsga2.h:238-258 | fronts built over ascending counters are exactly the maximal runs of equal counters |
| NsgaEngine.FirstAloneWhenNonZero | nsga2.h:238-251 | `rank` starts at 0, so a non-zero counter at position 0 leaves front 0 holding position 0 alone |
| NsgaEngine.PartialStart | nsga2.h:238-240 | the first front `front(0,1,0)` covers position 0 |
| NsgaEngine.PartialOpen | nsga2.h:244-251 | a changed counter closes the current front at `i-1` and opens one at `i` |
| NsgaEngine.PartialExtend | nsga2.h:252-254 | an equal counter extends the current front by one |
| NsgaEngine.PartialClose | nsga2.h:257 | closing the last front at `2*popsize-1` tiles the whole array |
| NsgaEngine.SumCountersIsBegin | nsga2.h:238-258 | the sizes of the fronts before front `f` add up to its begin position |
| NsgaEngine.ScanFronts | nsga2.h:232-258 | the fronts tile the array and each front covers positions of equal counter |
| NsgaEngine.ScanPosition | nsga2.h:244-255 | one loop step keeps the fronts tiling the scanned prefix |
| NsgaEngine.ObjectiveLessIsStrictWeakOrder | nsga2.h:283 | ordering by the value of one objective is a strict weak order, as the `std::sort` of each pass needs |
| NsgaEngine.Quotient | nsga2.h:292-295 | over a positive spread the step is the exact quotient of gap and spread; with a non-negative gap and spread it is non-negative |
| NsgaEngine.UncrowdedPermutes | nsga2.h:283 | a permutation of the members is still a permutation once their crowding distances are cleared |
| NsgaEngine.RecrowdedTransitive | nsga2.h:279-296 | two recrowdings of the same front compose into one |
| NsgaEngine.SortRecrowds | nsga2.h:283 | sorting a front reorders its members only among themselves, and keeps non-negative crowding distances non-negative |
| NsgaEngine.SortKeepsNonNegative | nsga2.h:283 | after a sort of the front no crowding distance in it is negative if none was before |
| NsgaEngine.SetCrowding | nsga2.h:289-295 | changing one member's crowding distance inside the front keeps the front's members |
| NsgaEngine.RecrowdedFit | nsga2.h:279-296 | recrowded members keep objective vectors of the problem's dimension |
| NsgaEngine.SortedObjective | nsga2.h:283-286 | once the front is sorted by objective `o`, that objective's values ascend through it, so `min` and `max` are its first and last values |
| NsgaEngine.GapNonNegative | nsga2.h:283-295 | in the sorted front the neighbours of an inner member have ascending values, so the gap added to it is non-negative |
| NsgaEngine.GapStep | nsga2.h:294-296 | adding a gap to an inner member keeps the front's members, every objective vector in place and both ends at 100000 |
| NsgaEngine.GapNonNegativeStep | nsga2.h:295 | adding a non-negative gap keeps the front's crowding distances non-negative |
| NsgaEngine.PassComposes | nsga2.h:281-296 | the objective sort followed by the two end assignments and the gap loop is one pass: the front recrowded, both ends at 100000 |
| NsgaEngine.PassAfter | nsga2.h:281-296 | a further pass after earlier ones leaves the front recrowded from its state before them all, with both ends at 100000 |
| NsgaEngine.FrontBefore | nsga2.h:232-258 | in a tiling every earlier front ends before a later front begins |
| NsgaEngine.FrontKept | nsga2.h:320-334 | a front that lies before the slots a step changes keeps what the walk gave it |
| NsgaEngine.FrontsKept | nsga2.h:320-334 | the fronts before front `f` keep what the walk gave them while only front `f` and later slots change |
| NsgaEngine.FrontStep | nsga2.h:320-322 | `crownding_distance` on front `f` extends the walk through `f`: earlier fronts kept, front `f` recrowded with its ends at 100000, later slots as before the walk |
| NsgaEngine.WalkAdvance | nsga2.h:327-333 | when front `f` neither overflows nor completes the population, the next front exists and starts at the new `size` |
| NsgaEngine.BoundarySorted | nsga2.h:344-347 | sorting the overflowing front by the crowded comparison keeps the earlier fronts recrowded and the later slots as before the walk, and leaves that front a crowded-sorted permutation of its members |
| NsgaEngine.Nsga2.constructor | nsga2.h:151-159 | the population array has `2 * popsize` slots holding the initial members |
| NsgaEngine.Nsga2.FastNonDominatedSort | nsga2.h:189-230 | the population becomes a sorted permutation of the ranked one, starting with counter 0, and is tiled into fronts of equal counter |
| NsgaEngine.Nsga2.RankAndSort | nsga2.h:195-220 | the population becomes the ranked population sorted by counter |
| NsgaEngine.Nsga2.CountCharges | nsga2.h:195-218 | each counter ends as the number of members that charge it, and crowding is reset |
| NsgaEngine.Nsga2.CreateFronts | nsga2.h:232-270 | the fronts tile `[0, 2*popsize)` and follow the counters |
| NsgaEngine.Nsga2.SortFront | nsga2.h:346-347 | the `std::sort` of one front's range by the crowded comparison: slots outside the range kept, the range a sorted permutation of its old contents, in any order among equal members |
| NsgaEngine.Nsga2.NextPopulation | nsga2.h:312-355 | stops at the first front `f` with `size < popsize <= size + counter`, `size` the total of the earlier fronts; `needCrownding` holds exactly when `f` overflows; every front through `f` gets its crowding distances (ends at 100000), and when `f` overflows it alone is then sorted by the crowded comparison; later slots stay |
| NsgaEngine.Nsga2.WalkFronts | nsga2.h:317-334 | the loop stops at the first front that reaches the population size, `needCrownding` exactly on overflow, with crowding distances computed for every front through it and nothing after it changed |
| NsgaEngine.Nsga2.SortBoundary | nsga2.h:344-347 | the overflowing front is sorted by the crowded comparison, the other fronts as the walk left them |
| NsgaEngine.Nsga2.CrowdingDistance | nsga2.h:273-309 | the front's members are reordered only among themselves and get new crowding distances, nothing outside the front changes; with at least one objective the first and last member end at 100000; non-negative distances stay non-negative |
| NsgaEngine.Nsga2.CrowdingPass | nsga2.h:281-296 | one objective: the front recrowded with both ends at 100000, non-negative distances kept non-negative |
| NsgaEngine.Nsga2.SortByObjective | nsga2.h:283 | the front becomes a sorted permutation by ascending objective `o`; nothing outside it moves |
| NsgaEngine.Nsga2.SetBoundary | nsga2.h:288-290 | the first and last member of the sorted front get 100000; the members and objective vectors stay |
| NsgaEngine.Nsga2.AddGaps | nsga2.h:294-296 | the gap loop keeps the front's members, objective vectors and ends, and keeps the distances non-negative |
| NsgaEngine.Nsga2.AddCrowding | nsga2.h:295 | member `i` gains `q` in its crowding distance and nothing else changes |
| NsgaEngine.Nsga2.BinaryTournament | nsga2.h:417-425 | the first draw wins exactly when its counter is strictly lower; otherwise the second wins |
| Sorting.InsertPermutes | nsga2.h:220 | insertion adds the element to the multiset |
| Sorting.SortPermutes | nsga2.h:220 | the sort is a permutation |
| Sorting.InsertSorted | nsga2.h:220 | insertion keeps a sequence sorted under a strict weak order |
| Sorting.SortSorted | nsga2.h:220 | the sort is sorted under a strict weak order |
| Sorting.SortedWithinSorts | nsga2.h:346-347 | replacing a range by its insertion sort is one outcome that `std::sort` may give |
| Sorting.SortsRangeEffect | nsga2.h:346-347 | sorting a range permutes the whole array and moves nothing outside the range |
| Sorting.SortsWhole | nsga2.h:220 | sorting the full range gives a sorted permutation of the whole array |
| Sorting.RowsSortedStep | spea.h:398-401 | sorting row `i` after rows `[0, i)` were sorted gives rows `[0, i + 1)` each a sorted permutation of its old row, the cells after them unchanged |
| Sorting.SortRange | nsga2.h:346-347 | `std::sort` on `[lo, hi)` of an array: slots outside the range kept, the range a sorted permutation of its old contents; no order among equal elements is promised |
| SpeaEngine.IndLessIsStrictWeakOrder | spea.h:39-42 | ordering neighbours by distance is a strict weak order |
| SpeaEngine.FitnessBeforeIsStrictWeakOrder | spea.h:461 | ordering by fitness is a strict weak order |
| SpeaEngine.Kth | spea.h:248 | `kth = trunc(sqrt(all_pop))`: its square is at most `all_pop` and the next square is larger |
| SpeaEngine.KthUnique | spea.h:248 | only one natural has that property |
| SpeaEngine.KthInRange | spea.h:248 | for `all_pop >= 2`, `1 <= kth < all_pop` |
| SpeaEngine.KthWithinRow | spea.h:420-423 | with `POPSIZE >= 3` and `ARCSIZE <= POPSIZE`, `kth < POPSIZE`: the density cell lies in row `i` |
| SpeaEngine.Density | spea.h:420-423 | `1 / (dist + 2)` lies in `(0, 1/2]` for a non-negative distance |
| SpeaEngine.SwapEffect | spea.h:518-537 | `changePos(a, b)` exchanges the individuals at `a` and `b`, labels included, changes nothing else, and does nothing when `a == b` |
| SpeaEngine.SwapPermutes | spea.h:518-537 | the exchange is a permutation |
| SpeaEngine.SwapInvolution | spea.h:518-537 | exchanging twice restores the array |
| SpeaEngine.RotatedEffect | spea.h:506-511 | `removal(begin, idx)` moves slot `idx` to `begin` and shifts `[begin, idx)` up by one; the rest stays; a permutation |
| SpeaEngine.RotatedNone | spea.h:506-511 | with `idx == begin` nothing moves |
| SpeaEngine.RotatedStep | spea.h:508-510 | each `changePos(i, i-1)` of the loop moves the removed slot one position down |
| SpeaEngine.FilteredCounts | spea.h:431-441 | each individual occurs among the kept slots exactly as often as in the input when it passes the test, and never otherwise |
| SpeaEngine.FilteredSorted | spea.h:459-470 | keeping the passing slots of a sorted sequence leaves it sorted |
| SpeaEngine.CompactMove | spea.h:433-438 | an undominated slot goes to position `count`, and the tail grows by that slot; slots neither selected nor displaced keep their individual |
| SpeaEngine.CompactSkip | spea.h:433-440 | a dominated slot is skipped and stays where it is |
| SpeaEngine.CompactionCompacts | spea.h:429-441 | the swaps of the compaction, scanned down to slot `i`, leave the unscanned slots untouched, the selected individuals of the scanned part in order in the tail, every other slot before the tail that was neither selected nor displaced in place, and a permutation |
| SpeaEngine.CompactionNext | spea.h:433-438 | one step of the loop: the slot it reaches still holds its original individual; a selected one is exchanged with slot `count` and the tail grows by one, any other leaves the array as it is |
| SpeaEngine.CompactionResult | spea.h:429-441 | over the whole scanned prefix: the tail holds its selected individuals in order, slots before the tail that lie beyond `POPSIZE` or are not selected keep their individual, and a permutation |
| SpeaEngine.CompactionExample | spea.h:433-438 | with four slots of which only the first is selected, the array becomes `[x3, x1, x2, x0]`: the last individual is exchanged into slot 0 |
| SpeaEngine.FillTake | spea.h:463-468 | taking a slot with fitness above 1 into `all_pop - arc_size - 1` keeps the fill invariant and the multiset |
| SpeaEngine.FillSkip | spea.h:462-464 | a slot with fitness at most 1, or any slot once the archive is full, is skipped |
| SpeaEngine.FillFull | spea.h:466-470 | stopping once the archive is full leaves the same state as scanning to the limit |
| SpeaEngine.FillMove | spea.h:463-465 | exchanging the taken slot with the slot before the archive adds it to the archive, hands the slot the individual from before the archive and keeps everything else |
| SpeaEngine.FillStart | spea.h:459-462 | before the scan nothing is taken and every slot holds the sorted array's individual |
| SpeaEngine.CaseACandidates | spea.h:459-470 | what case A can add to the archive are the individuals above 1 of the prefix `[0, all_pop - ARCSIZE)`, each as often as it occurs there, in ascending fitness |
| SpeaEngine.CaseACount | spea.h:459-470 | the archive ends with its old size plus the number of prefix individuals above 1, capped at `ARCSIZE` |
| SpeaEngine.CaseAKept | spea.h:459-470 | the old archive and the slots between the prefix and the new archive keep their individuals |
| SpeaEngine.FilteredSameCount | spea.h:461 | reordering the prefix keeps the number of its individuals above 1 |
| SpeaEngine.OutsideAboveOne | spea.h:429-441 | after the compaction over the whole array, of individuals each selected or above 1, every slot before the archive is above 1 |
| SpeaEngine.ArchiveFilled | spea.h:425-470 | once `POPSIZE` spans the whole array and `ARCSIZE <= all_pop - ARCSIZE`, fitness assignment, compaction and case A leave the archive with exactly `ARCSIZE` members |
| SpeaEngine.CaseAFull | spea.h:459-470 | when every slot of the sorted range is above 1 and the range can fill the archive, case A fills it to exactly `ARCSIZE` |
| SpeaEngine.ClosestBound | spea.h:476-494 | of two search outcomes, a finite minimum bounds the other's from above, strictly when the other's row is later |
| SpeaEngine.ClosestUnique | spea.h:476-494 | `closest` and `min_dist` are uniquely determined: the first row holding a pair at the minimum distance |
| SpeaEngine.ScanCloser | spea.h:486-489 | a strictly closer pair replaces the current one |
| SpeaEngine.ScanSelf | spea.h:482 | the diagonal is skipped |
| SpeaEngine.ScanFarther | spea.h:486 | an equal or farther pair changes nothing, so ties keep the earlier row |
| SpeaEngine.ScanRow | spea.h:478-492 | a full row scanned moves to the next row |
| SpeaEngine.ScanDone | spea.h:476-494 | all rows scanned give the first closest row |
| SpeaEngine.ShrunkStep | spea.h:473-499 | one round (closest pair, `removal`, `beginArch++`) extends the truncation trace |
| SpeaEngine.ShrinkRoundKeep | spea.h:496-498 | one round keeps the multiset and the slots before the archive, and fixes one slot at `beginArch` |
| SpeaEngine.RoundsKeep | spea.h:473-499 | the rounds keep the length, the multiset and the slots before the archive |
| SpeaEngine.ShrunkKeep | spea.h:473-499 | case B is a permutation that leaves the slots before the archive in place |
| SpeaEngine.RoundsUnique | spea.h:473-499 | the rounds determine a single final population |
| SpeaEngine.ShrinkRoundUnique | spea.h:476-498 | one round has a single outcome |
| SpeaEngine.Strength | spea.h:319-330 | `strenght[i]` counts prefix slots, so it is at most `POPSIZE` |
| SpeaEngine.CountPositive | spea.h:319-330 | an individual that dominates another slot of the range has a positive count |
| SpeaEngine.RawFromZero | spea.h:333-340 | raw fitness is zero exactly when no other prefix slot dominates the individual |
| SpeaEngine.FlatBound | spea.h:422 | `i * POPSIZE + kth` lies inside the `all_pop * all_pop` matrix |
| SpeaEngine.FittedSelection | spea.h:313-352 | after `fitnessAssign`, fitness is below 1 exactly when nothing in the prefix dominates the slot, and otherwise above 1; labels and objectives stay |
| SpeaEngine.FittedFit | spea.h:313-352 | fitness assignment changes only fitness values |
| SpeaEngine.Cleared | spea.h:361-370 | the cells below the bound become `(0, 0.0)` and the rest stay |
| SpeaEngine.RowPairsCell | spea.h:374-383 | after the inner loop of row `i`, cells `(i, b)` and `(b, i)` of the scanned columns hold their pair's distance and label; the rest stay |
| SpeaEngine.RowPairsOutside | spea.h:374-383 | the inner loop writes nothing beyond the used square |
| SpeaEngine.AllPairsCell | spea.h:372-384 | after the pair loops every off-diagonal cell `(a, b)` holds the pair's distance and label `b`; the diagonal stays |
| SpeaEngine.AllPairsOutside | spea.h:372-384 | the pair loops write nothing beyond the used square |
| SpeaEngine.MatrixCells | spea.h:361-384 | the matrix holds the distance between slots `a` and `b`, symmetrically, labels each off-diagonal cell with its column, and holds `(0, 0.0)` on the diagonal |
| SpeaEngine.MatrixOutside | spea.h:361-384 | cells beyond the used square keep their old contents |
| SpeaEngine.Spea2.constructor | spea.h:242-250 | `all_pop = POPSIZE + ARCSIZE`, `kth` is its integer square root, the distance vector has `all_pop * all_pop` cells |
| SpeaEngine.Spea2.Widen | spea.h:277 | after the first generation the scanned prefix becomes `POPSIZE + ARCSIZE` |
| SpeaEngine.Spea2.ChangePos | spea.h:518-537 | the population becomes the exchange of the two slots |
| SpeaEngine.Spea2.Removal | spea.h:506-511 | the population becomes the rotation of `[begin, idx]` |
| SpeaEngine.Spea2.CompactSelected | spea.h:429-441 | the array afterwards is exactly `CompactionTo` of the old one, the sequence of its swaps; the tail of length `in_archive` holds, in prefix order, the prefix slots with fitness below 1; slots before the tail beyond `POPSIZE` or not selected keep their individual; a permutation |
| SpeaEngine.Spea2.FillArchive | spea.h:459-470 | case A as `CaseAResult` states it: the prefix is put in some ascending-fitness order `sorted`; scanning it, each individual above 1 goes to the slot before the archive, which then holds the next one in that order, and the slot it left receives the individual from that slot, until the archive is full; the old archive and the slots between stay; nobody is lost |
| SpeaEngine.Spea2.FillScan | spea.h:462-470 | the fill loop ends with the fill invariant at the limit and the multiset kept |
| SpeaEngine.Spea2.ScanSlot | spea.h:463-468 | one slot of the scan: a candidate above 1 joins the archive, which grows by one, anything else is passed over; the fill invariant and the multiset are kept |
| SpeaEngine.Spea2.ClosestPair | spea.h:476-494 | `closest` is the first archive row holding a pair at the minimum distance |
| SpeaEngine.Spea2.ShrinkArchive | spea.h:471-501 | case B removes `arc_size - ARCSIZE` members, one closest-pair round at a time |
| SpeaEngine.Spea2.Truncation2 | spea.h:453-503 | case A below the archive size, case B at or above it; either way a permutation of the array |
| SpeaEngine.Spea2.EnvironmentSelection | spea.h:425-451 | the compaction leaves exactly `CompactionTo` of the old array: the selected slots gathered at the tail, the slots neither selected nor displaced in place; an exact fit stops there; otherwise case A or B follows on that arrangement; the whole is a permutation |
| SpeaEngine.Spea2.DensityCalc | spea.h:354-418 | prefix labels become positions; each row of the used square becomes a distance-sorted permutation of that row of the pair matrix; cells after the square keep their old contents |
| SpeaEngine.Spea2.ClearMatrix | spea.h:361-370 | the used square is zeroed and the prefix relabelled |
| SpeaEngine.Spea2.FillPairs | spea.h:372-384 | the pair loops write the symmetric matrix |
| SpeaEngine.Spea2.StorePair | spea.h:378-381 | one pass writes cell `(i, j)` as `j` at their distance and its mirror `(j, i)` as `i` at the same distance, nothing else |
| SpeaEngine.Spea2.SortMatrixRows | spea.h:398-401 | each row `i < POPSIZE` of the used square becomes a distance-sorted permutation of its old row, in any order among equal distances; cells after the square stay |
| SpeaEngine.Spea2.GetDensity | spea.h:420-423 | the density read at column `kth` of row `i` is `1 / (dist + 2)`, in `(0, 1/2]` |
| SpeaEngine.Spea2.FitnessAssign | spea.h:313-352 | every prefix slot's fitness becomes raw fitness plus density; other slots stay |
| SpeaEngine.Spea2.StrengthLoop | spea.h:319-330 | prefix fitness is reset to 0 and every strength is counted |
| SpeaEngine.Spea2.RawLoop | spea.h:333-340 | prefix fitness becomes the summed strengths of its dominators |
| SpeaEngine.Spea2.DensityLoop | spea.h:342-344 | the density is added to each prefix slot |

## Left out

- NsgaEngine.Quotient: when every member of a front has the same value of
  an objective, the spread is zero. The source then computes 0/0, which is
  NaN in `double` and turns every inner crowding distance of that front into
  NaN. The model adds 0 instead.
- NsgaEngine.Nsga2.CrowdingDistance states the two ends of the front and that
  the members are only reordered. It does not state the value of an inner
  member's crowding distance as a closed form.
- SpeaEngine.ArchiveFilled covers only generations in which the scanned prefix
  is the whole array. In the first generation the compaction exchanges
  individuals of the slots `[POPSIZE, all_pop)`, whose fitness
  `fitnessAssign` never set, into the prefix that case A scans. The archive
  may then end with fewer than `ARCSIZE` members. `CaseACount` gives its size.
- MultiObjective.Distance: `distanceCalc` returns the square root of the sum.
  The model keeps the sum of squares (`SquaredSum`). The square root is
  monotone, so the comparisons in `truncation2` and the row sorts in
  `densityCalc` order pairs identically. That holds for comparisons between
  two pairs only: the first comparison in `truncation2` is against `DBL_MAX`,
  which the model compares with the squared sum. Over the reals, a pair whose
  squared distance lies in `[DBL_MAX, DBL_MAX^2)` is found by the source and
  not by the model; in `double` arithmetic neither finds it. The density value `1 / (d + 2)` is
  computed from the squared distance, not the square root.
- MultiObjective.DistanceZero states only that equal vectors are at distance
  zero. The converse, that a zero distance means equal vectors, needs facts
  about squares of reals that the model does not prove.
- Real arithmetic stands for 64-bit `double`. Rounding, infinities and NaN are
  not modelled. `DBL_MAX`, the starting value of `min_dist`, is written out as
  its exact decimal value, 2^1024 - 2^971.
- `rand()` draws in `binary_tournament` are parameters of `BinaryTournament`.
  The retry loop that makes them distinct becomes a precondition.
- The `fitness` field of NSGA-II members is modelled as an `int`. The source
  stores whole numbers in a `double`.
- Recombination, mutation, initialisation, `repair`, the print functions, the
  `DEBUG` blocks and the `run` drivers are not part of this model. The one
  exception is the widening `POPSIZE = POPSIZE + ARCSIZE` (`Widen`).
- The file tokenizer, `atof` and console output of `filter` are left out.
  `Filter` takes the parsed points and returns the indices it would print.
- `compareByFitness`, `compareByObjective` and `GenericIndividual` live in
  files that are not part of this model. `compareByFitness` is taken as
  "smaller fitness first", and `compareByObjective(o)` as "smaller value of
  objective `o` first" (`ObjectiveLess`). `GenericIndividual::assign` is
  taken to copy every field and return true.
- Memory management is not modelled: `new`/`delete`, the temporary copy in
  `changePos`, and destructors. Individuals are values inside arrays, so
  `changePos` is modelled as an exchange of values, not of pointers.
- `problem_info.h` (objective count and signs) becomes the `signs` parameter.
- SpeaEngine.Spea2.GetDensity requires the cell `i * POPSIZE + kth` to exist.
  The source reads it unchecked.
- SpeaEngine.Spea2.EnvironmentSelection and SpeaEngine.Spea2.Truncation2 return
  their intermediate states as ghost outputs: `mid` after the compaction,
  `sorted` after the sort of case A, and the round trace of case B. The
  trace states the outcome of each removal round. It does not give a closed
  form for the final archive.
