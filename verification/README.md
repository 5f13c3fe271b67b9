# Skill-planning engine, modelled in Dafny

This project models the planning core of a small skill-development planner. The planner works on a registry of skills (`HABILIDADES_MESTRE`). Each skill has a time (`Tempo`), a value (`Valor`), a complexity (`Complexidade`) and a list of prerequisite ids (`Pre_Reqs`). Over that registry the core does the following:

- **Registry** (`data.py`): the shipped twelve-skill catalog, the five critical skills, the base skills (those without prerequisites) and record lookup.
- **Graph validation** (`src/graph_utils.py`):
  - builds the prerequisite graph;
  - collects every orphaned prerequisite id;
  - runs a depth-first search with a visited set, a recursion-stack set and a path, and reports a cycle as a slice of the path;
  - runs the orphan check before the cycle check.
- **Challenge 1** (`src/challenge_1.py`): the prerequisite closure of a skill, with its value, time and complexity summed once per distinct skill. The closure of the target `S6` is then judged against the ceilings of 350 time units and 30 complexity units.
- **Challenge 2** (`src/challenge_2.py`):
  - prices an acquisition order: each skill's time, plus a wait for every prerequisite not yet acquired;
  - scores every permutation of the critical skills;
  - ranks the scores with a stable sort and reports the three cheapest, with their summed cost divided by 3 as the average.
- **Challenge 3** (`src/challenge_3.py`): among the base skills, compares two ways of reaching a value of 15:
  - a greedy pass in decreasing value-per-time order;
  - an exhaustive search over all non-empty combinations for the least time, ties going to the higher value.

  The comparison reports a counterexample whenever the two disagree.
- **Challenge 4** (`src/challenge_4.py`): the hand-written merge sort. The catalog is sorted by complexity with it and cut into two sprints after six skills.
- **Challenge 5** (`src/challenge_5.py`): a look-ahead recursion that picks the available skill maximising its market-weighted value plus the best value reachable with one step fewer. A driver loop turns it into at most three recommendations.

## How the model is built

- **Data.** The registry is an ordered sequence of `(id, record)` entries, in dictionary insertion order.
  - Functions take the catalog as a parameter, where the source reads the global dictionary.
  - Lookups follow `dict.get`: the first entry with the id, `None` when absent.
  - Display names and usage tags are not modelled.
- **Errors** are values. Specifically:
  - validation yields `Fail(Orphaned(ids))` or `Fail(Cyclic(path))`;
  - a `KeyError` or `ZeroDivisionError` that the source would raise becomes a `Failure` naming the offending id.
- **Numbers.**
  - Ratios, market weights and averages are exact `real`s.
  - `float('inf')` is `None`.
  - Integer attributes are unbounded but non-negative `nat`s. The shipped attributes are positive (`Shipped.MasterWellFormed`), so nothing shipped is lost. A registry with a negative `Tempo`, `Valor` or `Complexidade` is not representable, although Python would accept one.
- **Sorting.** Python's stable `list.sort`/`sorted` are modelled by the project's own stable merge sort. `Sorting.StableSortIsMergeSort` proves that any stable sort produces the same list, so the choice of algorithm does not matter.
- **Strings.** Python's string order, used to sort the state tuples of challenge 5, is `Recommend.StrLe`: lexicographic by code point, a proper prefix first.
- **The closure recursion** terminates through an explicit rank that decreases along every prerequisite edge (`Registry.ValidRank`). The shipped catalog's rank is `Shipped.MasterRank`.
- **The cycle search** carries one piece of ghost-like bookkeeping the source lacks: the order in which nodes finish. It is used to prove that a search that completes certifies acyclicity.
- **The recommender's successor state.**
  - The model inserts the new id into the current sorted tuple.
  - The source sorts the set of the current tuple plus the new id, which also drops duplicates.
  - `Recommend.DpDependsOnSet` shows that the answer depends only on the set of ids, so the two agree. It also shows that the memo key is sound.

## Model

| member | source | states |
|---|---|---|
| Registry.Lookup | data.py:40-42 | An id yields `None` exactly when it is not a key. Otherwise the record returned is one stored under that id. |
| Registry.LookupEntry | data.py:7-20 | In a registry with unique keys, looking up the id of any entry returns that entry's record. |
| Registry.BaseSkills | data.py:32-38 | The base skills appear in insertion order (a subsequence of the keys), and an id is among them iff it names an entry with an empty prerequisite list. |
| Registry.SumOverUnion | src/challenge_1.py:57-65 | Summing an attribute over two disjoint id sets is summing over their union, so no skill is counted twice. |
| Registry.SumOverSingleton | src/challenge_1.py:44-46 | With unique keys, the sum over a single known id is that skill's own attribute. |
| Shipped.MasterWellFormed | data.py:7-22 | The shipped registry satisfies five facts. Its ids are unique. Every prerequisite is a key. Every time, value and complexity is positive. Every critical id is a key. A rank decreases along every prerequisite edge, so the relation is acyclic. |
| Shipped.MasterBaseSkills | data.py:32-38 | The shipped base skills are S1, S2, S7, H10, H12, in that order. |
| Shipped.MasterLookup | data.py:40-42 | `S3` yields its record (time 100, value 7, complexity 8, requires S1). The unknown id `S99` yields `None`. |
| Graph.BuildGraph | src/graph_utils.py:12-20 | The graph has one node per registry entry, in order, each carrying its prerequisite list unchanged. |
| Graph.BuildGraphNeighbors | src/graph_utils.py:19 | With unique keys, the graph's keys are exactly the registry's keys. Each id's outgoing edges are its prerequisite list, and an unknown id has none, as with `graph.get(node, [])`. |
| Graph.NeighborsInNodes | src/graph_utils.py:34 | A non-key has no outgoing edges. A key's edges are its own node's list, and every neighbour lies in the searchable universe. |
| Graph.CheckOrphans | src/graph_utils.py:67-80 | The orphan scan passes iff every prerequisite of every node is in `all_skills`. A failure carries the complete, non-empty set of missing ids. |
| Graph.Orphans | src/graph_utils.py:71-75 | The collected set holds exactly the ids named as a prerequisite somewhere and absent from `all_skills`. |
| Graph.PushInv | src/graph_utils.py:30-32 | Entering an unvisited neighbour of the path's last node keeps the search invariant. The invariant says: the recursion stack is the set of path nodes, the path is a simple chain of edges, and visited is the stack plus the finished nodes. |
| Graph.PopInv | src/graph_utils.py:45-46 | Leaving a node after all its prerequisites are finished keeps the invariant. It restores the caller's stack and path exactly, and the node becomes finished. |
| Graph.BackEdgeCycle | src/graph_utils.py:39-43 | A neighbour found on the recursion stack closes a cycle. The slice of the path from that neighbour's index is a chain of prerequisite edges whose last node lists the first, with no repeats. |
| Graph.Dfs | src/graph_utils.py:22-47 | One search either returns normally or raises. A normal return keeps the invariant, restores the stack and path, only grows the visited and finished sets, and finishes the start node. A raise reports a simple directed cycle. |
| Graph.Visit | src/graph_utils.py:34-43 | The loop over a node's prerequisites keeps the invariant, leaves the caller's stack and path as it found them, and finishes every prerequisite. Any cycle it raises is a simple directed cycle. |
| Graph.CheckFrom | src/graph_utils.py:57-63 | Starting a search from every unvisited key in graph order either finishes every key with an empty stack or raises a simple cycle. |
| Graph.TopoAcyclic | src/graph_utils.py:49-65 | A duplicate-free finished order that contains every key, with every neighbour finished before its node, rules out every cycle. |
| Graph.CheckCycles | src/graph_utils.py:49-65 | The cycle check returns normally iff the graph has no directed cycle at all. When it raises, the reported path is a simple directed cycle. |
| Graph.Validate | src/graph_utils.py:82-96 | Validation passes iff there is no orphan and no cycle. An orphan failure is reported iff some prerequisite is missing, so it takes precedence over a cycle. It names exactly the ids that are required but not keys. A cycle failure carries a simple cycle. |
| Graph.RankAcyclic | data.py:8-13 | A rank that strictly decreases along every known prerequisite edge leaves the graph acyclic. |
| Graph.MasterValid | src/graph_utils.py:82-96 | The shipped registry passes validation. |
| Graph.MutualPrerequisitesFail | src/graph_utils.py:34-43 | With A requiring B and B requiring A, validation fails with a cycle containing both A and B. |
| Graph.MissingPrerequisiteFails | src/graph_utils.py:67-80 | A skill requiring the unknown id `Z` makes validation fail, naming exactly `{Z}`. |
| Closure.Closure | src/challenge_1.py:25-70 | An unknown id gives (0, 0, 0, ∅). A known id is in its own set, and the set holds only keys. Each total is the attribute summed over the distinct skills of the set, each once. |
| Closure.Absorb | src/challenge_1.py:57-68 | Merging a prerequisite's result adds only the skills new to the path. The set becomes the union and the totals remain the sums over it. |
| Closure.FoldSkills | src/challenge_1.py:55-68 | The loop's final set is its starting set joined with the closures of the remaining prerequisites. |
| Closure.ClosureBase | src/challenge_1.py:44-46 | A known skill without prerequisites yields its own value, time and complexity and the set holding only itself. |
| Closure.ClosureUnion | src/challenge_1.py:52-68 | The closure of a known skill is itself plus the union of its direct prerequisites' closures. |
| Closure.ClosureClosed | src/challenge_1.py:55-68 | In an orphan-free registry, every prerequisite of a closure member is itself a member. |
| Closure.ClosureMinimal | src/challenge_1.py:25-70 | The closure lies inside every prerequisite-closed set containing the skill, so it is the least such set. |
| Closure.ClosureOfS3 | src/challenge_1.py:44-70 | In the shipped registry S3 yields value 10, time 180, complexity 12 and set {S1, S3}. |
| Closure.ClosureOfS6 | src/challenge_1.py:25-70 | Any registry carrying the shipped records of S1, S3, S4 and S6 gives S6 value 28, time 450, complexity 31 and set {S1, S3, S4, S6}. |
| Closure.Decide | src/challenge_1.py:104-119 | The status is a failure exactly when the time exceeds 350 or the complexity exceeds 30. A failure reports value 0, a success the accumulated value. Time, complexity and path are reported unchanged either way. |
| Closure.SolvePath | src/challenge_1.py:101-119 | The plan is feasible iff the target's closure keeps within both ceilings. A feasible plan carries the closure's value and a failed one 0. Both carry the closure's time, complexity and skill set as the path. |
| Closure.MasterPlanFails | src/challenge_1.py:104-111 | On the shipped data S6 exceeds the time ceiling (450 > 350). The result is a failure with value 0, time 450, complexity 31 and path {S1, S3, S4, S6}. |
| Ordering.Missing | src/challenge_2.py:36 | The missing prerequisites keep list order. An id is missing iff it is a prerequisite that has not been acquired. |
| Ordering.WaitTimeMeaning | src/challenge_2.py:39 | The wait is defined iff every missing id is a key, and then it is their total time. Otherwise it fails on the first unknown id, as the `KeyError` would. |
| Ordering.AcquisitionCost | src/challenge_2.py:11-45 | The loop with its acquired set and two running sums computes exactly the order's cost. |
| Ordering.CostFromUnknown | src/challenge_2.py:28-30 | An id without a record is skipped: it adds nothing and is not acquired. |
| Ordering.CostFromKnown | src/challenge_2.py:32-43 | A known id adds its time plus its wait to the cost and its wait to the total wait. It is then acquired even if its prerequisites were missing. |
| Ordering.CostIsWaitPlusTime | src/challenge_2.py:41-42 | The total cost is the total wait plus the time of the known skills of the order. |
| Ordering.CostFailsOnlyOnOrphans | src/challenge_2.py:39 | A failure names an id that some skill requires but that is not a key. An orphan-free registry never fails. |
| Ordering.PrereqsFirstNoWait | src/challenge_2.py:36-41 | An order placing every prerequisite before its dependent waits for nothing and costs its total time. |
| Ordering.NoWaitPrereqsFirst | src/challenge_2.py:36-41 | With positive times, an order that waits for nothing places every prerequisite first. |
| Ordering.LatePrerequisitePaidTwice | src/challenge_2.py:36-43 | For skills `a` and `b` where `b` requires only `a`, `[a, b]` costs both times with no wait. `[b, a]` pays `a`'s time twice: once as a wait and once on acquisition. |
| Ordering.ShippedLatePrerequisite | src/challenge_2.py:27-45 | On the shipped data `[S1, S3]` costs (180, 0) and `[S3, S1]` costs (260, 80). |
| Enumeration.PermsExactly | src/challenge_2.py:64 | The permutations are exactly the rearrangements of the critical list, `n!` of them. |
| Enumeration.CombsCount | src/challenge_3.py:61 | There are `C(n, k)` combinations of size `k`. |
| Enumeration.CombsExactly | src/challenge_3.py:61 | The size-`k` combinations are exactly the length-`k` subsequences of the base list. |
| Ranking.ScoreMeaning | src/challenge_2.py:68-75 | Scoring succeeds iff every order's cost does. Row `i` is order `i` with its own cost and wait. A failure is the first failing order's id. |
| Ranking.TopThreeShape | src/challenge_2.py:77-81 | The report holds `min(3, n)` of the rows in non-decreasing cost. |
| Ranking.TopThreeCheapest | src/challenge_2.py:77-81 | The first reported row is no dearer than any row. Any row strictly cheaper than the last reported one is reported. |
| Ranking.MeanBounds | src/challenge_2.py:84 | The mean of the reported costs lies between their least and greatest. |
| Ranking.IntendedAverageBounds | src/challenge_2.py:77-84 | The corrected report lists the same orders as the source's, with an average between the cheapest and the dearest reported cost. |
| Ranking.ThreeAverageIsMean | src/challenge_2.py:84 | With three reported orders, dividing by 3 gives the mean. |
| Ranking.ShortAverageTooLow | src/challenge_2.py:84 | With fewer than three reported orders and a positive cost, dividing by 3 falls below the mean. |
| Ranking.SolveFailsOnlyOnValidation | src/challenge_2.py:55-61 | A validation failure is returned as is, before any order is scored. A passed validation always yields a report. |
| Ranking.SolveReport | src/challenge_2.py:47-92 | The report counts `n!` orders and lists `min(3, n!)` of them, cheapest first. Each is a rearrangement of the critical skills shown with its own cost and wait. |
| Ranking.SolveOptimal | src/challenge_2.py:64-81 | The first reported order is optimal among all rearrangements. Any rearrangement strictly cheaper than the last reported one is reported. |
| Ranking.FiveCritical | src/challenge_2.py:63-84 | With five critical skills on a valid registry there are 120 orders and three are reported, and the reported average (the sum over 3) is their mean. |
| Ranking.ShippedReport | src/challenge_2.py:63-84 | On the shipped data there are 120 orders, three are reported, and the reported average is their mean. |
| Ranking.LoneCritical | src/challenge_2.py:84 | A lone critical skill without prerequisites is reported alone, costing its time. The reported average is a third of that time, while the mean is the time itself. |
| Ranking.ShippedLoneCritical | src/challenge_2.py:84 | With S1 as the only critical skill the reported average is 80 / 3, while the mean is 80. |
| Coverage.ScreenMeaning | src/challenge_3.py:22-29 | The ratio comprehension succeeds iff every base id is a key with positive time. Otherwise it stops on the first offender and says whether that offender is unknown (`KeyError`) or has zero time (`ZeroDivisionError`). |
| Coverage.GreedyOrderMeaning | src/challenge_3.py:31-32 | The greedy order rearranges the base skills by non-increasing value per time. Skills with equal ratios keep their base order. |
| Coverage.CutMeaning | src/challenge_3.py:38-42 | Every prefix shorter than the cut is below 15. The cut prefix reaches 15 unless the order ran out. |
| Coverage.GreedyIsPrefix | src/challenge_3.py:13-44 | Greedy succeeds iff the ratios can be computed. Its path is then the shortest prefix of the greedy order that reaches 15, or the whole order, and its value and time are the sums over that path. |
| Coverage.GreedyReaches | src/challenge_3.py:38-42 | If the base skills together reach 15, greedy reaches 15. Removing its last pick drops it below 15. |
| Coverage.GreedyPart | src/challenge_3.py:34-42 | The greedy path uses each base skill at most as often as the base list does. |
| Coverage.TotalMultiset | src/challenge_3.py:63-64 | A sum of values or times depends only on which ids are summed, not on their order. |
| Coverage.CandidatesExactly | src/challenge_3.py:59-61 | The enumerated candidates are exactly the non-empty subsequences of the base list. |
| Coverage.ScanLeast | src/challenge_3.py:66-75 | The search result is no slower than any qualifying candidate. At equal time it has at least that candidate's value. |
| Coverage.ScanFound | src/challenge_3.py:66-75 | A finite result is a qualifying candidate reported with its own value and time. Among candidates with that same time and value, it is the first enumerated. An infinite result is `([], 0, inf)`. |
| Coverage.FirstUnknownMeaning | src/challenge_3.py:63 | The search fails iff some base id is unknown, and then names one. |
| Coverage.ExhaustiveOptimal | src/challenge_3.py:46-77 | The result is either `([], 0, inf)` or a non-empty qualifying selection of base skills with its own sums. No qualifying selection is faster, or equally fast with more value. |
| Coverage.ExhaustiveNone | src/challenge_3.py:54-56 | When no non-empty selection reaches 15, the search reports `([], 0, inf)`. |
| Coverage.GreedyNeverFaster | src/challenge_3.py:79-112 | The comparison runs iff the greedy ratios can be computed. "Greedy is optimal" holds iff the two times are equal, and a counterexample is present iff it does not hold. When greedy reaches 15, the optimum is never slower. |
| Coverage.BaseSkillsCompare | src/challenge_3.py:84-91 | With positive attributes, the comparison over the registry's base skills always runs. |
| Coverage.GreedyCanLose | src/challenge_3.py:94-103 | Take base skills with (time, value) of (10, 14) and (12, 15). Greedy takes both, for time 22. The optimum needs at most 12, and the counterexample is reported. |
| Coverage.GreedyLosesOnPair | src/challenge_3.py:94-103 | A concrete two-skill registry on which greedy is not optimal and the counterexample is reported. |
| Sorting.MergeLoop | src/challenge_4.py:29-44 | The two-cursor loop with its final `extend`s produces exactly the merge of the two runs, of length `len(left) + len(right)`. |
| Sorting.MergePermutes | src/challenge_4.py:29-44 | The merge is a rearrangement of the two runs together. |
| Sorting.MergeSorted | src/challenge_4.py:34-43 | Merging two runs sorted by key gives a run sorted by key. |
| Sorting.MergeStable | src/challenge_4.py:35-37 | Because ties go to the left run (`<=`), the elements of each key appear as the left run's, then the right run's, each in order. |
| Sorting.MergeSort | src/challenge_4.py:17-26 | The result is a rearrangement of the input, sorted by key, with the elements of each key in input order. An input of length at most one is returned unchanged. |
| Sorting.StableSortUnique | src/challenge_4.py:76-84 | Two key-sorted sequences that keep each key's elements in the same order are equal. |
| Sorting.StableSortIsMergeSort | src/challenge_4.py:76-84 | Any key-sorted arrangement of the input that keeps each key's elements in input order is exactly the merge sort of the input. |
| Sprints.Dataset | src/challenge_4.py:61-68 | There is one row per registry entry, in insertion order, carrying its id and complexity. |
| Sprints.PlanSprintsMeaning | src/challenge_4.py:76-90 | Sprint A followed by sprint B is the sorted list, and sprint A holds `min(6, n)` skills. The list is a rearrangement of the rows, sorted by complexity, with ties in insertion order. No skill of sprint A is harder than any skill of sprint B. |
| Sprints.SplitOrdered | src/challenge_4.py:89-90 | Cutting a complexity-sorted list leaves nothing in the front part harder than anything behind it. |
| Sprints.NativeSortAgrees | src/challenge_4.py:84 | Python's stable `sorted` by complexity returns the same list as the merge sort. |
| Sprints.SprintsCoverCatalog | src/challenge_4.py:89-90 | Every registry row lands in one of the two sprints. |
| Sprints.ShippedSprints | src/challenge_4.py:89-90 | The twelve shipped skills split six and six. |
| Recommend.StrLeTotal | src/challenge_5.py:68 | Any two strings are comparable under Python's string order. |
| Recommend.StrLeAntisymmetric | src/challenge_5.py:68 | Strings that are each at most the other are equal. |
| Recommend.StrLeTransitive | src/challenge_5.py:68 | Python's string order is transitive. |
| Recommend.InsertFacts | src/challenge_5.py:68 | Inserting an id into a sorted tuple gives a sorted tuple with exactly that id more, one element longer. |
| Recommend.InsertDistinct | src/challenge_5.py:68 | Inserting a new id into a duplicate-free sorted tuple keeps it duplicate-free. |
| Recommend.InsertIsSorted | src/challenge_5.py:68 | Any sorted arrangement of the tuple's ids plus the new one is the insertion result, so insertion is what `sorted` returns. |
| Recommend.SortedUnique | src/challenge_5.py:97 | Two sorted arrangements of the same ids are equal. |
| Recommend.SortIdsFacts | src/challenge_5.py:97 | The starting tuple is a sorted arrangement of the profile. |
| Recommend.AvailableMeaning | src/challenge_5.py:16-25 | The available ids appear in registry order. An id is available iff it names an entry that is not acquired and whose prerequisites are all acquired. |
| Recommend.AvailableFresh | src/challenge_5.py:23 | An available id is never one already acquired. |
| Recommend.DpMeaning | src/challenge_5.py:41-84 | With no steps left, or nothing available, the answer is (0, None). Otherwise the value is at least every candidate's expected value. A named skill is the first candidate reaching that value. Naming nothing leaves the starting -1. |
| Recommend.ScanWitness | src/challenge_5.py:58-82 | The strict-`>` loop either keeps its starting answer or ends on the first candidate reaching the final value, which exceeds the starting value. |
| Recommend.DpNonNegative | src/challenge_5.py:51-84 | With non-negative weights the value is never negative. A skill is named iff a step remains and something is available. |
| Recommend.DpDependsOnSet | src/challenge_5.py:45-68 | Two sorted tuples holding the same set of ids give the same answer, so the memo key is sound. |
| Recommend.DpOptimal | src/challenge_5.py:27-84 | With non-negative weights, the value is at least the total weighted value of every plan that acquires at most `steps` available skills in turn. |
| Recommend.DpAchieved | src/challenge_5.py:27-84 | With non-negative weights, some plan of at most `steps` skills, each available in turn, is worth exactly the value. |
| Recommend.ChosenStep | src/challenge_5.py:58-84 | A named skill is available. The value is its weighted value plus the answer one step later from the state with that skill added, and that state is sorted with exactly one more id. |
| Recommend.ExpectedAtMost | src/challenge_5.py:78-82 | Acquiring any available skill now is worth at most the answer. |
| Recommend.UnnamedStep | src/challenge_5.py:123-128 | With non-negative weights and non-empty ids, a call that names nothing answers 0. |
| Recommend.DriveShape | src/challenge_5.py:115-128 | From any step the loop recommends at most the remaining number of skills, each available when its turn comes. |
| Recommend.DriveStops | src/challenge_5.py:123-128 | The loop stops early only on a call that names nothing, and then reports that call's value. |
| Recommend.DrivePlanValue | src/challenge_5.py:115-128 | With non-negative weights and no empty id, the recommended skills are worth exactly the first call's value over the remaining steps. |
| Recommend.DriveReported | src/challenge_5.py:117-135 | With non-negative weights and no empty id, the reported value is 0 after an early stop, and otherwise the last skill's own weighted value. |
| Recommend.LastCallGain | src/challenge_5.py:117-121 | With one step left, a named skill's answer is its own weighted value. |
| Recommend.StartStateFacts | src/challenge_5.py:94-97 | The start state is sorted and holds the given profile's ids, or S1 and S2 when no profile is given. |
| Recommend.SolveRecommendMeaning | src/challenge_5.py:86-136 | At most three skills are recommended. Each is available at its step, all are distinct, and none is in the profile. The loop stops early only on a call that names nothing. |
| Recommend.SolveRecommendOptimal | src/challenge_5.py:110-128 | With non-negative weights and no empty id, the recommended skills are worth the first call's value. That is as much as any plan of at most three skills acquirable in turn from the profile. |
| Recommend.SolveRecommendReported | src/challenge_5.py:112-135 | With non-negative weights and no empty id, the reported value as written is 0 after an early stop, and otherwise only the last recommended skill's weighted value. |
| Recommend.LoneSkillReportsZero | src/challenge_5.py:117-135 | One skill with no prerequisites and an empty profile: the skill is recommended and the report says 0. The intended report is the skill's value. |
| Recommend.MarketWeightsNonNegative | src/challenge_5.py:100-105 | The shipped market weights are all non-negative. |
| Recommend.MasterNamed | data.py:7-20 | No shipped skill id is empty, so the driver's truth test on a recommended id never stops it. |
| Recommend.ShippedRecommendation | src/challenge_5.py:86-136 | The program's own run (shipped registry, shipped weights, default profile S1 and S2) meets both hypotheses above. Its recommendations are worth at least any plan of at most three skills acquirable from S1 and S2. The reported value is the last call's. |

## Left out

- Rendering: `src/visual_utils.py`, `plot_cost_comparison` and `plot_greedy_vs_optimal` are matplotlib drawing and base64 output.
- Monte Carlo: `_simulate_scenario` and the numpy mean and deviation in `solve_challenge_1` rely on random sampling and floating-point statistics.
- Benchmarks: the `time.perf_counter` timings in `solve_challenge_4` read a wall clock.
- Memoisation: `lru_cache` and `cache_clear` are an optimisation of pure functions. The recursions are modelled directly, and `Recommend.DpDependsOnSet` shows the cache key carries everything the answer depends on.
- Globals: `validate_graph`, `find_optimal_path_set` and `dp_recommendation` read the global registry. In the model the registry is a parameter, and the shipped one is `Shipped.Master`.
- Text:
  - exception messages, status strings and result-dictionary keys;
  - the heuristic and complexity remarks;
  - the `HORIZONTE_ANOS` horizon label;
  - the display name (`Nome`) and usage tag (`Uso`).
- Floating point: ratios, weights and averages are exact reals. `float('inf')` is `None`.
- Duplicate work: `solve_challenge_2` computes each order's cost twice, once per dictionary field. The two calls agree, so one is modelled.
- The sorted path: the path of `solve_challenge_1` is kept as a set; the source sorts it for display.
- Closure.Closure: it requires a rank that decreases along every prerequisite edge. On a cyclic registry the source would recurse without bound.
- Recommend.DpOptimal: stated for non-negative market weights, and skill values are non-negative by type. With a negative weight or a negative `Valor` (which Python would accept), a plan that stops early can be worth more than any plan the recursion considers. The same hypotheses carry over to `DpNonNegative`, `DpAchieved`, `DrivePlanValue` and `SolveRecommendOptimal`. The shipped run meets them (`Recommend.ShippedRecommendation`).
- Recommend.UnnamedStep: stated for registries without an empty id. The source's truth test also stops on an empty id, which the model keeps but does not characterise further.

## Findings

| source | as written | input that shows it | evidently intended | confidence | as-written member | corrected member |
|---|---|---|---|---|---|---|
| src/challenge_2.py:84 | The average of the reported costs divides their sum by 3, however many orders are reported. | One critical skill, S1: one order, costing 80. The reported average is 80 / 3. | Divide by the number of reported orders. The result is 80 here, and equals the divide-by-3 average whenever three are reported. | medium, not executed | Ranking.ShippedLoneCritical | Ranking.IntendedAverageBounds |
| src/challenge_5.py:117-135 | `max_expected_value` is overwritten by every call of the loop. The reported "maximum expected value" is that of the last call: 0 after an early stop, otherwise only the last skill's own weighted value. | A registry with one skill (no prerequisites, value `v > 0`) and an empty profile. The skill is recommended and the reported value is 0. | Report the first call's value over the whole horizon. That equals the worth of the recommended skills, `v` here. | medium, not executed | Recommend.LoneSkillReportsZero | Recommend.SolveRecommendOptimal |
