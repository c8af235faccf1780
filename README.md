# Active components of a graph over time, in Dafny

The system studies a static undirected graph G. At every time step t, some of its nodes are active. An *active component* at t is a connected component of the subgraph induced by the nodes active at t.

- The input is a node × time 0/1 activity matrix.
- The reference finder, POC/FindActivePaths.py, runs a breadth-first search from each still-unexplored active node.
- A design sketch, POC/FindActivePathsImproved.py, proposes maintaining the components incrementally from one step to the next.
- Several generator scripts produce synthetic test data:
  - random walks over G;
  - time intervals for the walks;
  - a per-step "time map" of walks;
  - the activity matrix filled from them;
  - the per-step graphs and components obtained by removing inactive nodes.
- A validator compares a finder's output file with the synthetic data, step by step, ignoring order.
- A heavy-hitter demo labels an edge active when both its ends share a heavy-hitter value.

This project models those parts and proves what they promise.

| module (file) | models |
|---|---|
| `Wrappers` (wrappers.dfy) | the exceptions the code can raise, as `Result`/`Option` |
| `Graphs` (graph.dfy) | the graph as `map<int, seq<int>>`; paths, reachability, closed and connected sets, components, partitions |
| `FindActivePaths` (find_active_paths.dfy) | `getActiveNodesList` and the BFS loops of `generateActivePaths` |
| `Incremental` (incremental.dfy) | the three delta sets and a component-maintainer class applying them |
| `Intervals` (intervals.dfy) | `str`/`int`/`split(',')`, the `"start,end"` encoding, `assignTimeSteps` |
| `RandomWalks` (random_walk.dfy) | `randomWalk` (stopping and backtracking variants), `generateRandomWalks` |
| `TimeMaps` (time_map.dfy) | `listByTime` |
| `Schedules` (schedule.dfy) | `generatePaths` |
| `ActivityMatrix` (activity_matrix.dfy) | the three `genInputFile` matrix fills |
| `ActiveGraphs` (active_graphs.dfy) | `remove_node`, the removal loops of `genActiveGraphs` and `aggregateRandomWalks`, the size sort |
| `Pipeline` (pipeline.dfy) | the tail of `main` in POC/RandomWalksGenerator.py: `listByTime`, `aggregateRandomWalks` and the `genInputFile` fill from the aggregate map |
| `OutputTest` (output_test.dfy) | the line-driven validator of POC/tests/OutputTest.py |
| `HeavyHitters` (heavy_hitter.dfy) | `GetNodesDict`, `labelActivePaths`, the initial labelling, `genRandomStream` |

How the model represents the source:

- Loops in the source are `while`/`for` loops here, carrying their invariants.
- State that the source updates in place is a class, or an `array`/`array2`:
  - the maintainer: `Incremental.ComponentMaintainer`;
  - the labelled graph: `HeavyHitters.LabelledGraph`;
  - the numpy matrices and rows.
- Each loop is proved against a specification function, and the source's promises are lemmas about that function.
- Random choices are oracle parameters:
  - `coins: seq<bool>` for the continue-or-stop test, read as False once exhausted;
  - `choose`/`starts`/`draws: nat -> nat` for `random.choice`, `random.sample` and `random.randint`. A draw is taken modulo the range.
- Node ids are `int`. The source keeps them as `str(i)` in POC/FindActivePaths.py and POC/RandomWalksGenerator.py.
- Python dictionaries that are only built and then iterated in insertion order are sequences. Where that matters, the keys are proved distinct (`Schedules.ScheduleKeysDistinct`).

## Model

| member | source | states |
|---|---|---|
| FindActivePaths.ActiveNodesList | POC/FindActivePaths.py:187-206 | node i is in the returned set exactly when it is a row of the matrix and M[i, t] == 1; nothing else is added |
| FindActivePaths.Explore | POC/FindActivePaths.py:111-147 | one BFS from the pivot returns a set that contains the pivot, holds only active graph nodes, is closed under active neighbours, and has every member reachable from the pivot inside it; the active set left is the old one minus exactly that set; a neighbour query on a non-node fails with that node |
| FindActivePaths.ExploredKnown | POC/FindActivePaths.py:144 | the node at the head of the queue is visited and still in the active set, so `activeNodesList.remove(currentNode)` never fails |
| FindActivePaths.ExploredAdvance | POC/FindActivePaths.py:143-147 | removing the dequeued node from the active set and popping it keeps the BFS invariant: dequeued nodes are exactly the processed prefix of the visiting order, and their active neighbours are visited |
| FindActivePaths.ExploredDone | POC/FindActivePaths.py:120-147 | when the queue is empty, the visited set is closed under active neighbours, reachable from the pivot, and is exactly what left the active set |
| FindActivePaths.VisitNeighbours | POC/FindActivePaths.py:128-141 | after the neighbour loop every active neighbour of the current node is visited; the visiting order stays duplicate-free and the queue is a suffix of it, so no node is enqueued twice |
| FindActivePaths.VisitEnqueue | POC/FindActivePaths.py:136-141 | appending an active unvisited neighbour to the queue and marking it visited keeps the neighbour-loop invariant |
| FindActivePaths.TrackedExtend | POC/FindActivePaths.py:137-141 | a newly enqueued neighbour is reachable from the pivot by the path to the current node plus one edge |
| FindActivePaths.FindActiveComponents | POC/FindActivePaths.py:109-153 | fails exactly when an active node is not a graph node; otherwise the components are pairwise disjoint connected components whose union is the active set; an empty active set gives an empty list |
| FindActivePaths.ProgressStep | POC/FindActivePaths.py:144-153 | appending a finished BFS result keeps every listed set a component of the whole active set and keeps the list pairwise disjoint |
| FindActivePaths.ProgressCover | POC/FindActivePaths.py:150-153 | every node removed from the active set lies in some listed component |
| FindActivePaths.SymmetricClosure | POC/FindActivePaths.py:125-130 | in an undirected graph, if y is in a closed set and y is a neighbour of an active node x, then x is in the set too |
| FindActivePaths.ClosedAgainstEarlier | POC/FindActivePaths.py:128-141 | a BFS result closed within the remaining active nodes is closed in the whole active set, because earlier components are already closed |
| FindActivePaths.GenerateActivePaths | POC/FindActivePaths.py:90-153 | for every step t < TS, the list of column t's active components; succeeds exactly when every column's active nodes are graph nodes |
| FindActivePaths.StepsAdvance | POC/FindActivePaths.py:93-96 | one more step's component list keeps the per-step invariant of the outer loop |
| Graphs.ComponentNests | POC/FindActivePathsImproved.py:18-20 | a component of a smaller active set lies inside one component of any larger active set's partition |
| Graphs.PartitionUnique | POC/FindActivePathsImproved.py:30-31 | two partitions of one active set into components are equal as sets of sets, which is what makes "same answer as the baseline" well defined |
| Graphs.ListIsPartition | POC/FindActivePaths.py:150-153 | a component list gives a partition of the active set |
| Graphs.SameComponentIffReach | POC/FindActivePaths.py:120-141 | y is in x's component exactly when y is reachable from x through active nodes |
| Incremental.DeltaSets | POC/FindActivePathsImproved.py:18-28 | stable, deactivated and newly active sets are pairwise disjoint; stable ∪ deactivated = prev; stable ∪ newly active = curr; deactivated = prev \ curr; newly active = curr \ prev |
| Incremental.SubComponentLifts | POC/FindActivePathsImproved.py:19-20 | a component of what survives of an old component is a component of all surviving nodes |
| Incremental.SplitKeep | POC/FindActivePathsImproved.py:19-20 | an old component that loses no node is kept unchanged by the split phase |
| Incremental.SplitPieces | POC/FindActivePathsImproved.py:19-20 | an old component that loses nodes is replaced by the components of what is left of it, each inside it |
| Incremental.SplitDone | POC/FindActivePathsImproved.py:18-20 | after all old components are handled, the result partitions the surviving nodes, nests in the old partition, and keeps every untouched component |
| Incremental.SplitComponents | POC/FindActivePathsImproved.py:18-20 | removing setB gives the partition of prev \ setB; every new component lies inside an old one (removal only splits); untouched components survive |
| Incremental.MergeStep | POC/FindActivePathsImproved.py:26-28 | merging one connected new piece with the components it touches gives the partition of the active set enlarged by the piece, and every old component lies inside a merged one |
| Incremental.MergeCovers | POC/FindActivePathsImproved.py:26-28 | the merged components cover the old active nodes and the new piece |
| Incremental.MergeNests | POC/FindActivePathsImproved.py:26-28 | every component before a merge lies inside one after it (addition only merges) |
| Incremental.MergedClosed | POC/FindActivePathsImproved.py:26-28 | the piece joined with the components it touches is closed in the enlarged active set |
| Incremental.MergedConnected | POC/FindActivePathsImproved.py:26-28 | the piece joined with the components it touches is connected |
| Incremental.UntouchedStays | POC/FindActivePathsImproved.py:26-28 | a component the new piece does not touch stays a component of the enlarged active set |
| Incremental.MergeComponents | POC/FindActivePathsImproved.py:26-28 | adding setC gives the partition of the active set plus setC, and every old component lies inside a new one (addition only merges) |
| Incremental.MergeAdvance | POC/FindActivePathsImproved.py:26-28 | merging the next piece of setC's components keeps the merge loop's invariant |
| Incremental.MergeDone | POC/FindActivePathsImproved.py:26-28 | once all pieces are merged, the result partitions the active set plus setC and nests the old components |
| Incremental.ComponentMaintainer.constructor | POC/FindActivePathsImproved.py:10-14 | the initial state has no active nodes and no components, which is a valid partition |
| Incremental.ComponentMaintainer.RemoveDeactivated | POC/FindActivePathsImproved.py:18-20 | the state becomes the partition of the active set minus setB; components only split; untouched ones are kept |
| Incremental.ComponentMaintainer.AddNewlyActive | POC/FindActivePathsImproved.py:26-28 | the state becomes the partition of the active set plus setC; components only merge |
| Incremental.ComponentMaintainer.Advance | POC/FindActivePathsImproved.py:16-31 | one step to active set curr: refused, leaving the state alone, exactly when curr has a non-node; otherwise the maintained components equal, as a set of sets, those of every component list for curr, and so those of the naive finder |
| Incremental.FirstDisagreement | POC/FindActivePathsImproved.py:30-31 | stepping the maintainer and the BFS finder side by side along any sequence of active sets, they never disagree, either on failing or on the components |
| Intervals.ParseInt | POC/RandomWalksGenerator.py:232-233 | `int()` on a string: a string that parses is non-empty; a failure is a ValueError |
| Intervals.NatToStringDigits | POC/RandomWalksGenerator.py:211 | `str(n)` of a natural is a non-empty string of digits whose value is n |
| Intervals.IntRoundTrip | POC/RandomWalksGenerator.py:211-233 | `int(str(i)) == i` for every int, and `str(i)` holds no comma |
| Intervals.IntStringNoComma | POC/RandomWalksGenerator.py:211 | `str(i)` holds no comma |
| Intervals.Split | POC/RandomWalksGenerator.py:231 | `split(',')` returns at least one piece, and no piece holds the separator |
| Intervals.JoinSplit | POC/RandomWalksGenerator.py:231 | joining the pieces of a split with its separator rebuilds the string |
| Intervals.SplitAfter | POC/RandomWalksGenerator.py:231 | splitting "a,b", with a free of commas, gives a followed by the pieces of b |
| Intervals.SplitNone | POC/RandomWalksGenerator.py:231 | a string without the separator splits into itself |
| Intervals.SplitSingle | POC/RandomWalksGenerator.py:231-233 | `split(',')` gives a single piece exactly when the string holds no comma, and that piece is the string itself |
| Intervals.FormatInterval | POC/RandomWalksGenerator.py:211 | `str(startTime) + "," + str(endTime)` splits at its comma into exactly `str(startTime)` and `str(endTime)` |
| Intervals.ParseInterval | POC/RandomWalksGenerator.py:231-233 | `int(time[0])` is read before `time[1]`: a string without a comma fails, with IndexError(1) exactly when it is itself an int and ValueError otherwise; IndexError(1) arises only without a comma, and every other failure is ValueError |
| Intervals.StartTime | POC/RandomWalksGenerator.py:203 | `random.randint(1, maxTime)` lies in 1 .. maxTime |
| Intervals.IntervalRoundTrip | POC/RandomWalksGenerator.py:211-233 | the string `str(s) + "," + str(e)` parses back as `(s, e)` via `split(',')` and `int` |
| Intervals.ClampedInterval | POC/RandomWalksGenerator.py:195-209 | endTime = min(startTime + k, TS - 1) is at most TS - 1, equals startTime + k or TS - 1, and is not below startTime when k >= 0 |
| Intervals.FormattedIsDrawn | POC/RandomWalksGenerator.py:203-211 | the interval string written for a drawn start time reads back as the drawn, clamped interval |
| Intervals.DrawnIntervalBounds | POC/BaselineApp3.py:460-476 | a drawn interval reads back as `(lo, hi)` with 1 <= lo <= TS - 1, hi <= TS - 1, hi = lo + k or TS - 1, and lo <= hi when k >= 0 |
| Intervals.AssignTimeSteps | POC/RandomWalksGenerator.py:190-217 | one entry per walk, in order, named "RandomWalk_i" with the walk as path and a drawn clamped interval; randint on an empty range (TS < 2) raises ValueError exactly when there is a walk to stamp |
| Intervals.AssignAdvance | POC/BaselineApp2.py:417-432 | stamping one more walk (with k = 2 in this file) keeps the loop's invariant |
| RandomWalks.RemoveFirst | POC/RandomWalksGenerator.py:148-154 | `list.remove(x)` drops one occurrence of x and nothing else |
| RandomWalks.PickFrom | POC/RandomWalksGenerator.py:148-154 | the redraw loop ends with an unvisited candidate from the list, or with none exactly when every candidate is visited |
| RandomWalks.Pick | POC/RandomWalksGenerator.py:144-154 | `choice(neighbors)` then the redraw loop: an unvisited neighbour, or none exactly when every neighbour is visited; every draw takes a fresh oracle index |
| RandomWalks.WalkStop | POC/RandomWalksGenerator.py:130-167 | the stopping loop enters a body only on a True coin, uses no more coins than given, and only extends the path |
| RandomWalks.RandomWalkStop | POC/RandomWalksGenerator.py:113-172 | the loop returns the path of the step-by-step definition of the stopping walk on the same oracles |
| RandomWalks.StopExtend | POC/BaselineApp3.py:408-416 | moving to an unvisited neighbour keeps the walk a duplicate-free path whose stack is the walk itself |
| RandomWalks.StopFacts | POC/BaselineApp3.py:382-419 | the stopping loop keeps its invariant, entered only on True coins, and stops at a False or missing coin or at a dead end |
| RandomWalks.RandomWalkStopIsSimplePath | POC/RandomWalksGenerator.py:120-164 | the stopping walk starts at the chosen node, never repeats a node, and consecutive nodes are adjacent in G |
| RandomWalks.RandomWalkStopEnds | POC/RandomWalksGenerator.py:130-167 | the stopping walk ends at the first False or missing coin or at a node whose neighbours are all visited, whichever comes first |
| RandomWalks.RandomWalkBacktrack | POC/BaselineApp2.py:317-373 | the loop returns the path of the step-by-step definition of the backtracking walk, with `currentRandomNode = stack.pop()` as written |
| RandomWalks.BacktrackStep | POC/BaselineApp2.py:340-368 | one body either appends one unvisited node to both finalPath and the stack, or leaves finalPath alone and the stack as it was or one node shorter |
| RandomWalks.WalkBacktrack | POC/BaselineApp2.py:333-368 | the backtracking loop enters a body only on a True coin, uses no more coins than given, and only extends finalPath |
| RandomWalks.BackExtend | POC/BaselineApp2.py:358-366 | adding an unvisited neighbour keeps the walk duplicate-free and every visited node reachable from the start through visited nodes |
| RandomWalks.BackStep | POC/BaselineApp2.py:333-368 | one loop body keeps that invariant under either pop rule; the corrected rule also keeps its frontier property |
| RandomWalks.BackPop | POC/BaselineApp2.py:368 | popping the stack to any stacked node keeps the invariant |
| RandomWalks.FrontierPop | POC/BaselineApp2.py:367-368 | under the corrected rule, popping a dead end keeps "a visited node off the stack has no unvisited neighbour" |
| RandomWalks.BacktrackFacts | POC/BaselineApp2.py:327-368 | the backtracking loop keeps its invariant, is entered only on True coins, and stops at a False or missing coin or with an empty stack |
| RandomWalks.BeginInv | POC/BaselineApp2.py:324-329 | the state before the loop (start pushed, visited, recorded) meets both invariants |
| RandomWalks.RandomWalkBacktrackStaysInComponent | POC/BaselineApp2.py:327-368 | the walk starts at the chosen node, never adds a visited node, stays in the start's connected component, and ends at the first False coin or an empty stack |
| RandomWalks.GrowsStep | POC/BaselineApp2.py:358-366 | a loop body appends only a neighbour of the current node, which is already on the walk |
| RandomWalks.BacktrackGrows | POC/BaselineApp2.py:333-368 | along the loop, every node after the first stays a neighbour of an earlier one |
| RandomWalks.RandomWalkBacktrackGrowsByEdges | POC/BaselineApp2.py:340-368 | every node the backtracking walk adds after the start is adjacent to a node added before it; consecutive nodes need not be adjacent |
| RandomWalks.SubseqSnoc | POC/BaselineApp2.py:363-365 | appending the same node to the stack and to finalPath keeps the stack a subsequence of finalPath |
| RandomWalks.SubseqGrow | POC/BaselineApp2.py:365 | appending a node to finalPath alone keeps a subsequence one |
| RandomWalks.SubseqDropLast | POC/BaselineApp2.py:368 | `stack.pop()` keeps the stack a subsequence of finalPath |
| RandomWalks.StackStep | POC/BaselineApp2.py:340-368 | one loop body, under either pop rule, keeps the stack a subsequence of finalPath |
| RandomWalks.BacktrackStack | POC/BaselineApp2.py:333-368 | the whole loop keeps the stack a subsequence of finalPath |
| RandomWalks.RandomWalkBacktrackStackIsSubseq | POC/BaselineApp2.py:327-368 | starting from the chosen node pushed and recorded, the final stack is a subsequence of finalPath: its nodes occur in the walk in stack order, under either pop rule |
| RandomWalks.IntendedExhaustsComponent | POC/BaselineApp.py:255-256 | with the corrected pop rule, a walk whose stack empties has visited exactly a connected component of G containing its start |
| RandomWalks.AsWrittenStopsEarly | POC/BaselineApp.py:255-256 | on the path 2 - 0 - 1, with first-candidate choices and four True coins, the as-written pop empties the stack after visiting only 0 and 1, leaving 0's neighbour 2 unvisited |
| RandomWalks.IntendedVisitsFork | POC/BaselineApp.py:255-256 | on the same graph and draws, the corrected rule returns to 0 and walks 0, 1, 2 |
| RandomWalks.GenerateRandomWalks | POC/RandomWalksGenerator.py:90-104 | exactly numOfRandomWalks walks, the i-th the stopping walk from the i-th drawn start; choosing from an empty node list raises |
| RandomWalks.GeneratedWalksArePaths | POC/RandomWalksGenerator.py:96-104 | with starts drawn from G's nodes, every generated walk is a duplicate-free path of G |
| TimeMaps.Stamps | POC/RandomWalksGenerator.py:229-236 | the `[timeStep, path]` values of the walks map, one per walk, in order |
| TimeMaps.ParseWalks | POC/RandomWalksGenerator.py:229-233 | reading every walk's interval succeeds exactly when every interval string parses, and keeps each path with its interval |
| TimeMaps.Range | POC/RandomWalksGenerator.py:240 | `range(lo, upto)` holds exactly lo <= t < upto |
| TimeMaps.ListByTime | POC/RandomWalksGenerator.py:221-247 | the loop succeeds exactly when every interval parses, and its result is the time map of the parsed walks |
| TimeMaps.ByTime | POC/RandomWalksGenerator.py:240-245 | every list of the time map is non-empty and holds at most one path per walk |
| TimeMaps.AppendAcross | POC/BaselineApp3.py:566-571 | appending a path at every step of the inclusive interval, creating the missing lists, is adding that walk to the time map |
| TimeMaps.WalkAdded | POC/BaselineApp3.py:560-571 | once the inner loop has passed the last step of a walk, the map equals the time map of one more walk |
| TimeMaps.ByTimeSnoc | POC/BaselineApp3.py:560-571 | the time map of one more walk is the old map with that walk added |
| TimeMaps.ParseExtend | POC/BaselineApp3.py:561-563 | reading one more interval either fails, failing the whole map, or extends the parsed prefix |
| TimeMaps.AppendStep | POC/BaselineApp3.py:567-571 | the `if t in timeMap: append else: create` step moves the map's interval prefix one step on |
| TimeMaps.AddWalkStep | POC/BaselineApp2.py:554-559 | adding a walk up to step t + 1 is adding it up to t and appending at t |
| TimeMaps.AddWalkEmpty | POC/BaselineApp2.py:554 | an empty range of steps leaves the map unchanged |
| TimeMaps.PrefixFails | POC/BaselineApp2.py:549-551 | an unreadable interval among the first walks makes the whole map unreadable |
| TimeMaps.ByTimeKeys | POC/RandomWalksGenerator.py:240-245 | step t is a key of the time map exactly when some walk's inclusive interval contains t |
| TimeMaps.ByTimeIsActiveAt | POC/RandomWalksGenerator.py:240-245 | the list at t is exactly the paths whose interval contains t, in walk order, and t is a key exactly when there is one |
| TimeMaps.ActiveAtMembers | POC/BaselineApp3.py:556-572 | a path is listed at t exactly when some walk with that path has lo <= t <= hi |
| TimeMaps.ActiveAtCount | POC/BaselineApp3.py:566-571 | at most one listing per walk at a step, and all paths in walk order when every interval contains t |
| TimeMaps.Paths | POC/BaselineApp3.py:565 | the paths of the walks, in order |
| Schedules.ScheduleFrom | POC/BaselineApp.py:196-199 | from i, one interval for each i + 4j below TS - 1 |
| Schedules.Schedule | POC/BaselineApp.py:193-199 | `generatePaths` draws (TS - 2) div 4 + 1 intervals when TS > 1, and none otherwise |
| Schedules.BoundedScheduleFrom | POC/previous-versions/BaselineApp.py:250-256 | clamping draws, from i, as many intervals as the as-written loop |
| Schedules.BoundedSchedule | POC/previous-versions/BaselineApp.py:250-256 | clamping changes the number of intervals of no TS |
| Schedules.ScheduleFromShape | POC/BaselineApp.py:193-199 | as written, the j-th interval from i is [i + 4j, i + 4j + 3] and starts below TS - 1 |
| Schedules.ScheduleShape | POC/BaselineApp.py:193-199 | as written, the keys are "4j,4j+3" for 4j < TS - 1, pairwise disjoint and increasing |
| Schedules.BoundedScheduleFromShape | POC/previous-versions/BaselineApp.py:250-256 | the clamped j-th interval is [i + 4j, min(i + 4j + 3, TS - 1)] |
| Schedules.BoundedScheduleShape | POC/previous-versions/BaselineApp.py:250-256 | clamped intervals all lie in 0 .. TS - 1, are non-empty, pairwise disjoint and increasing |
| Schedules.ScheduleAgree | POC/BaselineApp.py:196-199 | clamping changes nothing when the last interval already ends by TS - 1 |
| Schedules.ScheduleTS100 | POC/BaselineApp.py:38 | with TS = 100: 25 intervals, the last being "96,99", and clamping changes nothing |
| Schedules.ScheduleTS12 | util/naive3.0.py:22 | with TS = 12: exactly "0,3", "4,7", "8,11", and clamping changes nothing |
| Schedules.ScheduleTS10 | POC/previous-versions/BaselineApp.py:95 | with TS = 10 the as-written keys are "0,3", "4,7", "8,11", whose end 11 is past column 9; clamped, the last is "8,9" |
| Schedules.ScheduleLength | POC/BaselineApp.py:196-199 | the number of intervals is the number of multiples of k + 1 below TS - 1 |
| Schedules.GeneratePaths | util/naive3.0.py:173-184 | one backtracking walk per clamped interval, keyed by the interval string, the j-th started at the j-th drawn node; an empty node list raises exactly when there is an interval |
| Schedules.PathsNonEmpty | util/naive3.0.py:178 | while i < TS - 1 another interval is due |
| Schedules.PathsAdvance | POC/BaselineApp.py:196-199 | drawing the walk for the next interval and stepping i by k + 1 keeps the loop's invariant |
| Schedules.PathsDone | POC/BaselineApp.py:196 | when i reaches TS - 1, one walk has been drawn for every interval |
| Schedules.ScheduleKeysDistinct | POC/BaselineApp.py:198 | the interval strings used as dictionary keys are pairwise distinct, so no walk overwrites another |
| ActivityMatrix.NumpyIndex | POC/BaselineApp3.py:266 | numpy's reading of an index on an axis: negative ones count from the end; an accepted index is in range |
| ActivityMatrix.RowHitNext | POC/BaselineApp3.py:264 | one more node of the path adds exactly its row |
| ActivityMatrix.ColHitNext | POC/BaselineApp3.py:265 | one more step of the interval adds exactly its column |
| ActivityMatrix.CoveredNext | POC/BaselineApp3.py:258 | one more walk adds exactly the cells it covers |
| ActivityMatrix.FillFromWalks | POC/BaselineApp3.py:256-266 | succeeds exactly when every interval parses and every node and step is an index numpy accepts; then the graphN × TS matrix holds 1 exactly at the cells of some walk's nodes and steps and 0 elsewhere |
| ActivityMatrix.SameCover | POC/BaselineApp2.py:199-207 | the cells and the validity of the first w walks depend only on those walks |
| ActivityMatrix.WalkInvalid | POC/BaselineApp2.py:205-207 | a walk with an index numpy refuses makes the whole fill fail |
| ActivityMatrix.FillWalk | POC/BaselineApp2.py:204-207 | one walk's node and step loops succeed exactly when its indices are accepted, and then add exactly its cells |
| ActivityMatrix.FillFromSchedule | POC/BaselineApp.py:105-119 | the pathsData fill with the step loop outside: succeeds exactly when every key parses and every index is accepted; then 1 exactly at the covered cells |
| ActivityMatrix.FillInterval | POC/previous-versions/BaselineApp.py:171-176 | one key's step and node loops succeed exactly when its indices are accepted, and then add exactly its cells |
| ActivityMatrix.WalksHitNext | POC/RandomWalksGenerator.py:377-380 | one more walk at a step adds exactly its rows |
| ActivityMatrix.FillFromTimeMap | POC/RandomWalksGenerator.py:370-381 | succeeds exactly when every listed node is a row numpy accepts; then cell (n, t) is 1 exactly when t < TS and n is on some walk listed at t, and 0 elsewhere |
| ActivityMatrix.FillStep | POC/RandomWalksGenerator.py:376-380 | the walks at one step succeed exactly when their nodes are accepted, and then set exactly their rows in that column |
| ActivityMatrix.ColumnIsUnion | POC/BaselineApp3.py:258-266 | with intervals inside the matrix, a cell is covered by some walk exactly when it is set through the time map: column t is the union of the paths listed at t |
| ActivityMatrix.CoveredIsListed | POC/BaselineApp3.py:561-571 | a walk covering a cell is listed at that column of the time map |
| ActivityMatrix.ListedIsCovered | POC/BaselineApp3.py:561-571 | a path listed at a column sets a cell only if its walk covers it |
| ActivityMatrix.ValidIsUnion | POC/BaselineApp3.py:258-266 | with intervals inside the matrix, both fills refuse exactly the same walks |
| ActivityMatrix.DrawnWalksFillAlike | POC/RandomWalksGenerator.py:370-381 | for walks stamped by assignTimeSteps, every interval reads back and lies inside the TS columns, and filling via listByTime's map and filling from the walks directly set the same cells and fail on the same walks |
| ActivityMatrix.AsWrittenScheduleOverflows | POC/previous-versions/BaselineApp.py:171-176 | the as-written TS = 10 pathsData, with a non-empty third walk, parses but writes column 10 of a 10-column matrix, so the fill raises |
| ActivityMatrix.BoundedScheduleFills | POC/previous-versions/BaselineApp.py:166-176 | with clamped intervals, every pathsData whose nodes are rows fills a TS-column matrix without error |
| ActiveGraphs.Keep | POC/BaselineApp.py:152-154 | the members of a list that are kept, in their order |
| ActiveGraphs.Drop | POC/BaselineApp.py:154 | the members of a list other than n, in their order |
| ActiveGraphs.Induced | POC/BaselineApp.py:149-156 | the induced subgraph has the graph's kept nodes, each with exactly its kept neighbours |
| ActiveGraphs.RemoveNode | POC/BaselineApp.py:154 | `remove_node(n)` fails exactly when n is not a node; otherwise it removes n and all its edges, and nothing else |
| ActiveGraphs.DropKeep | POC/BaselineApp.py:152-155 | removing one more node from a kept list is keeping one node fewer |
| ActiveGraphs.KeepAll | POC/BaselineApp.py:149 | keeping every member changes nothing |
| ActiveGraphs.KeepDistinct | POC/BaselineApp.py:152-155 | keeping preserves duplicate-free neighbour lists |
| ActiveGraphs.ConsDistinct | POC/BaselineApp.py:152-155 | a list without x, with x in front, stays duplicate-free |
| ActiveGraphs.InducedAll | POC/BaselineApp.py:149 | `G.copy()` is the subgraph induced by all nodes |
| ActiveGraphs.RemoveFromInduced | POC/BaselineApp.py:152-155 | removing one more kept node from an induced subgraph gives the subgraph induced by one node fewer |
| ActiveGraphs.InducedWellFormed | POC/BaselineApp.py:149-156 | an induced subgraph of an undirected graph is again one |
| ActiveGraphs.InducedPaths | POC/BaselineApp3.py:306 | a path through kept nodes is a path of the induced subgraph exactly when it is one of G |
| ActiveGraphs.InducedComponent | POC/BaselineApp3.py:306 | the components of the induced subgraph are the components of G on the kept nodes |
| ActiveGraphs.InducedComponents | POC/BaselineApp3.py:306 | a component list of the induced subgraph is exactly a component list of G on the kept nodes |
| ActiveGraphs.Zeros | POC/BaselineApp.py:152-153 | the node numbers whose entry in the column is 0 |
| ActiveGraphs.RemoveInactive | util/naive3.0.py:135-143 | the removal loop fails exactly when a zero entry names a non-node; otherwise it leaves exactly the graph's nodes whose entry is non-zero, with their induced edges |
| ActiveGraphs.ZerosNext | util/naive3.0.py:139-142 | one more entry adds its node number to the zeros exactly when it is 0 |
| ActiveGraphs.InsertBySize | POC/BaselineApp3.py:306 | inserting a component keeps the list largest first and adds exactly that component |
| ActiveGraphs.InsertedOrdered | POC/BaselineApp3.py:306 | inserting after every component at least as large keeps the order non-increasing in size |
| ActiveGraphs.SortBySize | POC/BaselineApp3.py:306 | `sorted(..., key=len, reverse=True)`: a permutation of the components, in non-increasing size |
| ActiveGraphs.ListedOnce | POC/BaselineApp3.py:306 | disjoint non-empty components are each listed once |
| ActiveGraphs.PermutedComponentList | POC/BaselineApp3.py:306 | any reordering of a component list is a component list of the same active set |
| ActiveGraphs.StepComponents | POC/BaselineApp3.py:297-306 | one step fails exactly when a zero entry names a non-node; otherwise it lists the components of the kept nodes, largest first, and an empty list exactly when no node is kept |
| ActiveGraphs.AppendComponents | POC/BaselineApp3.py:306-311 | appending the sorted components under a new key stores exactly that list, and adds no key when there is none |
| ActiveGraphs.Column | POC/BaselineApp.py:152 | `df[column]`: the column's entries, one per row |
| ActiveGraphs.GenActiveGraphs | POC/BaselineApp.py:141-163 | one graph per column, each the copy of G without exactly the nodes whose entry is 0 (nodeNum restarts per column); fails exactly when more columns are asked than exist or a zero names a non-node |
| ActiveGraphs.GenActiveComponents | POC/BaselineApp3.py:288-315 | a key for exactly the columns with a kept node, each holding that column's components largest first; same failures |
| ActiveGraphs.OutputAdvance | POC/BaselineApp2.py:252-267 | one more column's sorted components keep the loop's invariant |
| ActiveGraphs.MaskRow | POC/RandomWalksGenerator.py:265-269 | the 1 × numOfNodes mask is 1 exactly where some listed path puts a node, and 0 elsewhere |
| ActiveGraphs.ActiveSetIsVisited | POC/BaselineApp3.py:198-208 | for graphs with nodes 0 .. n - 1, the nodes kept at a step are exactly those on the paths listed at that step |
| ActiveGraphs.MarkWalk | POC/BaselineApp3.py:199-201 | marking one path succeeds exactly when each node is an index numpy accepts, and then sets exactly those positions |
| ActiveGraphs.MarkedNext | POC/BaselineApp2.py:141-142 | one more path marks exactly its positions |
| ActiveGraphs.MarkActive | POC/BaselineApp3.py:198-201 | the fresh mask of a step is exactly MaskRow, or an index error |
| ActiveGraphs.AggregateRandomWalks | POC/RandomWalksGenerator.py:254-287 | fails exactly at a step whose mask is invalid or removes a non-node; otherwise a key for exactly the steps with a kept node, each holding the components of the kept nodes, largest first |
| Pipeline.RowHitIsMember | POC/RandomWalksGenerator.py:379-380 | when every node is a row index, filling one path raises nothing and sets row a exactly when a is on the path |
| Pipeline.WalksHitIsMember | POC/RandomWalksGenerator.py:377-380 | the same for a list of paths: row a is set exactly when a is on one of them |
| Pipeline.PathsHitKept | POC/RandomWalksGenerator.py:264-276 | on a numbered graph, the paths listed at a step set exactly the rows of the nodes aggregateRandomWalks keeps at that step |
| Pipeline.ComponentsHitKept | POC/RandomWalksGenerator.py:279-284 | the node lists of a component list of the kept nodes set exactly the rows of the kept nodes |
| Pipeline.AggregateFillIsActive | POC/RandomWalksGenerator.py:73-84 | filling from aggregateRandomWalks's components sets exactly the cells that filling from listByTime's paths sets, and neither raises |
| Pipeline.ByTimeListedIn | POC/RandomWalksGenerator.py:221-247 | every path listed by listByTime is the path of some walk, so its nodes are nodes of G |
| Pipeline.AggregateFillIsCovered | POC/RandomWalksGenerator.py:73-84 | with every interval inside the TS columns, the fill from the aggregate map sets exactly the cells where some walk has that node and that step in its interval, and neither fill raises |
| Pipeline.StepsValid | POC/RandomWalksGenerator.py:264-276 | on a numbered graph, no step of a time map through its nodes makes aggregateRandomWalks raise |
| Pipeline.NodeList | POC/RandomWalksGenerator.py:379 | `for node in walk` over a component set goes through exactly its nodes |
| Pipeline.StepLists | POC/RandomWalksGenerator.py:377-379 | the components of one step, each as a list of exactly its nodes, in the same order |
| Pipeline.ComponentLists | POC/RandomWalksGenerator.py:374-381 | every component of every step of the aggregate map as a list of exactly its nodes, under the same keys |
| Pipeline.GenerateInput | POC/RandomWalksGenerator.py:69-84 | fails exactly when some interval string is unreadable; otherwise a fresh matrix of one row per node and TS columns holding 1 exactly where a path listed at that step has that node, and, with every interval inside the columns, exactly where some walk has that node and that step in its interval |
| OutputTest.Insert | POC/tests/OutputTest.py:76 | inserting adds exactly one element |
| OutputTest.Sort | POC/tests/OutputTest.py:76 | sorting is a permutation |
| OutputTest.SortSorted | POC/tests/OutputTest.py:76 | under a total order, the sorted list is in order |
| OutputTest.InsertSorted | POC/tests/OutputTest.py:89 | inserting into a sorted list keeps it sorted |
| OutputTest.SortedCons | POC/tests/OutputTest.py:89 | a lower bound in front of a sorted list keeps it sorted |
| OutputTest.InsertLowerBound | POC/tests/OutputTest.py:89 | a lower bound of the element and the list bounds the insertion |
| OutputTest.SortedHeadLe | POC/tests/OutputTest.py:106 | the head of a sorted list is below each element |
| OutputTest.SortedTail | POC/tests/OutputTest.py:106 | the tail of a sorted list is sorted and holds the rest of its elements |
| OutputTest.SortedHeadsEqual | POC/tests/OutputTest.py:106 | two sorted arrangements of one multiset start alike |
| OutputTest.SortedUnique | POC/tests/OutputTest.py:106 | under a total order a multiset has one sorted arrangement |
| OutputTest.SortEqIffPermutation | POC/tests/OutputTest.py:106 | `sorted(a) == sorted(b)` exactly when a and b hold the same elements the same number of times |
| OutputTest.IntLeTotal | POC/tests/OutputTest.py:76 | `<` on ints gives a total order |
| OutputTest.LexTotalPair | POC/tests/OutputTest.py:106 | Python's list ordering relates any two lists either way, and only equal lists both ways |
| OutputTest.LexTrans | POC/tests/OutputTest.py:106 | Python's list ordering is transitive |
| OutputTest.LexLeTotal | POC/tests/OutputTest.py:106 | Python's list ordering is total, so sorting lists of components is determined by their multiset |
| OutputTest.SkipBlank | POC/tests/OutputTest.py:61 | the first index at or after i that is not blank, every character skipped being blank |
| OutputTest.SkipBlankBack | POC/tests/OutputTest.py:61 | one past the last index before j that is not blank, every character skipped being blank |
| OutputTest.Trim | POC/tests/OutputTest.py:61 | the result is empty exactly when every character is blank; otherwise it is the slice from the first to the last non-blank character, which are its ends |
| OutputTest.TrimPadded | POC/tests/OutputTest.py:61 | trimming blanks around a string that neither starts nor ends with a blank gives that string back |
| OutputTest.IsSpace | POC/tests/OutputTest.py:61 | the characters `str.isspace` holds of: tab to carriage return, the separators 0x1C .. 0x1F, space, and the Unicode spaces and line separators |
| OutputTest.Strip | POC/tests/OutputTest.py:61 | `strip()` never lengthens a line; the result is empty exactly when the line is all whitespace, and otherwise it is the slice from the first to the last non-whitespace character |
| OutputTest.Inner | POC/tests/OutputTest.py:72 | `s[1:len(s) - 1]` for a stripped component line |
| OutputTest.DropUnderscores | POC/tests/OutputTest.py:72 | dropping the '_' separators leaves only digits, and changes a literal without them not at all |
| OutputTest.ParseSigned | POC/tests/OutputTest.py:72 | an int literal with an optional sign, blanks allowed after the sign; a failure is ValueError |
| OutputTest.ParsePiece | POC/tests/OutputTest.py:72 | one list element, the blanks around it ignored; a failure is ValueError |
| OutputTest.Items | POC/tests/OutputTest.py:72 | the comma-separated elements of the display, one trailing empty element dropped: never none |
| OutputTest.ParseElements | POC/tests/OutputTest.py:72 | a parsed piece list has one value per piece; failure is ValueError |
| OutputTest.ParseElementsAt | POC/tests/OutputTest.py:72 | the i-th value is that of the i-th piece |
| OutputTest.ParseElementsFails | POC/tests/OutputTest.py:72 | a piece that does not parse makes the list fail |
| OutputTest.ParseElementsValues | POC/tests/OutputTest.py:72 | the list parses exactly when every piece parses, holding their values in order |
| OutputTest.AllPiecesParse | POC/tests/OutputTest.py:85 | a list whose pieces all parse is accepted |
| OutputTest.ParseComponent | POC/tests/OutputTest.py:72 | `literal_eval("[" + inner + "]")` on a list of decimal int literals: blank text is the empty list and one trailing comma is allowed; every failure is ValueError |
| OutputTest.NatToStringLeading | POC/tests/OutputTest.py:72 | `str(n)` of a positive number has no leading zero |
| OutputTest.NatToStringLiteral | POC/tests/OutputTest.py:72 | `str(n)` of a natural is a decimal literal whose value is n |
| OutputTest.UnsignedParse | POC/tests/OutputTest.py:72 | a decimal literal without a sign reads as its value |
| OutputTest.NegativeParse | POC/tests/OutputTest.py:72 | a minus sign directly before a decimal literal negates its value |
| OutputTest.SignedRoundTrip | POC/tests/OutputTest.py:72 | `str(n)` reads back as n for every int |
| OutputTest.PieceRoundTrip | POC/tests/OutputTest.py:72 | `str(n)` after blanks reads back as the element n |
| OutputTest.IntStringEnds | POC/tests/OutputTest.py:72 | `str(n)` is non-empty, does not start with a blank and ends with a digit |
| OutputTest.JoinedPieces | POC/tests/OutputTest.py:72 | splitting `", ".join(map(str, xs))` at its commas gives one piece per element: `str` of the first, then " " and `str` of each other |
| OutputTest.ParseElementsAre | POC/tests/OutputTest.py:72 | pieces that each read as their value read as the list of those values |
| OutputTest.JoinedPiecesParse | POC/tests/OutputTest.py:72 | the pieces of such a join each read back as their element |
| OutputTest.JoinedStartsNonBlank | POC/tests/OutputTest.py:72 | `", ".join(map(str, xs))` starts with `str` of the first value, so it is not blank |
| OutputTest.JoinedEndsNonBlank | POC/tests/OutputTest.py:72 | its last piece ends with a digit, so every piece is an item |
| OutputTest.JoinedNotBlank | POC/tests/OutputTest.py:72 | such a join is not blank and has no trailing empty element |
| OutputTest.JoinText | POC/tests/OutputTest.py:72 | a string whose first comma-separated piece is non-empty starts with that piece's first character |
| OutputTest.OneItem | POC/tests/OutputTest.py:72 | comma-free text with non-blank ends is one element, unchanged by trimming |
| OutputTest.ComponentRoundTrip | POC/tests/OutputTest.py:72 | the text between the braces of `str()` on a non-empty component, `", ".join(map(str, xs))`, reads back as exactly xs |
| OutputTest.LeadingZeroRefused | POC/tests/OutputTest.py:72 | `[007]` is refused, as Python refuses leading zeros in a non-zero decimal literal |
| OutputTest.BlankAfterSign | POC/tests/OutputTest.py:72 | `[- 1]` reads as [-1] |
| OutputTest.UnderscoreValue | POC/tests/OutputTest.py:72 | `1_000` is a decimal literal of value 1000 |
| OutputTest.UnderscoreDigits | POC/tests/OutputTest.py:72 | `[1_000]` reads as [1000] |
| OutputTest.TrailingComma | POC/tests/OutputTest.py:72 | one trailing comma is allowed: for every non-empty xs, `", ".join(map(str, xs)) + ","` reads as xs, as `[1, 2,]` reads as [1, 2] |
| OutputTest.SplitTrailing | POC/tests/OutputTest.py:72 | a comma at the end of a text adds exactly one empty piece to its split |
| OutputTest.TrailingItem | POC/tests/OutputTest.py:72 | that empty piece is not an item |
| OutputTest.ItemsKeepLast | POC/tests/OutputTest.py:72 | when the last piece ends with a non-blank character, the items are all the pieces |
| OutputTest.ComponentOfItems | POC/tests/OutputTest.py:72 | a text that is not blank reads as the values of its items |
| OutputTest.EmptyItemRefused | POC/tests/OutputTest.py:72 | `[,]` is refused |
| OutputTest.ReadComponents | POC/tests/OutputTest.py:68-89 | both components parse and are stored sorted, as permutations of what was read; a missing data line raises IndexError and a malformed one ValueError |
| OutputTest.CloseStep | POC/tests/OutputTest.py:96-117 | a non-component line clears both lists and sets the step header; a record is written exactly when either list is non-empty, and otherwise nothing changes |
| OutputTest.Step | POC/tests/OutputTest.py:61-117 | a blank line raises at `strippedLine[0]`; a `ts_` line sets the header; a `{` line accumulates; any other line closes the step |
| OutputTest.Validate | POC/tests/OutputTest.py:30-126 | the per-line loop ends with the testFailed flag and records of the line-by-line definition, or with its first error |
| OutputTest.Run | POC/tests/OutputTest.py:57-117 | a run that gets through has counted every line |
| OutputTest.BlankLineError | POC/tests/OutputTest.py:61-68 | a run that stops at `strippedLine[0]` names a line of the file, and that line strips to nothing |
| OutputTest.BlankLineEarlier | POC/tests/OutputTest.py:57-68 | a blank line met before the last line stops the whole run there |
| OutputTest.BlankLineLast | POC/tests/OutputTest.py:57-68 | a blank line met at the last line is that line |
| OutputTest.RunSnoc | POC/tests/OutputTest.py:57-117 | one more line is one more step |
| OutputTest.RunPrefixErr | POC/tests/OutputTest.py:57-117 | the first raising line ends the run with its error |
| OutputTest.RunLast | POC/tests/OutputTest.py:57-117 | a run that gets through ends one step after the run without its last line |
| OutputTest.NotBlankAt | POC/tests/OutputTest.py:68 | each line of a run that gets through is non-blank |
| OutputTest.NoBlankLines | POC/tests/OutputTest.py:68-117 | a run that gets through met no blank line and counted every line |
| OutputTest.StepKeepsFailed | POC/tests/OutputTest.py:110 | each step keeps "testFailed iff some record failed" |
| OutputTest.FailedIffSomeMismatch | POC/tests/OutputTest.py:33-126 | testFailed is true exactly when some compared step failed; it is never reset |
| OutputTest.StepKeepsSound | POC/tests/OutputTest.py:98-113 | each step keeps every record sound and the open lists sorted |
| OutputTest.ReportsCompareMultisets | POC/tests/OutputTest.py:98-110 | every record compares lists at least one of which is non-empty, and says Match exactly when they hold the same components the same number of times, whatever their order |
| OutputTest.TrailingNeverCompared | POC/tests/OutputTest.py:57-117 | component lines after the last non-component line change neither the records nor testFailed |
| OutputTest.NodeOrderIrrelevant | POC/tests/OutputTest.py:76-89 | the same nodes read in another order are stored as the same component |
| HeavyHitters.Key | heavy-hitter-app/starter.py:72-74 | an undirected edge's key is its two ends, lower first |
| HeavyHitters.Edges | heavy-hitter-app/starter.py:138 | `G.edges()`: a key for exactly the adjacent pairs |
| HeavyHitters.Marked | heavy-hitter-app/starter.py:74 | setting active = 1 on a set of edges changes only those labels |
| HeavyHitters.MarkedTwice | heavy-hitter-app/starter.py:70-74 | marking S then T is marking S and T together |
| HeavyHitters.GroupMembers | heavy-hitter-app/starter.py:86-88 | a node is in the list of k exactly when its heavy hitter is k |
| HeavyHitters.GroupCount | heavy-hitter-app/starter.py:86-90 | each node is listed under its own heavy hitter as often as it occurs, and under no other key |
| HeavyHitters.GroupOrder | heavy-hitter-app/starter.py:86-88 | a group is no longer than the node list; it is the whole list when every node has heavy hitter k, and empty when none does |
| HeavyHitters.GroupNext | heavy-hitter-app/starter.py:88 | one more node appends itself to exactly its own group |
| HeavyHitters.NodesDictNext | heavy-hitter-app/starter.py:86-88 | one more `setdefault(...).append(...)` keeps the dictionary that of the nodes so far |
| HeavyHitters.DictKeysNext | heavy-hitter-app/starter.py:88 | the keys stay the heavy hitters that occur |
| HeavyHitters.DictGroupsNext | heavy-hitter-app/starter.py:88 | each list stays the group of its key |
| HeavyHitters.DictListedNext | heavy-hitter-app/starter.py:88 | each listed node stays a node with the heavy hitter of its key |
| HeavyHitters.GetNodesDict | heavy-hitter-app/starter.py:82-90 | the keys are exactly the heavy hitters that occur; each list holds, in node order, exactly the nodes with that heavy hitter |
| HeavyHitters.NeighbourEdges | heavy-hitter-app/starter.py:72-73 | the edges from node to a neighbour in the group |
| HeavyHitters.GroupEdgesNext | heavy-hitter-app/starter.py:71-74 | one more group node adds exactly its edges into the group |
| HeavyHitters.JoinedEdgesNext | heavy-hitter-app/starter.py:70-74 | one more key adds exactly its group's edges |
| HeavyHitters.MarkNeighbours | heavy-hitter-app/starter.py:72-74 | the inner loop marks exactly the edges to neighbours in the group |
| HeavyHitters.MarkGroup | heavy-hitter-app/starter.py:71-74 | the group loop marks exactly the group's edges, or raises at a non-node having marked only some of them |
| HeavyHitters.GroupEdgesGrow | heavy-hitter-app/starter.py:71 | a prefix of the group has no more edges than the group |
| HeavyHitters.JoinedEdgesGrow | heavy-hitter-app/starter.py:70 | some keys have no more edges than all keys |
| HeavyHitters.ZeroLabels | heavy-hitter-app/starter.py:138-139 | every edge starts with active = 0 |
| HeavyHitters.LabelledGraph.constructor | heavy-hitter-app/starter.py:133-141 | the sample graph is the given graph, and every edge starts with active = 0 |
| HeavyHitters.LabelledGraph.LabelActivePaths | heavy-hitter-app/starter.py:69-74 | the edges with both ends in one heavy hitter's list get active = 1, all other labels stay, and no edge is added; a listed non-node raises |
| HeavyHitters.LabelEdges | heavy-hitter-app/starter.py:69-74 | the same on the label map, whatever order the keys come in |
| HeavyHitters.JoinedIffSameHeavyHitter | heavy-hitter-app/starter.py:69-90 | with GetNodesDict's groups over all nodes, an edge is relabelled exactly when its ends share a heavy hitter |
| HeavyHitters.LabelledIffSameHeavyHitter | heavy-hitter-app/starter.py:69-74 | after labelling all-zero edges, an edge is 1 exactly when its ends share a heavy hitter and 0 otherwise |
| HeavyHitters.LabelledEdge | heavy-hitter-app/starter.py:72-74 | the same for one edge |
| HeavyHitters.LabelSampleGraph | heavy-hitter-app/starter.py:25-42 | build, group and label: every edge ends active exactly when its ends share a heavy hitter, no edge is added and nothing raises |
| HeavyHitters.RandInt | heavy-hitter-app/starter.py:146 | `random.randint(lo, hi)` lies in lo .. hi |
| HeavyHitters.GenRandomStream | heavy-hitter-app/starter.py:145-146 | `genRandomStream(n)` has n values, each in 0 .. 9 |

## Left out

- I/O is left out: files, directories, `np.savetxt`, `pd.read_csv`, adjacency-list reading and writing, printing, timing, plotting, and the regex time-stamp extraction. The matrix read back by `pd.read_csv` is the `array2` itself.
- Randomness is an oracle parameter: `random.choice`, `random.sample`, `random.randint` and `random.uniform`. `generateProbability()` and `random.uniform(0, 1) <= alpha` become a finite sequence of coin outcomes, so the float threshold `alpha * maxInt` is not modelled.
- The networkx graph generators are not modelled. `nx.connected_components` is replaced by the component predicate of `Graphs`, which the breadth-first finder is proved to produce. The component lists of `ActiveGraphs.StepComponents` come from that finder.
- Set and dictionary iteration order is modelled as follows:
  - the BFS visits a node's neighbours in the order of its adjacency list;
  - the pivot `random.sample(activeNodesList, 1)` is any remaining active node;
  - `labelActivePaths` and `aggregateRandomWalks` take their keys in an arbitrary order.
- Node ids are `int`. The `str(i)` conversions of POC/FindActivePaths.py and POC/RandomWalksGenerator.py are not modelled.
- `int()` parsing is left out in part. It accepts an optional sign followed by decimal digits. Python's other leniencies are not modelled: surrounding blanks and '_' separators. Neither is the limit of 4300 digits that recent Python versions put on `int()` and on int literals.
- OutputTest.ParseComponent: only lists of decimal int literals are modelled, with an optional sign, '_' separators, blanks and one trailing comma as Python reads them. Every other element is refused with ValueError, even where `literal_eval` accepts it: hexadecimal, octal and binary literals, floats, complex numbers, strings, `True`, `False` and `None`, nested lists or tuples, parenthesised values and repeated signs such as `--1`. Python's SyntaxError is modelled as ValueError.
- OutputTest.IsBlank: between the tokens of a component, only space, tab and form feed are skipped. Python's reading of other control characters inside a line, such as `\r`, which its tokenizer takes as a line break and ignores inside brackets, is not modelled; the model refuses such a line.
- The heavy-hitter value of each node is a parameter `hh`. The count-min-sketch `getHeavyHitter`, an external library, and `genAndParseStream` are not modelled.
- OutputTest.ReadComponents: a data file shorter than the output file gives `IndexOutOfRange`. That is Python's IndexError at `syntheticDataFileLines[lineNumber - 1]`.
- ActiveGraphs.SortBySize: equal-sized components keep their arrival order, which is what Python's stable sort does. The contract states only the permutation and the size order.
- `randomWalk2` in util/naive3.0.py is dead code and is not modelled. Neither are `genInputFile2` and `genRandomValue`, which write random files.
- Incremental: the sketch does not say how split or merged components are identified. The maintainer keeps components as a set of node sets, with no ids.
- FindActivePaths.GenerateActivePaths returns the per-step component lists instead of writing them to the output file.
- POC/DensityGenerator.py, POC/GenerateGraph.py, POC/naive.py, POC/naive2.0.py, POC/testUtilities.py and POC/genConnected.py are not part of this model.

## Findings

| source | as written | input that shows it | evidently intended | confidence | as-written member | corrected member |
|---|---|---|---|---|---|---|
| POC/BaselineApp.py:255-256 | at a dead end, `currentRandomNode = stack.pop()` pops the current node itself and makes it current again; the next dead end pops its parent without visiting the parent's other neighbours, so the walk can end before exhausting its component | the path 2 - 0 - 1 started at 0, `choice` always taking the first candidate, four True coins: the walk is [0, 1] and 0's neighbour 2 is never visited | pop the dead end and continue from the new top of the stack, so that a walk whose stack empties has covered its component | not executed | RandomWalks.AsWrittenStopsEarly | RandomWalks.IntendedExhaustsComponent |
| POC/previous-versions/BaselineApp.py:95 | with TS = 10, `generatePaths` writes the key "8,11", and `genInputFile` then writes column 10 of a 10-column matrix | TS = 10 with any non-empty walk for the third interval | clamp interval ends to TS - 1, as `assignTimeSteps` does | not executed | ActivityMatrix.AsWrittenScheduleOverflows | ActivityMatrix.BoundedScheduleFills |
