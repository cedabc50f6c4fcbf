# graphViz core, modelled in Dafny

graphViz is a browser tool that draws a graph and replays graph algorithms over it step by
step. This project models its core:

- **The three step-emitting engines.** DSATUR colouring, Dijkstra's shortest path and A*
  search. Each takes a graph and parameters and emits an ordered list of steps. Each step is a
  snapshot with a phase tag, highlighted nodes and edges, style overrides and a state record.
- **The playback store and the runner hook.** These hold a materialised step list, move a
  cursor over it, and drive automatic play one timer tick at a time.
- **The race store.** It runs two engines on the same graph between the same two nodes and
  replays both lists in lockstep. The side with the shorter list wins.
- **The graph model and the graph-editing store.** They enforce the editing rules: no
  self-loops, no duplicate edges, and removing a node removes its edges.
- **The algorithm registry.** It supports lookup by id and by category.

The project has one Dafny module per source file.

| module | file | models |
|---|---|---|
| `Common` | `common.dfy` | option type, extended integers for `Infinity`, list helpers |
| `GraphTypes` | `graph.dfy` | `src/types/graph.ts` |
| `AlgorithmTypes` | `algorithm.dfy` | the step and parameter records the engines share |
| `Dsatur` | `dsatur.dfy` | `src/algorithms/coloring/dsatur.ts` |
| `Pathfinding` | `pathfinding.dfy` | what `dijkstra.ts` and `astar.ts` share, defined once |
| `Dijkstra` | `dijkstra.dfy` | `src/algorithms/pathfinding/dijkstra.ts` |
| `AStar` | `astar.dfy` | `src/algorithms/pathfinding/astar.ts` |
| `Registry` | `registry.dfy` | `src/algorithms/index.ts` |
| `Playback` | `playback.dfy` | `src/stores/algorithmStore.ts` |
| `Runner` | `runner.dfy` | `src/hooks/useAlgorithmRunner.ts` |
| `Race` | `race.dfy` | `src/stores/raceStore.ts` |
| `GraphStore` | `graphstore.dfy` | `src/stores/graphStore.ts` |

Shared pieces:
- `Pathfinding` holds `buildWeightedAdjacency` and `reconstructPath`, which appear identically
  in both pathfinding files.

How the engines are modelled:
- Each engine is a `method` with the source's loops. It returns the full list of steps its
  generator yields.
- The trace each engine emits is described by a ghost predicate: `DsaturOutcome`,
  `DijkstraOutcome` or `AStarOutcome`. It covers:
  - the phase sequence;
  - step numbering;
  - the final colouring, or the reported path;
  - the facts that justify the result.
- JavaScript `Map` and `Set` iteration order is modelled as an insertion-ordered `seq`, since
  tie-breaking depends on it.
- `Infinity` is the `Inf` case of the `Ext` type. Numbers are unbounded integers.

How the stores are modelled:
- The three stores are classes. Each action is a method that `modifies this` and states the
  whole new state.
- The cursor moves are tied to small functions: `Forward`, `Backward` and `Advance`. The
  lemmas about those functions state where repeated moves end.

## Model

| member | source | states |
|---|---|---|
| `Common.Dedup` | src/stores/graphStore.ts:206 | the `[...new Set(xs)]` result has no duplicates, holds exactly the members of the input, and is no longer than it |
| `Common.DedupOrder` | src/stores/graphStore.ts:206 | the `[...new Set(xs)]` result lists its elements in the order of their first occurrences in the input |
| `Common.Remove` | src/stores/graphStore.ts:75 | filtering out one id keeps every other member, keeps a duplicate-free list duplicate-free, shortens it by exactly one when the id was present, and changes nothing otherwise |
| `Common.RemoveOrdered` | src/stores/graphStore.ts:75 | filtering out one id keeps the other elements in their order, repeats included: the result is a subsequence of the list |
| `Common.RemoveAt` | src/stores/graphStore.ts:75 | in a duplicate-free list, filtering out the id at a position is cutting that one position out |
| `Common.Add` | src/algorithms/pathfinding/astar.ts:200 | adding to an insertion-ordered set adds exactly that member, keeps the list duplicate-free, and leaves the order unchanged when it was already present |
| `GraphTypes.NodeIds` | src/algorithms/pathfinding/dijkstra.ts:76-79 | the keys of a map filled from the node list: duplicate-free, every node's id present, nothing else, empty exactly when there is no node |
| `GraphTypes.NodeIdsInNodeOrder` | src/algorithms/pathfinding/dijkstra.ts:76-79 | the keys of the map filled from the node list follow the node order: of two ids, the one whose first node comes first is listed first |
| `GraphTypes.FindNode` | src/algorithms/pathfinding/astar.ts:40-41 | `nodes.find` by id: absent exactly when no node has the id, otherwise the first node carrying it |
| `GraphTypes.CreateEmptyGraph` | src/types/graph.ts:25-32 | the empty graph has no node and no edge and is undirected and unweighted |
| `GraphTypes.GenerateEdgeId` | src/types/graph.ts:39-41 | the id is `e-`, then the source, then `-`, then the target, character for character |
| `GraphTypes.EdgeIdDeterminesEndpoints` | src/types/graph.ts:39-41 | when neither source contains `-`, two edge ids are equal exactly when their endpoint pairs are equal |
| `GraphTypes.EdgeIdCollides` | src/types/graph.ts:39-41 | without that condition the id is not unique: `("a-b", "c")` and `("a", "b-c")` give the same id, so duplicate prevention rests on `hasEdge`, not on ids |
| `AlgorithmTypes.SelectedNodesAre` | src/algorithms/pathfinding/dijkstra.ts:98-125 | the nodes collected from a trace are exactly the nodes its select steps name |
| `AlgorithmTypes.LastState` | src/algorithms/pathfinding/dijkstra.ts:253-259 | the final state of a run is absent exactly when it produced no step, and is the last step's state otherwise |
| `Dsatur.BuildAdjacencyMap` | src/algorithms/coloring/dsatur.ts:9-24 | one key per node id; `u` is in `v`'s set exactly when some edge leads from `v` to `u` (either way when undirected); an edge whose source is not a node adds nothing |
| `Dsatur.ContributedIsAdjacent` | src/algorithms/coloring/dsatur.ts:16-21 | the sets the edge loop builds agree with graph adjacency |
| `Dsatur.Symmetric` | src/algorithms/coloring/dsatur.ts:16-21 | on an undirected graph the neighbour sets are symmetric |
| `Dsatur.GetColorStyle` | src/algorithms/coloring/dsatur.ts:26-28 | every colour index maps to a palette entry |
| `Dsatur.PaletteCyclic` | src/algorithms/coloring/dsatur.ts:26-28 | colour indices ten apart share a display colour |
| `Dsatur.BuildCurrentStyles` | src/algorithms/coloring/dsatur.ts:211-235 | exactly the coloured nodes get their palette background, and the highlighted node (when given and non-empty) also gets the selection border, keeping any background it had |
| `Dsatur.SelectNode` | src/algorithms/coloring/dsatur.ts:73-90 | the chosen uncoloured node has maximum saturation, ties go to the larger degree, and remaining ties to the first in uncoloured-set order |
| `Dsatur.CollectNeighborColors` | src/algorithms/coloring/dsatur.ts:108-115 | the set of distinct non-negative colours among a node's neighbours |
| `Dsatur.FirstFit` | src/algorithms/coloring/dsatur.ts:117-120 | the least non-negative integer not used by a coloured neighbour |
| `Dsatur.UpdateSaturation` | src/algorithms/coloring/dsatur.ts:144-157 | after an assignment, each still-uncoloured neighbour's saturation is the number of distinct colours among its coloured neighbours; every other entry is unchanged |
| `Dsatur.AssignKeepsProper` | src/algorithms/coloring/dsatur.ts:139-142 | giving a node a colour none of its neighbours has keeps the colouring proper |
| `Dsatur.ProperOnEdges` | src/algorithms/coloring/dsatur.ts:16-21 | on an undirected graph a colouring proper on the neighbour sets gives different colours to the two ends of every non-loop edge |
| `Dsatur.AssignColor` | src/algorithms/coloring/dsatur.ts:139-157 | colouring the selected node removes it from the uncoloured set, raises the largest colour used when needed, and keeps the colouring invariant: proper, within the cap, saturation up to date |
| `Dsatur.InitialColoring` | src/algorithms/coloring/dsatur.ts:47-56 | the initialisation (all nodes uncoloured, saturation 0) establishes the colouring invariant |
| `Dsatur.CompleteColoring` | src/algorithms/coloring/dsatur.ts:177-190 | once nothing is uncoloured, every node has a colour below `colorsUsed`, `colorsUsed` is the largest colour plus one, the cap holds, and on an undirected graph the colouring is proper |
| `Dsatur.FirstFitAt` | src/algorithms/coloring/dsatur.ts:117-142 | in a trace whose assign steps follow first fit, each assign step colours a node still uncoloured just before it, with the least colour none of its neighbours had then |
| `Dsatur.ColorsSetFrom` | src/algorithms/coloring/dsatur.ts:139-142 | a colour the replay of a trace holds for a node was set by an assign step naming that node |
| `Dsatur.ColorsSetKeeps` | src/algorithms/coloring/dsatur.ts:139-142 | a node an assign step coloured stays coloured in the replay while later colours are non-negative |
| `Dsatur.AssignedOnce` | src/algorithms/coloring/dsatur.ts:139-141 | with first-fit choices, two assign steps never name the same node, as the selected node leaves the uncoloured set |
| `Dsatur.OutcomeAssignsOnce` | src/algorithms/coloring/dsatur.ts:139-141 | in a DSATUR trace no node is assigned twice |
| `Dsatur.CompleteColorsAssigned` | src/algorithms/coloring/dsatur.ts:139-190 | a `complete` step reports for each coloured node the colour an assign step gave it, and, when no id is empty, a reported count one more than a colour some assign step gave |
| `Dsatur.AppendAssigned` | src/algorithms/coloring/dsatur.ts:139-142 | appending an assign step with the first-fit colour keeps every assign step first-fit, and the colours replayed from the trace gain exactly that assignment |
| `Dsatur.UsedAroundIs` | src/algorithms/coloring/dsatur.ts:108-115 | the colours the neighbour loop collects are those the trace so far has given the node's graph neighbours |
| `Dsatur.NbrsAreContributed` | src/algorithms/coloring/dsatur.ts:9-24 | a node's adjacency set holds exactly what the edge list contributes to it |
| `Dsatur.FailPhase` | src/algorithms/coloring/dsatur.ts:117-137 | when every colour below the cap is taken around the selected node, the select and `failed` steps end a trace that `DsaturOutcome` describes |
| `Dsatur.AssignPhase` | src/algorithms/coloring/dsatur.ts:117-174 | a first-fit colour below the cap colours the selected node, keeps the colouring invariant, and keeps every assign step of the trace first-fit and the replayed colours equal to the current ones |
| `Dsatur.EdgelessFailsOnlyBelowZero` | src/algorithms/coloring/dsatur.ts:117-137 | without edges every first-fit colour is 0, so a run ends `failed` only under a negative cap |
| `Dsatur.FailedOutcome` | src/algorithms/coloring/dsatur.ts:122-137 | a colour at or above a truthy cap ends the trace with one `failed` step after the `select` step, and the selected node was never coloured |
| `Dsatur.Run` | src/algorithms/coloring/dsatur.ts:37-191 | the trace is described by `DsaturOutcome`: no step without nodes; steps numbered 0, 1, 2, …; `init` first; then select/assign pairs naming the same node; then `complete` or `failed`; every assign step colours a node still uncoloured, with the least colour its neighbours do not have at that point; a `complete` step reports exactly the colours the assign steps set; a `failed` step comes only when every colour below the cap is taken around the selected node; a completed run on named nodes has 2n+2 steps and its final colours match every assign step |
| `Dsatur.Execute` | src/algorithms/coloring/dsatur.ts:193-208 | the steps are the trace `DsaturOutcome` describes; success exactly when the last phase is not `failed`, so an empty run succeeds and a failure means the selected node's neighbours use every colour below the cap; the final state is the last step's; a success on a graph with nodes reports a full colouring, the one its assign steps built |
| `Pathfinding.BuildWeightedAdjacency` | src/algorithms/pathfinding/dijkstra.ts:10-33 | one key per node id; each list holds, in edge order, one entry per edge leaving that node (both ends when undirected), with weight 1 when none is given |
| `Pathfinding.EntriesForIffEdge` | src/algorithms/pathfinding/dijkstra.ts:17-30 | an entry is in a node's list exactly when some edge gives it |
| `Pathfinding.EntryIsAdjacent` | src/algorithms/pathfinding/dijkstra.ts:17-30 | every entry leads to a graph neighbour |
| `Pathfinding.ClosedUnderWalks` | src/algorithms/pathfinding/dijkstra.ts:98-110 | a node set that holds the start and every neighbour of its members holds the end of every walk from the start |
| `Pathfinding.ReconstructPath` | src/algorithms/pathfinding/dijkstra.ts:35-55 | the path ends at the end node; each node after the first is linked to its predecessor by the recorded edge; the walk stops at a node without a link; an empty end node gives an empty path |
| `Pathfinding.LinkRank` | src/algorithms/pathfinding/dijkstra.ts:43-52 | the predecessor links are ranked: following them from any node stops, so path reconstruction terminates |
| `Pathfinding.Paint` | src/algorithms/pathfinding/dijkstra.ts:214-222 | overlaying a style on a set of ids gives those ids the style and keeps every other entry |
| `Pathfinding.WeightedAlongRoute` | src/algorithms/pathfinding/dijkstra.ts:212-244 | a path whose consecutive distance labels differ by the weights of the recorded edges is a route of the graph whose cost is the difference of the end labels |
| `Pathfinding.FoundRoute` | src/algorithms/pathfinding/dijkstra.ts:229-244 | the reported distance of a found step is the cost of a route along the reported path |
| `Pathfinding.Finish` | src/algorithms/pathfinding/dijkstra.ts:194-244 | an infinite end distance gives the `found:false` step with start and end styles; a finite one gives a found step whose path ends at the end node, starts at the start node, follows the recorded edges, and reports the end distance and the visited count |
| `Dijkstra.InitialDistances` | src/algorithms/pathfinding/dijkstra.ts:76-79 | every node gets a distance, finite only for the start, which gets 0 |
| `Dijkstra.SelectMin` | src/algorithms/pathfinding/dijkstra.ts:99-110 | picks the unvisited node with the strictly smallest finite distance, the first in map order on ties, and none exactly when every unvisited distance is infinite |
| `Dijkstra.RelaxEntry` | src/algorithms/pathfinding/dijkstra.ts:150-160 | a visited neighbour is skipped; distance and predecessor change only on strict improvement, and a newly met id joins the map order at its end |
| `Dijkstra.Relax` | src/algorithms/pathfinding/dijkstra.ts:146-161 | the relaxation loop applies that rule entry by entry; the distances and the relaxed-edge list are those of `Replay`: the edges of the improving entries, in entry order, empty exactly when nothing improved |
| `Pathfinding.ReplayOneMore` | src/algorithms/pathfinding/dijkstra.ts:150-160 | one more entry handled by the relaxation rule advances the reference definition `Replay` by exactly that entry |
| `Dijkstra.PrefixOptimal` | src/algorithms/pathfinding/dijkstra.ts:98-110 | with non-negative weights, a route whose last-but-one node is visited reaches that node at no less than its optimal distance |
| `Dijkstra.RouteToSelected` | src/algorithms/pathfinding/dijkstra.ts:98-110 | with non-negative weights, no route from the start to the selected node costs less than its distance |
| `Dijkstra.FrontierBound` | src/algorithms/pathfinding/dijkstra.ts:98-110 | with non-negative weights, the first unvisited node on any route from the start already has a distance no larger than that route's cost |
| `Dijkstra.SelectedIsShortest` | src/algorithms/pathfinding/dijkstra.ts:138-144 | with non-negative weights, the selected node's distance is the cost of a shortest route, so every visited node's distance is optimal |
| `Dijkstra.RelaxKeepsOptimal` | src/algorithms/pathfinding/dijkstra.ts:150-161 | relaxation never changes a visited node's distance, so optimality survives it |
| `Dijkstra.SelectPhase` | src/algorithms/pathfinding/dijkstra.ts:112-144 | emits the `select` step and marks the node visited, keeping the loop invariant |
| `Dijkstra.RelaxPhase` | src/algorithms/pathfinding/dijkstra.ts:146-191 | relaxes the neighbours and emits a `relax` step, carrying the number of relaxed edges (always positive), only when at least one edge improved, keeping the loop invariant |
| `Dijkstra.NotFoundExit` | src/algorithms/pathfinding/dijkstra.ts:195-210 | when the loop ends with the end unvisited, no walk from the start reaches the end |
| `Dijkstra.Run` | src/algorithms/pathfinding/dijkstra.ts:64-245 | the trace is described by `DijkstraOutcome`: no step without both endpoints or nodes; `init` first; select steps name distinct nodes; each relax step follows the select of its node and relaxed at least one edge; the run ends found or not found; a found path ends at the end node with the distance of the last select step, and that distance is the shortest route cost when weights are non-negative |
| `Dijkstra.Execute` | src/algorithms/pathfinding/dijkstra.ts:247-262 | success exactly when the last step reports `found`; a success reports a path to the end, from the start, of exactly the reported cost, and no route is cheaper when weights are non-negative; a failure after some steps means no walk reaches the end |
| `AStar.SquaredGap` | src/algorithms/pathfinding/astar.ts:47-48 | the squared coordinate gap is non-negative |
| `AStar.Heuristic` | src/algorithms/pathfinding/astar.ts:35-50 | the estimate is 0 whenever either node is missing or lacks a coordinate |
| `AStar.HeuristicSymmetric` | src/algorithms/pathfinding/astar.ts:35-50 | the estimate does not depend on the order of its two nodes |
| `AStar.InitialCosts` | src/algorithms/pathfinding/astar.ts:96-102 | every node (and the start) gets a cost, finite only for the start, which gets 0 |
| `AStar.InitialScores` | src/algorithms/pathfinding/astar.ts:96-104 | every node (and the start) gets a score; the start's is its estimate |
| `AStar.SelectBest` | src/algorithms/pathfinding/astar.ts:127-138 | picks the open node with the strictly smallest finite score, the first in insertion order on ties, and none exactly when every open score is infinite |
| `AStar.OpenScoresFinite` | src/algorithms/pathfinding/astar.ts:125-138 | every open node has a finite score, so the scan finds a node exactly when the open set is non-empty |
| `AStar.ExploreEntry` | src/algorithms/pathfinding/astar.ts:190-202 | a closed neighbour is skipped; on strict improvement the predecessor, cost and score (cost plus estimate) are set and the node joins the open set |
| `AStar.Explore` | src/algorithms/pathfinding/astar.ts:186-203 | the exploration loop applies that rule entry by entry; the costs and the recorded edges are those of `Replay`: the edges of the improving entries, in entry order |
| `AStar.EntryKeepsInvariant` | src/algorithms/pathfinding/astar.ts:186-203 | handling one more entry by that rule keeps the loop invariant, its agreement with `Replay` included |
| `AStar.SelectPhase` | src/algorithms/pathfinding/astar.ts:140-184 | emits the `select` step with g, h = f - g and f, and moves the node from open to closed |
| `AStar.ExploreKeepsOpen` | src/algorithms/pathfinding/astar.ts:183-203 | open and closed stay disjoint and every open node keeps a finite, up-to-date score |
| `AStar.ExplorePhase` | src/algorithms/pathfinding/astar.ts:186-237 | explores the neighbours and emits an `explore` step only when at least one edge improved, keeping the loop invariant |
| `AStar.NotFoundExit` | src/algorithms/pathfinding/astar.ts:240-256 | when the open set empties with the end not closed, no walk from the start reaches the end |
| `AStar.FoundPhase` | src/algorithms/pathfinding/astar.ts:258-290 | selecting the end closes the trace with a found step whose path follows the recorded edges |
| `AStar.Run` | src/algorithms/pathfinding/astar.ts:81-291 | the trace is described by `AStarOutcome`: no step without both endpoints or nodes; `init` with open size 1 first; the first selected node is the start; select steps name distinct nodes, so no node is closed twice; the run ends found or not found as `Dijkstra.Run` does |
| `AStar.Execute` | src/algorithms/pathfinding/astar.ts:293-308 | the steps are the trace `AStarOutcome` describes; success exactly when the last step reports `found`; a success reports a path to the end, from the start, whose distance is the cost of a route along it; a failure after some steps means no walk reaches the end |
| `AStar.ResultReports` | src/algorithms/pathfinding/astar.ts:293-308 | the result built from a run's steps keeps that run's trace, is empty exactly when an endpoint or all nodes are missing, a success reports the path and its cost, and a failure after some steps means no walk reaches the end |
| `AStar.OutcomeReports` | src/algorithms/pathfinding/astar.ts:240-290 | a trace described by `AStarOutcome` is empty exactly when an endpoint or all nodes are missing, and its final step is reported as `Execute` states |
| `Registry.FilterByCategory` | src/algorithms/index.ts:15 | keeps exactly the runners of the category |
| `Registry.FilterAppend` | src/algorithms/index.ts:15 | filtering distributes over concatenation, so the kept runners stay in order |
| `Registry.GetAlgorithmsByCategory` | src/algorithms/index.ts:14-16 | exactly the registered runners of that category |
| `Registry.RegistryByCategory` | src/algorithms/index.ts:7-16 | with the registry [dsatur, dijkstra, astar]: colouring gives [dsatur], pathfinding gives [dijkstra, astar], traversal and MST give nothing |
| `Registry.FindById` | src/algorithms/index.ts:20 | `find` by id: absent exactly when no runner has the id, otherwise the first that does |
| `Registry.GetAlgorithmById` | src/algorithms/index.ts:19-21 | absent exactly when no registered runner has the id; otherwise a registered runner with that id |
| `Registry.FoundByOwnId` | src/algorithms/index.ts:7-21 | the ids are distinct, so each registered runner is found by its own id |
| `Registry.Entries` | src/algorithms/index.ts:34-40 | one entry per listed category that has a runner, each with its name and runners; none is empty |
| `Registry.EntryFor` | src/algorithms/index.ts:34-40 | one category gives at most one entry, present exactly when it has a runner, with its name and its runners in registry order |
| `Registry.EntriesAppend` | src/algorithms/index.ts:34-40 | the entries of a concatenated category list are the entries of each part, concatenated, so the listing follows the category order |
| `Registry.EntriesSingle` | src/algorithms/index.ts:34-40 | a single category gives exactly its own entry |
| `Registry.GetCategories` | src/algorithms/index.ts:24-41 | every category with a runner is listed with its runners, and no listed category is empty |
| `Registry.CurrentCategories` | src/algorithms/index.ts:24-41 | with the current registry the listing is exactly `Graph Coloring` with [dsatur], then `Pathfinding` with [dijkstra, astar] |
| `Registry.Generate` | src/algorithms/index.ts:7-11 | running a registered runner runs its engine, and produces no step exactly in the cases the engine emits none |
| `Registry.Drain` | src/hooks/useAlgorithmRunner.ts:65-72 | draining the generator keeps the steps in emission order, so the list is the engine's trace |
| `Playback.ClampSpeed` | src/stores/algorithmStore.ts:76-78 | the speed lies in [50, 2000], is unchanged inside that range, and is 50 below it and 2000 above it |
| `Playback.Forward` | src/stores/algorithmStore.ts:80-87 | one step forward moves exactly when the cursor is before the last step and keeps a valid cursor valid |
| `Playback.Backward` | src/stores/algorithmStore.ts:89-96 | one step back moves exactly when the cursor is past the first step, so it never reaches -1 |
| `Playback.ForwardBackward` | src/stores/algorithmStore.ts:80-96 | a step back undoes a step forward taken from a step, and the reverse |
| `Playback.Forwards` | src/stores/algorithmStore.ts:80-87 | repeated forward steps keep a valid cursor valid |
| `Playback.ForwardsReachEnd` | src/stores/algorithmStore.ts:80-87 | from any valid cursor, the next n-1-c forward steps all move and reach the last step, and the one after does not move, so playing always ends |
| `Playback.AlgorithmStore.constructor` | src/stores/algorithmStore.ts:38-44 | no runner, empty parameters, no steps, cursor -1, idle, speed 200 |
| `Playback.AlgorithmStore.SelectAlgorithm` | src/stores/algorithmStore.ts:46-53 | choosing a runner discards the steps, resets the cursor and goes idle; parameters and speed stay |
| `Playback.AlgorithmStore.SetParams` | src/stores/algorithmStore.ts:55-59 | the patch's entries override the stored ones (`MergeParams`); nothing else changes |
| `Playback.AlgorithmStore.SetSteps` | src/stores/algorithmStore.ts:61-63 | installs the list with the cursor on its first step, or at -1 when it is empty |
| `Playback.AlgorithmStore.SetCurrentStep` | src/stores/algorithmStore.ts:65-70 | the cursor moves only to -1 or to an index of the list; any other index changes nothing |
| `Playback.AlgorithmStore.SetStatus` | src/stores/algorithmStore.ts:72-74 | only the status changes |
| `Playback.AlgorithmStore.SetSpeed` | src/stores/algorithmStore.ts:76-78 | the speed becomes the clamped value; nothing else changes |
| `Playback.AlgorithmStore.StepForward` | src/stores/algorithmStore.ts:80-87 | the cursor and the result are `Forward` of the old cursor; nothing else changes |
| `Playback.AlgorithmStore.StepBackward` | src/stores/algorithmStore.ts:89-96 | the cursor and the result are `Backward` of the old cursor; nothing else changes |
| `Playback.AlgorithmStore.GoToStart` | src/stores/algorithmStore.ts:98-103 | on a non-empty list the cursor goes to the first step, after which `isAtStart` holds; an empty list changes nothing |
| `Playback.AlgorithmStore.GoToEnd` | src/stores/algorithmStore.ts:105-110 | on a non-empty list the cursor goes to the last step, after which `isAtEnd` holds; an empty list changes nothing |
| `Playback.AlgorithmStore.Reset` | src/stores/algorithmStore.ts:112-118 | discards the steps, cursor -1, idle; runner, parameters and speed stay |
| `Playback.AlgorithmStore.CurrentStep` | src/stores/algorithmStore.ts:120-123 | none exactly when the cursor is before the first step, otherwise the step under the cursor |
| `Playback.AlgorithmStore.Progress` | src/stores/algorithmStore.ts:125-129 | 0 on an empty list; otherwise within [0, 100], 100 exactly on the last step and 0 exactly before the first |
| `Playback.ProgressBounds` | src/stores/algorithmStore.ts:128 | the played fraction times 100 stays in [0, 100] and hits its ends only at none played and all played |
| `Playback.AlgorithmStore.IsAtStart` | src/stores/algorithmStore.ts:131-133 | true exactly when a step back would not move |
| `Playback.AlgorithmStore.IsAtEnd` | src/stores/algorithmStore.ts:135-138 | true exactly when a step forward would not move |
| `Playback.MergeParams` | src/stores/algorithmStore.ts:57 | an entry the patch carries replaces the stored one; the others stay |
| `Playback.MergeIdempotent` | src/stores/algorithmStore.ts:55-59 | applying the same patch twice equals applying it once, and an empty patch changes nothing |
| `Runner.RunAlgorithm` | src/hooks/useAlgorithmRunner.ts:59-80 | the store holds the runner's full trace; it is empty exactly when the engine emits nothing, leaving the store idle at -1; otherwise the cursor is on the first step and the store is paused; runner, parameters and speed stay |
| `Runner.Play` | src/hooks/useAlgorithmRunner.ts:84-91 | without steps nothing changes; at or past the last step the cursor first goes back to 0; then the store is running |
| `Runner.Pause` | src/hooks/useAlgorithmRunner.ts:93-95 | the store is paused; nothing else changes |
| `Runner.Stop` | src/hooks/useAlgorithmRunner.ts:97-99 | exactly the store's reset |
| `Runner.Tick` | src/hooks/useAlgorithmRunner.ts:34-42 | one tick is one forward step; when it does not move the store becomes complete and ticking stops |
| `Runner.FlagsOf` | src/hooks/useAlgorithmRunner.ts:101-105 | each flag is an equality test on the status, and `hasSteps` holds exactly when there is a step |
| `Runner.OneStatusFlag` | src/hooks/useAlgorithmRunner.ts:101-104 | exactly one of the four status flags holds |
| `Race.Advance` | src/stores/raceStore.ts:109-110 | a side's cursor advances by one unless it is done, and never passes its last step |
| `Race.Decide` | src/stores/raceStore.ts:98-102 | the left side wins exactly when its list is strictly shorter, the right side likewise, and equal lengths tie |
| `Race.DecideSwap` | src/stores/raceStore.ts:98-102 | swapping the sides swaps the winner |
| `Race.AdvanceReachesEnd` | src/stores/raceStore.ts:109-110 | a cursor at or before its last step reaches it after n-1-c moves and then stays |
| `Race.LockstepSides` | src/stores/raceStore.ts:108-111 | in lockstep each side moves independently of the other |
| `Race.RaceEnds` | src/stores/raceStore.ts:91-131 | after as many moves as the longer side needs, both sides are done, each exactly on its last step |
| `Race.RunSide` | src/stores/raceStore.ts:63-79 | a side's list is the trace the runner's engine emits for the two endpoints (`Produced`), and, with both endpoints non-empty, it is empty exactly when the graph has no node, whatever the runner |
| `Race.RaceStore.constructor` | src/stores/raceStore.ts:38-49 | no runners, no steps, cursors -1, idle, no winner, speed 200, empty endpoints |
| `Race.RaceStore.SelectLeft` | src/stores/raceStore.ts:51 | only the left runner changes |
| `Race.RaceStore.SelectRight` | src/stores/raceStore.ts:52 | only the right runner changes |
| `Race.RaceStore.SetStartNode` | src/stores/raceStore.ts:53 | only the start node changes |
| `Race.RaceStore.SetEndNode` | src/stores/raceStore.ts:54 | only the end node changes |
| `Race.RaceStore.SetSpeed` | src/stores/raceStore.ts:56 | the speed becomes the clamped value; nothing else changes |
| `Race.RaceStore.CanStart` | src/stores/raceStore.ts:172-175 | true exactly when both runners are chosen and the endpoints are non-empty and distinct |
| `Race.RaceStore.RunRace` | src/stores/raceStore.ts:58-89 | a no-op unless `CanStart`; otherwise each list is the trace its runner's engine emits (`Produced`) and is empty exactly when the graph has no node, each cursor is on its first step (or -1 when empty), the race is paused and there is no winner |
| `Race.RaceStore.StepBoth` | src/stores/raceStore.ts:91-131 | each cursor is `Advance` of its old value; the result is true exactly when a side is still not done; when both are done the race is complete and the winner is `Decide` of the list lengths |
| `Race.RaceStore.Play` | src/stores/raceStore.ts:133-149 | a no-op when both lists are empty; when both sides are done both cursors go to 0 and the winner is cleared; then the race is running |
| `Race.RaceStore.Pause` | src/stores/raceStore.ts:151 | the race is paused; nothing else changes |
| `Race.RaceStore.Reset` | src/stores/raceStore.ts:153-160 | both lists empty, cursors -1, idle, no winner; runners, endpoints and speed stay |
| `Race.RaceStore.LeftCurrentStep` | src/stores/raceStore.ts:162-165 | none exactly when the left cursor is before the first step, otherwise the step under it |
| `Race.RaceStore.RightCurrentStep` | src/stores/raceStore.ts:167-170 | none exactly when the right cursor is before the first step, otherwise the step under it |
| `GraphStore.SomeLinks` | src/stores/graphStore.ts:211-215 | `some` over the edges: true exactly when an edge joins the pair in that direction, or in either direction when undirected |
| `GraphStore.HasEdge` | src/stores/graphStore.ts:209-216 | true exactly when the two nodes are adjacent in the graph |
| `GraphStore.HasEdgeSymmetric` | src/stores/graphStore.ts:209-216 | on an undirected graph the test does not depend on the order of the two nodes |
| `GraphStore.KeepNodesNot` | src/stores/graphStore.ts:70 | keeps exactly the nodes with a different id |
| `GraphStore.KeepEdgesAwayFrom` | src/stores/graphStore.ts:71-73 | keeps exactly the edges the node is not an endpoint of |
| `GraphStore.KeepEdgesNot` | src/stores/graphStore.ts:121 | keeps exactly the edges with a different id |
| `GraphStore.KeepNodesNotOrdered` | src/stores/graphStore.ts:70 | the kept nodes are a subsequence of the old list, so they keep their order |
| `GraphStore.KeepEdgesAwayFromOrdered` | src/stores/graphStore.ts:71-73 | the kept edges are a subsequence of the old list |
| `GraphStore.KeepEdgesNotOrdered` | src/stores/graphStore.ts:121 | the kept edges are a subsequence of the old list |
| `GraphStore.SubsequenceKeepsRules` | src/stores/graphStore.ts:66-77 | removing edges cannot create a self-loop or a duplicate, so the editing rules survive any filter |
| `GraphStore.PatchNode` | src/stores/graphStore.ts:84 | `{ ...n, ...updates }`: each field the patch carries replaces the node's, and every other field (id, label, x, y, colour) keeps the node's value |
| `GraphStore.PatchEdge` | src/stores/graphStore.ts:133 | `{ ...e, ...updates }`: each field the patch carries replaces the edge's, and every other field (id, source, target, weight) keeps the edge's value |
| `GraphStore.UpdateNodes` | src/stores/graphStore.ts:83-85 | the list keeps its length; the nodes with the id are patched and every other node is unchanged |
| `GraphStore.UpdateEdges` | src/stores/graphStore.ts:132-134 | the list keeps its length; the edges with the id are patched and every other edge is unchanged |
| `GraphStore.UpdateKeepsIds` | src/stores/graphStore.ts:79-88 | a patch without an id leaves every node id where it was |
| `GraphStore.Pushed` | src/stores/graphStore.ts:197-204 | the pushed list holds exactly the nodes an edge leads to from the node (either way when undirected) |
| `GraphStore.Dedupe` | src/stores/graphStore.ts:206 | the loop computes `Dedup`: first occurrences, in order |
| `GraphStore.AppendKeepsRules` | src/stores/graphStore.ts:90-115 | appending a non-loop edge between nodes not yet adjacent keeps the editing rules |
| `GraphStore.UndirectingBreaksRules` | src/stores/graphStore.ts:173-177 | edges a→b and b→a obey the rules in a directed graph and form a duplicate pair once it is undirected |
| `GraphStore.FindEdge` | src/stores/graphStore.ts:190 | `find` by id: absent exactly when no edge has it, otherwise the first edge of the list with that id |
| `GraphStore.GraphEditor.constructor` | src/stores/graphStore.ts:40-43 | the empty graph and empty selections |
| `GraphStore.GraphEditor.AddNode` | src/stores/graphStore.ts:45-64 | appends exactly one node, with the given id or label when non-empty and the generated ones otherwise, and returns its id; edges and selections stay; non-empty ids and the editing rules are kept |
| `GraphStore.GraphEditor.RemoveNode` | src/stores/graphStore.ts:66-77 | the node, every edge it touches and its selection entry are gone; the rest keeps its order; the edge selection stays; the editing rules are kept |
| `GraphStore.GraphEditor.UpdateNode` | src/stores/graphStore.ts:79-88 | only nodes with the id change, by the patch; the editing rules are kept |
| `GraphStore.GraphEditor.AddEdge` | src/stores/graphStore.ts:90-116 | refuses, changing nothing, exactly a self-loop or an existing connection; otherwise appends one edge with id `e-source-target` and weight `weight ?? 1`, returns the id, and keeps the editing rules |
| `GraphStore.GraphEditor.RemoveEdge` | src/stores/graphStore.ts:118-126 | every edge with the id and its selection entry are gone; the rest keeps its order; the editing rules are kept |
| `GraphStore.GraphEditor.UpdateEdge` | src/stores/graphStore.ts:128-137 | only edges with the id change, by the patch; nodes and selections stay |
| `GraphStore.GraphEditor.SelectNode` | src/stores/graphStore.ts:139-146 | without adding, the node selection becomes that id alone and the edge selection empties; with adding, the id is appended; the graph stays |
| `GraphStore.GraphEditor.SelectEdge` | src/stores/graphStore.ts:148-155 | without adding, the edge selection becomes that id alone and the node selection empties; with adding, the id is appended; the graph stays |
| `GraphStore.GraphEditor.ClearSelection` | src/stores/graphStore.ts:157-159 | both selections empty; the graph stays |
| `GraphStore.GraphEditor.LoadGraph` | src/stores/graphStore.ts:161-163 | the graph is replaced and both selections empty |
| `GraphStore.GraphEditor.Clear` | src/stores/graphStore.ts:165-171 | the empty graph, which obeys the editing rules, and empty selections |
| `GraphStore.GraphEditor.SetDirected` | src/stores/graphStore.ts:173-177 | only the flag changes; switching to directed keeps the editing rules |
| `GraphStore.GraphEditor.SetWeighted` | src/stores/graphStore.ts:179-183 | only the flag changes; the editing rules are kept |
| `GraphStore.GraphEditor.GetNode` | src/stores/graphStore.ts:185-187 | absent exactly when no node has the id, otherwise the first node of the graph with that id |
| `GraphStore.GraphEditor.GetEdge` | src/stores/graphStore.ts:189-191 | absent exactly when no edge has the id, otherwise the first edge of the graph with that id |
| `GraphStore.GraphEditor.GetAdjacentNodes` | src/stores/graphStore.ts:193-207 | duplicate-free, in first-occurrence order, holding exactly the nodes `hasEdge` reports adjacent |

## Left out

- Description strings, the `message` of a result, `toFixed` formatting, and runner descriptions
  and complexity strings: presentation text.
- Exact colours and style values: node and edge styles are tags, one per colour triple the
  engines write. The DSATUR palette is kept as strings.
- The `data` bags of nodes and edges: nothing in the core reads them.
- Floating point:
  - `Math.sqrt` inside the A* estimate is a function parameter `sqrt`;
  - coordinates and weights are unbounded integers;
  - A*'s g, h and f use exact reals.
- `Playback.AlgorithmStore.Progress`: computed with exact reals, so float rounding is not
  modelled.
- A* optimality: not claimed, because the estimate may overestimate a route's cost. The
  model states the reported distance and route, not that they are shortest.
- Open and closed set sizes in A*'s step records are modelled but constrained only loosely.
- Generators: `function*`/`yield` are methods returning the whole list. Every caller drains
  the generator completely, so laziness has no effect.
- Timers: `setInterval`/`clearInterval` are left out, and one tick is a call of `Runner.Tick`.
  React hooks and store subscriptions are left out too.
- Generated ids and counters: `generateNodeId` (clock and randomness) and the default-label
  counter are the `freshId` and `freshLabel` inputs of `GraphStore.GraphEditor.AddNode`.
- Patches: a `Partial` patch is a record of optional fields. An explicit `undefined` value in
  a patch is treated as an absent key.
- `GraphStore.GraphEditor.UpdateEdge`: does not state that the editing rules are kept, because
  a patch may rewrite endpoints into a duplicate or a self-loop.
- `GraphStore.GraphEditor.SetDirected`: keeps the editing rules only when switching to
  directed; `GraphStore.UndirectingBreaksRules` shows why switching back can break them.
- Race `play` on a store with exactly one empty list would put that cursor at 0. The model's
  `Race.RaceStore.Play` does this too. `Race.RaceStore.Valid` holds from construction on and
  makes both lists empty together, so the case cannot arise from the store's own actions.
- `Dsatur.Run`: `DsaturOutcome` states the colour of every assign step and when the run may
  fail, but not which node each select step picks; `Dsatur.SelectNode` states that rule for
  one pick.
- `Dijkstra.Run`: `DijkstraOutcome` does not state which node each select step names, nor that
  the distances of a step are those its earlier steps build. `Dijkstra.SelectMin` and
  `Dijkstra.Relax` state these rules for one pick and one relaxation, and the trace states the
  optimality they lead to.
- `AStar.Run`: `AStarOutcome` does not state that each select step names the open node with the
  least score, first in insertion order on ties. `AStar.SelectBest` and `AStar.Explore` state
  these rules for one pick and one exploration.
- Empty node ids: `reconstructPath` and the DSATUR selection stop at an empty id. Claims that
  rely on non-empty ids are guarded by `NamedEverywhere` or `NonEmptyIds`:
  - that a path starts at the start node;
  - the step count of a completed colouring.
- Dijkstra's shortest-distance claim assumes non-negative weights, which the source does not
  check.
- The React components, the Cytoscape canvas hook and the UI store: interface code with no
  algorithmic content.
