# Separation-node community detection: a Dafny model

This project models the algorithmic engine of a community detector that
works through *separation nodes*. For every edge (v, w) of a small undirected
graph with nodes `0..n-1` the detector:

1. runs a two-root breadth-first search from v and w, with the edge itself
   taken out;
2. scores the edge with a *neighbourhood connectivity* estimate, which
   compares the edges observed between the two subtrees with what a
   configuration model expects;
3. writes the estimates into a QUBO (a quadratic unconstrained binary
   optimisation matrix), whose minima classify nodes as separators (0) or
   kept (1).

Around this pipeline the repository provides:

- a validator that counts how far a classification is from a bijective
  refinement of a ground-truth partition (separation-set, injectivity and
  surjectivity violations);
- the acceptance test that follows the solver;
- a greedy assignment of the separators to communities;
- a constrained simulated-annealing loop;
- small label helpers.

The graph is `Graph(adj)`: an adjacency list per node, in the order the graph
library reports neighbours. `WellFormed` means:

- neighbours lie in range;
- there are no self loops;
- no neighbour is listed twice;
- adjacency is symmetric.

Python dictionaries keyed by nodes become sequences indexed by node. A
classification is a `seq<bool>`, where `false` marks a separator (the
source's 0). Python exceptions become `Failure(KeyError)` and the like. Floats
are `real`.

Modules, in dependency order:

- `Wrappers`: the `Option` and `Result` types and the modelled exceptions.
- `Graphs`: graphs, the edge list `G.edges()` (each edge once, low end
  first), and removing and restoring an edge.
- `Connectivity`: connected components of an induced subgraph, defined as
  reachability classes.
- `Layering`: the reference layering of the search. It covers balls, layers
  and depths (the distance to {v, w}), subtree-root tags (`V`, `W` or `Both`,
  the source's `{v, w}`), and edge layers.
- `Bfs`: the imperative two-root search, proved to compute that layering for
  every neighbour order.
- `Estimator`: edge selection, free stubs, the configuration-model estimate
  and the final score.
- `Qubo`: the generic QUBO builder, the three builders of the source, and the
  objective `xᵀQx`.
- `Labels`: `assign_com_index_ground_truth`, `count_lfr_coms` and
  `assign_nodes_to_coms`.
- `Validator`: `find_constraint_violations` and the check that follows the
  solver in `find_separation_node_set`.
- `Greedy`: `greedy_separation_node_classification`.
- `Annealing`: `simulated_annealing`. The random bit-flip indices and the
  Metropolis coins are inputs. `AnnealAsWritten` is the run as the source
  writes it; `Anneal` is the run with the overflow fixed (see Findings).
- `Detector`: the estimation loop of `run_separation_node_classification`
  and the QUBO built from it.

## Model

| member | source | states |
|---|---|---|
| Graphs.EdgeListSpec | neighborhoodConnectivity.py:246 | The edge list holds a pair exactly when it is an edge with its lower node first, and it holds no pair twice. |
| Graphs.EdgeInList | neighborhoodConnectivity.py:357 | Every edge appears in the edge list in its low-end-first orientation, so a graph with an edge has at least one listed edge. |
| Graphs.RemoveEdgeSpec | neighborhoodConnectivity.py:41 | Removing (v, w) leaves a well-formed graph on the same nodes. Its adjacency is the old one without exactly that edge, in both orientations. |
| Graphs.RestoreEdge | neighborhoodConnectivity.py:41-86 | Removing (v, w) and adding it back restores the same adjacency relation and every degree, and leaves the lists of other nodes untouched. |
| Connectivity.Components | graphs.py:426-428 | The components of the subgraph induced by `keep` are non-empty subsets of `keep`. Each is exactly the reachability class of its members. They are pairwise disjoint and together cover `keep`. |
| Connectivity.ComponentsMeet | graphs.py:428 | Two components that share a node are the same component. |
| Connectivity.ConnectedCut | neighborhoodConnectivity.py:320-328 | In a connected graph, every non-empty proper subset of the nodes has an edge leaving it. |
| Layering.BallIsGrow | neighborhoodConnectivity.py:60-65 | Ball k is the set of nodes reachable from {v, w} in at most k steps of the graph without (v, w). |
| Layering.Depth | neighborhoodConnectivity.py:51-53 | A node's depth is -1 exactly when the search to depth k does not reach it. |
| Layering.DepthSpec | neighborhoodConnectivity.py:63-65 | A depth other than -1 is at most k, and the node lies in the layer of that depth. |
| Layering.DepthOfLayer | neighborhoodConnectivity.py:52-65 | A node of layer j ≤ k has depth j, its distance to {v, w}. |
| Layering.NextLayer | neighborhoodConnectivity.py:60-65 | A node lies in layer i+1 exactly when it is not within i steps and has a neighbour in layer i. |
| Layering.LayerUnique | neighborhoodConnectivity.py:63-65 | A node lies in at most one layer. |
| Layering.NeighbourLayer | neighborhoodConnectivity.py:70-81 | A neighbour of a node of layer i lies in layer i-1, i or i+1. |
| Layering.CombineAdd | neighborhoodConnectivity.py:69-84 | Merging one more parent tag into the combined tag (keep equal tags, else `Both`) gives the combined tag of the enlarged parent set. So the tag does not depend on the order in which parents are met. |
| Bfs.ExploreNode | neighborhoodConnectivity.py:62-84 | Examining the neighbours of one node keeps the search invariant. The invariant covers depths, layers, tags, the two edge layers of the current layer, and the edge-depth map, extended by the node's pairs. |
| Bfs.ExploreLayer | neighborhoodConnectivity.py:61-84 | Examining every node of layer i, in any order, moves the invariant from layer i to layer i+1. |
| Bfs.ExploreLayers | neighborhoodConnectivity.py:60-84 | After d layers the search holds exactly the reference layering (see `Searched`). |
| Bfs.Explore | neighborhoodConnectivity.py:10-88 | Searching from an edge returns the reference layering of the graph without that edge (depths, layers, tags, edge layers and edge depths, as listed below the table), with the edge-layer of depth 0 empty, and hands back a graph with the edge restored: same nodes and same adjacency. |
| Bfs.RootLayerEmpty | neighborhoodConnectivity.py:58-76 | Once (v, w) is taken out, no edge joins the two roots inside layer 0, so the edge layer of depth 0 stays empty. |
| Estimator.Observed | neighborhoodConnectivity.py:128-139 | The observed edges of a layer are a subset of that layer's edges. |
| Estimator.ObservedReversed | neighborhoodConnectivity.py:128-139 | Recording every edge of a layer the other way round observes exactly the reversed edges, and as many. This is the orientation step that Estimator.ScoreUnique builds on. |
| Estimator.ObservedTags | neighborhoodConnectivity.py:128-139 | An edge inside a layer is observed exactly when its ends' tags differ or its first end is `Both`. An edge between layers is observed exactly when one end is `Both`. |
| Estimator.TouchingBound | neighborhoodConnectivity.py:144-146 | For a node of layer i, the explored edges from layer i-1 that touch it number at most its degree. |
| Estimator.StubsNonNegative | neighborhoodConnectivity.py:144-156 | Every free-stub count, per layer and per subtree root, is non-negative. |
| Estimator.InsideNeedsBetween | neighborhoodConnectivity.py:161-163 | If the edge layer inside layer 1 is non-empty, so is layer 0.5, so the two-term formula never divides by zero. |
| Estimator.ScoreDefined | neighborhoodConnectivity.py:121-166 | For search depths 1 and 2 the score is defined: no missing key and no division by zero. |
| Estimator.ScoreAtMostOne | neighborhoodConnectivity.py:157-166 | With 0 ≤ a ≤ 1 the score is at most 1. No lower bound is claimed. |
| Estimator.NoOtherNeighbours | neighborhoodConnectivity.py:164 | Edge layer 0.5 is empty exactly when v and w have no neighbours besides each other. |
| Estimator.ScoreIsolated | neighborhoodConnectivity.py:160-166 | When v and w have no other neighbours the score is exactly 1/2. |
| Estimator.ScoreHalfOnly | neighborhoodConnectivity.py:161-165 | At depth 1, or at depth 2 with no edge inside layer 1, the estimate is (nc + 1) / 2 for the layer-0.5 term nc, or 1/2 when layer 0.5 is empty. The weight a plays no part. |
| Estimator.Score | neighborhoodConnectivity.py:91-166 | The estimate fails with KeyError exactly when the search depth is neither 1 nor 2, where a key of the layer maps is missing. Otherwise only ZeroDivisionError can occur. Its value is given by Estimator.ScoreHalfOnly, and its bounds and definedness by Estimator.ScoreAtMostOne and Estimator.ScoreDefined. |
| Estimator.OneWaySize | neighborhoodConnectivity.py:128-139 | Two edge layers that each keep one orientation of the same edges have as many edges and as many observed edges. |
| Estimator.ScoreUnique | neighborhoodConnectivity.py:91-166 | Any two results of the search from (v, w) to depth 1 or 2 give the same estimate. So the free choice of orientation for the edges inside a layer does not change the estimate. |
| Qubo.Zeros | neighborhoodConnectivity.py:208 | The zero matrix is n×n with every entry 0. |
| Qubo.Apply | neighborhoodConnectivity.py:213-214 | Writing a list of entries leaves each cell with the value of the last write to it, or with its old value. |
| Qubo.Build | neighborhoodConnectivity.py:207-216 | A built matrix is n×n. Each cell holds its last write, else -1 on the diagonal and 0 elsewhere. |
| Qubo.ObjectiveOfBuild | neighborhoodConnectivity.py:361 | For distinct off-diagonal writes, `xᵀQx` equals the sum of the written values at cells whose two nodes are both 1, minus the number of ones. |
| Qubo.QuboNc | neighborhoodConnectivity.py:192-216 | The matrix has 2(1 - nc) at each estimated pair, -1 on the rest of the diagonal and 0 on the rest of the matrix. |
| Qubo.QuboNcObjective | neighborhoodConnectivity.py:207-216 | The objective of the estimate QUBO is the sum of the estimate entries of the selected pairs, minus the number of ones. |
| Qubo.EdgeBuild | neighborhoodConnectivity.py:355-359 | A matrix built from the edge list has the edge value at (i, j) for an edge with i < j, and -1 or 0 everywhere else. |
| Qubo.AnnealQubo | neighborhoodConnectivity.py:355-359 | The annealing QUBO has 2 at (i, j) for each edge with i < j whose blocks differ, -1 on the diagonal and 0 elsewhere. |
| Qubo.SeparatorQubo | graphs.py:301-309 | The separator-search QUBO has 20 at (i, j) for each edge with i < j whose communities differ, -1 on the diagonal and 0 elsewhere. |
| Qubo.CrossingGain | neighborhoodConnectivity.py:357-359 | The annealing entries add 2 for every listed edge that crosses blocks and has both ends selected. |
| Qubo.AnnealObjective | neighborhoodConnectivity.py:361 | The annealing objective is 2 × (selected crossing edges) minus the number of ones. |
| Labels.IndexOf | graphs.py:173 | `list.index` returns the first position holding the label. |
| Labels.NumberSpec | graphs.py:166-181 | The list of seen labels holds each label of the input exactly once. Each node's index points at its own label. |
| Labels.Number | graphs.py:166-181 | One index per node. What the indices point at is Labels.NumberSpec. |
| Labels.ComIndex | graphs.py:152-181 | `assign_com_index_ground_truth` gives one community index per node. Its range is Labels.IndexBelow and Labels.IndexUsed. |
| Labels.CountComs | graphs.py:184-201 | `count_lfr_coms` is 0 exactly when there are no labelled nodes. Its value is the length of the seen-label list (Labels.CountIsLength). |
| Labels.SameIndex | graphs.py:166-181 | Two nodes get the same index exactly when they carry the same label. |
| Labels.CountIsLength | graphs.py:198-201 | The number of distinct labels equals the length of the list of seen labels. |
| Labels.IndexBelow | graphs.py:166-201 | Every index is below the label count. |
| Labels.IndexUsed | graphs.py:166-201 | Every number below the label count is some node's index. |
| Labels.FirstAppearance | graphs.py:176-179 | A label seen for the first time gets the number of distinct labels before it. |
| Labels.AssignSpec | graphs.py:245-250 | A node maps to None exactly when no community holds it. Otherwise it maps to the last community, in iteration order, that holds it. |
| Labels.AssignNodes | graphs.py:228-250 | `assign_nodes_to_coms` gives one entry per node. Which entry is Labels.AssignSpec. |
| Labels.AssignDisjoint | graphs.py:245-250 | For pairwise disjoint communities, a node maps to community j exactly when j holds it. |
| Validator.Max | graphs.py:446-447 | The largest entry bounds every entry and is at most the sum of the entries. |
| Validator.SpillZero | graphs.py:445-449 | For positive sizes, "all but the largest" sums to 0 exactly when there is at most one size. |
| Validator.OverlapCount | graphs.py:439-444 | At most one intersection size is recorded exactly when the component meets at most one block. Recorded sizes are positive. |
| Validator.OneBlock | graphs.py:439-449 | A non-empty component meets at most one block of a partition exactly when some block contains it. |
| Validator.SepZeroIffInside | graphs.py:438-449 | The separation-set count is 0 exactly when every residual component lies inside one block. |
| Validator.MeetingCount | graphs.py:457-465 | A block meets no component exactly when no recorded size exists, and at most one component exactly when at most one size is recorded. Here the recorded sizes are component sizes. |
| Validator.InjSurZeroIffOnce | graphs.py:455-468 | The injectivity and surjectivity counts are both 0 exactly when every block meets exactly one component. |
| Validator.BlocksPartition | graphs.py:430-432 | The blocks (nodes sharing a label) partition the nodes. Node u lies in the block of its label index. |
| Validator.ComponentsPartition | graphs.py:425-428 | The residual components are non-empty, in range and pairwise disjoint. |
| Validator.ZeroIffBijective | graphs.py:404-469 | The violations are (0, 0, 0) exactly when the residual components refine the blocks bijectively. |
| Validator.FindViolations | graphs.py:404-469 | Counts the separation-set, injectivity and surjectivity violations of a labelling. Its meaning, all three are 0 exactly when the residual components refine the blocks bijectively, is Validator.ZeroIffBijective. |
| Validator.NoComponents | graphs.py:457-464 | With no residual component, injectivity is 0 and surjectivity is the number of blocks. |
| Validator.AllSeparators | graphs.py:425-469 | If every node is a separator, the result is (0, 0, number of distinct labels). |
| Validator.InsideSpec | graphs.py:331-335 | The first-match search over communities succeeds exactly when some community contains the component. |
| Validator.CountInsideSpec | graphs.py:347-357 | The count of components contained in a community is 0 exactly when none is, and 1 exactly when one is and no two are. |
| Validator.AcceptsIffBijective | graphs.py:328-361 | On a partition, both acceptance loops pass exactly when the components refine the blocks bijectively. |
| Validator.SeparatorSetSpec | graphs.py:317-363 | The check returns the solver's separators exactly when the violations of the solver's labelling are (0, 0, 0), and the empty set otherwise. |
| Validator.SeparatorSet | graphs.py:317-363 | The check returns either the empty set or exactly the separators of the solver's labelling. Which one, by the violations, is Validator.SeparatorSetSpec. |
| Greedy.Keep | neighborhoodConnectivity.py:285 | The kept nodes are exactly the nodes classified 1. |
| Greedy.NoneLonely | neighborhoodConnectivity.py:285-291 | After declassification no kept node is without a kept neighbour. |
| Greedy.Declassify | neighborhoodConnectivity.py:285-291 | Declassification keeps one entry per node and only turns kept nodes into separators, never the reverse. |
| Greedy.DeclassifyIdempotent | neighborhoodConnectivity.py:287-291 | Declassifying twice is the same as declassifying once. |
| Greedy.SeparatorList | neighborhoodConnectivity.py:293 | The separator list holds exactly the nodes classified 0, in increasing order. |
| Greedy.HitsPositive | neighborhoodConnectivity.py:306-309 | A node's count for a community is positive exactly when some neighbour lies in it. |
| Greedy.ZeroTable | neighborhoodConnectivity.py:303 | The initial connection summary is all zeros, one row per node and one column per community. |
| Greedy.Bump | neighborhoodConnectivity.py:309 | Incrementing one cell adds 1 there and changes nothing else. |
| Greedy.BumpTracks | neighborhoodConnectivity.py:309-313 | After an increment, the running maximum (updated on a strict rise) is still the largest of the touched cells, and it sits at a touched cell. |
| Greedy.CountNeighbour | neighborhoodConnectivity.py:307-313 | One neighbour adds 1 to the counts of exactly the communities holding it and keeps the running maximum. |
| Greedy.CountNode | neighborhoodConnectivity.py:306-313 | One pending node's counts grow by its neighbour count in each community. |
| Greedy.Scan | neighborhoodConnectivity.py:305-313 | A scan adds each pending node's per-community neighbour counts to the cumulative table. It finds nothing exactly when no pending node has a neighbour in any community. Otherwise it picks an attached pair whose cumulative count is maximal among the attached pairs. |
| Greedy.InitialPlacement | neighborhoodConnectivity.py:293-297 | The initial communities are disjoint, and the pending separators are exactly the nodes no community holds. |
| Greedy.NoCommunities | neighborhoodConnectivity.py:297 | There is no community exactly when no node is kept. |
| Greedy.PlaceStep | neighborhoodConnectivity.py:316-317 | Moving a pending node into a community keeps that placement and shortens the pending list by one. |
| Greedy.ScanFinds | neighborhoodConnectivity.py:320-328 | In a connected graph with a community and a pending node, some pending node has a neighbour in some community. |
| Greedy.JoinAttached | neighborhoodConnectivity.py:316 | Adding an attached node keeps "every added node has a neighbour in its community". |
| Greedy.Round | neighborhoodConnectivity.py:315-328 | One round fails with KeyError exactly when there are no communities, and otherwise fails only with ValueError. In a connected graph it always succeeds. On success it places the chosen node, grows one community, and keeps the placement and the scan facts. |
| Greedy.Rounds | neighborhoodConnectivity.py:315-329 | The rounds fail with KeyError exactly when there are no communities but pending separators. On success every node is placed in exactly one community. In a connected graph they succeed. |
| Greedy.Assign | neighborhoodConnectivity.py:266-330 | The caller's classification becomes the declassified one. KeyError happens exactly when nodes exist but none is kept. On success the communities extend their seed components and place every node exactly once. In a connected graph with a kept node it succeeds, and every added node has a neighbour in its community. |
| Annealing.Flip | neighborhoodConnectivity.py:377-379 | The candidate differs from the current point in exactly the drawn bit. |
| Annealing.Assess | neighborhoodConnectivity.py:368-369 | Assessing a point keeps its bits. That its objective is the crossing QUBO's value is Qubo.AnnealObjective. |
| Annealing.Candidate | neighborhoodConnectivity.py:377-383 | The candidate has as many bits as the current point and differs from it in exactly bit `draw mod n`. |
| Annealing.Ratchet | neighborhoodConnectivity.py:384-388 | The best point is replaced exactly when the candidate is no worse in the objective and in each violation count. So the best never gets worse. |
| Annealing.ExpError | neighborhoodConnectivity.py:394-396 | Computing the Metropolis factor can raise only OverflowError, and only at a non-zero temperature. At temperature 0 the objective difference is a numpy float (`f` at line 361), so the quotient is an infinity or NaN and `math.exp` does not raise. It raises nothing for a positive temperature and a non-negative difference. |
| Annealing.Decide | neighborhoodConnectivity.py:384-405 | Corrected decision (see Findings). The current point moves only to the candidate, and never to more total violations. A candidate with no more violations and no higher objective is always taken. One with more violations is always rejected. The best point is ratcheted. Only a raising candidate can make it fail, with OverflowError and only below temperature 0. At temperature 0 it succeeds and moves to the candidate exactly when the candidate adds no violations and does not raise the objective, because the factor `exp(-inf)` is 0. |
| Annealing.DecideAsWritten | neighborhoodConnectivity.py:392-405 | As the source orders it: whatever computing the Metropolis factor raises is raised. Otherwise it decides as the corrected decision. It never raises ZeroDivisionError. At temperature 0 it succeeds and moves to the candidate exactly when the candidate adds no violations and does not raise the objective. |
| Annealing.Step | neighborhoodConnectivity.py:377-405 | Corrected step (see Findings). It fails with ValueError exactly when the graph has no nodes (`randrange(0)`). At a non-negative temperature it succeeds whenever there are nodes. At temperature 0 it moves to the candidate exactly when the candidate adds no violations and does not raise the objective. |
| Annealing.StepAsWritten | neighborhoodConnectivity.py:377-405 | The step as the source writes it. ValueError exactly when there are no nodes. It never raises ZeroDivisionError. OverflowError needs nodes and a non-zero temperature. At temperature 0, and whenever it succeeds, it agrees with the corrected step. |
| Annealing.OverflowStep | neighborhoodConnectivity.py:394-396 | At a positive temperature, a candidate whose factor overflows fails the step as written, while the corrected step succeeds. |
| Annealing.CalmStep | neighborhoodConnectivity.py:392-396 | At a positive temperature, in iteration i of a run of m, a step whose drawn flip lowers the objective by at most ExpLimit × temp / m succeeds as written: `math.exp` does not overflow. |
| Annealing.StepAssessed | neighborhoodConnectivity.py:377-405 | The current and best points keep their true objective and violations. The current point changes by at most one bit per step. |
| Annealing.Start | neighborhoodConnectivity.py:363-366 | Without a warm start the initial point is all zeros. Otherwise it is the warm start. |
| Annealing.Anneal | neighborhoodConnectivity.py:333-414 | Corrected run (see Findings). The returned best point carries its true objective and violations and is no worse than the start in each of them. ValueError happens exactly when there are no nodes but iterations. It never raises ZeroDivisionError, and OverflowError needs a negative temperature. With the corrected decision a non-negative temperature always succeeds. |
| Annealing.AnnealAsWritten | neighborhoodConnectivity.py:333-414 | The run as the source writes it. It gives the same best-point guarantee on success. ValueError happens exactly when there are no nodes but iterations. It never raises ZeroDivisionError. OverflowError needs nodes and a non-zero temperature. An error of the first step is the run's. At temperature 0 it succeeds. At a positive temperature with a calm objective it succeeds. |
| Annealing.OverflowOnImprovement | neighborhoodConnectivity.py:394-402 | A big enough improvement makes the as-written order raise OverflowError, while the corrected decision succeeds and accepts the candidate. |
| Annealing.OverflowFirstStep | neighborhoodConnectivity.py:363-405 | On any one-node graph without a warm start, at temperature 0.001, the first step as written raises OverflowError, so the run does. The corrected step succeeds. |
| Annealing.OverflowExample | neighborhoodConnectivity.py:394-402 | A one-node instance: improving the objective by 1 at iteration 999 with temperature 1 overflows as written and is accepted when corrected. |
| Detector.EstimateEdge | neighborhoodConnectivity.py:247-249 | An edge's estimate is the score of a search from that edge. It fails with KeyError exactly when the depth is 0 or above 2. |
| Detector.Estimations | neighborhoodConnectivity.py:244-250 | The estimates follow the edge list, each the score of its edge's search. They exist for depths 1 and 2 and fail with KeyError otherwise (when there is an edge). |
| Detector.EdgeKeys | neighborhoodConnectivity.py:246-249 | Estimates keyed by the edge list have distinct, in-range keys with two different ends. |
| Detector.NotKey | neighborhoodConnectivity.py:213-214 | Only edges, lower node first, are keys of the estimates. |
| Detector.QuboCells | neighborhoodConnectivity.py:207-216 | Off the edges, the estimate QUBO is -1 on the diagonal and 0 elsewhere. |
| Detector.CellsEstimated | neighborhoodConnectivity.py:213-214 | The cell of each edge decodes, via nc = 1 - q/2, to that edge's estimate. |
| Detector.NcQubo | neighborhoodConnectivity.py:244-251 | The QUBO of the detector is defined for depths 1 and 2 and fails only with KeyError. It is -1 on the diagonal and 0 off the edges. The cell of each edge (i < j) holds 2(1 - nc) for the estimate nc of that edge. |

The search result (`Bfs.Searched`) is as follows:

- each node's depth is its distance to {v, w}, or -1;
- layer k is exactly the nodes at distance k, and layer 0 is {v, w};
- each node's tag is v or w for the roots;
- every other explored node gets its parents' common tag when they agree, and `Both` otherwise;
- edge layer i + 0.5 holds each edge from layer i to layer i + 1 once, oriented parent to child;
- edge layer i holds each edge inside layer i in exactly one orientation;
- the edge-depth map gives both orientations of every explored edge the same depth.

## Left out

- `solve` (neighborhoodConnectivity.py:170-189) is a call into the dimod sampler. Its result is treated as an arbitrary 0/1 labelling: the acceptance test and the validator take it as input.
- Randomness: `randrange(n)` and `rand()` (neighborhoodConnectivity.py:378, 402) become input sequences. A draw is reduced modulo n. A coin is the outcome of `rand() < metropolis_eval` at a non-zero temperature. At temperature 0 the factor is 0, so the coin is taken as false there. Elsewhere the coin is unconstrained, even where the source fixes it: at a negative temperature the factor exceeds 1, so the source's coin always holds, and where `exp` underflows to 0.0 it never holds. Every contract quantifies over all coins, so this only widens what is covered.
- Floating point: every float is a `real`. Rounding is not modelled, and `math.exp` is modelled only through the point where it overflows.
- Annealing.Anneal: it is the corrected run. Unlike the source it never overflows at a positive temperature. At temperature 0 it behaves as the source. Annealing.AnnealAsWritten models the source's run.
- Annealing.Step: it is the corrected step, with the same departures as Annealing.Anneal. Annealing.StepAsWritten models the source's step.
- Annealing.AnnealAsWritten: it does not state exactly which positive-temperature runs overflow. It states only the calm-objective condition that rules overflow out and the first step's error.
- Annealing.ExpError: the overflow threshold `ExpLimit` is ln(DBL_MAX) rounded to 12 decimals. The exact float boundary is not modelled.
- Estimator.ScoreDefined: search depths above 2 are not modelled beyond the KeyError they raise at the free-stub step. The docstring at neighborhoodConnectivity.py:229 says such depths do not work.
- Estimator.ScoreAtMostOne: no lower bound on the score is stated, because the code does not force one.
- Greedy.Scan: it states that the chosen pair has a maximal cumulative count, but not which of several maximal pairs is chosen. The source keeps the first pair, in scan order, whose count rises above the running maximum.
- Greedy.Assign: its success and failure contract is stated for every graph. The connected-graph guarantee is the only place it promises success.
  - If the first scan finds no attached pair, the source places its default node 0 into community 0.
  - A later round with no attached pair raises ValueError.
  - Both behaviours are modelled. Only "the result is KeyError or ValueError" is stated about them.
- Greedy.Assign: the model numbers the seed communities by ascending smallest node. The source numbers the components of `nx.induced_subgraph(H, kept).copy()` (neighborhoodConnectivity.py:285, 297) in that copy's node order. networkx may iterate the kept-node set instead of the graph's node order, for example when fewer than half of the nodes are kept. That order is not modelled. It changes the community keys, so the clause `cs0[k] <= r.value[k]` holds under the ascending numbering only. When the first scan finds no attached pair, it also changes which community receives the default node 0 (neighborhoodConnectivity.py:301-302, 316). The networkx source is not part of this model.
- The edge loop of `run_separation_node_classification` iterates `G.edges()` while `bfs` removes and re-adds the edge being scored (neighborhoodConnectivity.py:41, 86, 246). The model iterates the edge list of the unchanged graph and searches that graph each time. The effect of the mutation on Python's edge iteration is not modelled.
- Detector.Estimations: it is the intended loop, over the edge list of the unchanged graph. As written, the loop at neighborhoodConnectivity.py:246 iterates `G.edges()`, which walks `G._adj[i]` while `bfs` deletes key j of that dict (:41) and re-inserts it (:86). On CPython 3.8 or later this probably raises RuntimeError ("dictionary keys changed during iteration"), for example on the path 0-1-2 right after (0, 1) is scored. Where the dict is resized instead, edges may be skipped or scored twice. Not executed.
- Detector.NcQubo: it builds the QUBO from the intended loop of Detector.Estimations. The as-written loop at neighborhoodConnectivity.py:246 probably raises RuntimeError first, or scores edges out of turn, as described for Detector.Estimations. Not executed.
- Node order: nodes are assumed to be inserted as `0..n-1` (the generators do so). So `G.nodes()` is `0..n-1`, `G.edges()` is the low-end-first edge list, and node ids serve as matrix indices (neighborhoodConnectivity.py:210-211, graphs.py:425). The renumbering at graphs.py:304-305 is the identity under this assumption.
- Ground-truth communities in `find_separation_node_set` come from parsing a label string with `ast.literal_eval` (graphs.py:323). The model takes the communities to be the classes of nodes sharing a label. Parsing and `int(x)` conversions are left out.
- The branch at graphs.py:336-340 ("part of multiple communities") is dead code: the branch before it always breaks. It has no counterpart in the model.
- The commented-out constraint-Metropolis branch at neighborhoodConnectivity.py:406-413 is a string literal, not code. It is not modelled.
- The warm start must have one bit per node. The source does not check its length.
- The annealing result is returned as a point whose violations are named fields. The source returns them in the order (sep, sur, inj) at neighborhoodConnectivity.py:414, unlike the validator's (sep, inj, sur). Naming the fields removes the difference.
- "All but the largest" (graphs.py:446-449) is modelled as the sum minus the maximum. Sorting and popping the last entry give the same total.
- `edge_nc` (neighborhoodConnectivity.py:124-139) is a plotting aid. Only its selected-edge sets `nc_edges` are modelled.
- The draw branch and all `print` calls (neighborhoodConnectivity.py:254-261, 375-391; graphs.py:337-370) are left out. So is the GML write (graphs.py:365-369).
- `calculate_core_nodes` only prints and is left out. So are `calculate_modularity`, which delegates to networkx, and `get_com_list_from_lfr`.
- Left out entirely: the graph generators and seed helpers (graphs.py:15-149), evaluation.py, plotting.py and main.py.

## Findings

| source | as written | input that shows it | evidently intended | confidence | as-written member | corrected member |
|---|---|---|---|---|---|---|
| neighborhoodConnectivity.py:394-402 | `math.exp(-diff / t)` is evaluated before the acceptance test, even when `diff <= 0` means the test never consults it. An improvement larger than about 709.78·t therefore raises OverflowError. | Any one-node graph without a warm start, temperature 0.001, one iteration: the first candidate lowers the objective from 0 to -1, so `math.exp(1000)` overflows. | A candidate is accepted without computing the factor when it adds no violations and does not raise the objective. The factor is computed only when the coin is needed. | high; not executed | Annealing.DecideAsWritten, Annealing.StepAsWritten, Annealing.AnnealAsWritten, Annealing.OverflowFirstStep, Annealing.OverflowOnImprovement, Annealing.OverflowExample | Annealing.Decide, Annealing.Step, Annealing.Anneal, Annealing.OverflowStep |
