# packet-drift core, modelled in Dafny

packet-drift is a sliding-tile game played on a rectangular board of tiles.
The token stands on one node of the board graph. A move in one of eight
compass directions makes it slide until something stops it:

- a HUB;
- a VIRUS, which kills it;
- the edge of the board;
- a FIREWALL just ahead.

Every DATA tile it crosses is consumed. A CPU player picks its move with a
greedy heuristic, helped by three support routines:

- a divide-and-conquer nearest-point query;
- a k-closest average built on a hand-written merge sort by x;
- a memo of nearest-DATA distances keyed by the position and the set of
  remaining DATA tiles.

The model covers these pieces:

- `tiles.dfy`:
  - `Tiles`: the tile record and its kinds.
  - `Directions`: the eight directions and the notion of an enumeration of them.
- `graph.dfy`, `Graphs`: the board graph as an immutable value. Each node is
  stored under its coordinates, and neighbour links are coordinates. It also holds:
  - the graph's well-formedness and the game invariant (one occupied node, which is
    `playerNode`, and `totalData` equal to the number of DATA tiles);
  - `reinitialize`;
  - the row-major `allNodes` order.
- `slide.dfy`, `Slide`: the authoritative slide (`simulate`).
  - `SlidePath` is a declarative stopping rule.
  - `Advance` is the slide loop.
  - It is proved that the loop ends where the rule says, consumes exactly the DATA
    it crosses, and preserves the game invariant.
- `greedy.dfy`, `Greedy`: the speculative walk, the nearest-DATA distance and
  direction selection.
- `sorting.dfy`, `Sorting`: orders, sortedness, and a reference insertion sort.
  This sort stands for the library sorts the source calls.
- `closest_pair.dfy`, `ClosestPair`: the nearest-point query.
- `cluster.dfy`, `ClusterDistance`: the merge sort by x and the k-closest average.
- `memo.dfy`, `Memo`: the distance memo and its data signature.
- `wrappers.dfy`, `Wrappers`: `Option`.

How the model departs from the code:

- The slide engine and the CPU player spell the tile kinds differently: WALL / GEM /
  MINE / STOP in one, FIREWALL / DATA / VIRUS / HUB in the other. They are one kind
  set here (`Tiles.Kind`), so FIREWALL is WALL, DATA is GEM, VIRUS is MINE and HUB is STOP.
- The slide engine calls `decreaseGemCount`, but the graph only defines
  `decreaseDataCount`. The model follows the graph's operation.
- The speculative walk of the CPU player and the real slide differ on purpose at a
  VIRUS. The walk notes it and goes on to a HUB or a closed cell. The slide stops
  there dead. Both are modelled as written, and `Greedy.WalkAgreesWithSlide` states
  when they agree.
- `Math.sqrt` is a parameter `root: nat -> real`, applied to the squared integer
  distance. No property needs `root` to be monotone. `DistanceNonNegative` only
  needs it to be non-negative.
- `Direction.ALL` is a parameter `all`. `Directions.IsEnumeration` demands that it
  lists all eight directions, each once. Tie-breaking results are stated relative
  to that order.

## Model

| member | source | states |
|---|---|---|
| Tiles.NewTile | src/board/Tile.java:7-10 | a new tile has the given kind and carries no token |
| Tiles.SetType | src/board/Tile.java:12-13 | setting the kind leaves occupancy unchanged |
| Tiles.SetPlayer | src/board/Tile.java:15-16 | setting occupancy leaves the kind unchanged |
| Directions.EnumerationCovers | src/graph/BoardGraph.java:54 | any sequence of eight distinct directions, the shape of `Direction.ALL`, contains every direction, so the linking loop visits them all |
| Graphs.NewNode | src/graph/GraphNode.java:15-20 | a new node has its coordinates and a fresh unoccupied tile of the kind, and no neighbour in any direction |
| Graphs.AddNeighbor | src/graph/GraphNode.java:22-28 | after adding a link, `getNeighbor` in that direction returns it; the other directions, the coordinates and the tile are unchanged |
| Graphs.SetNodeType | src/graph/GraphNode.java:31-32 | delegated kind change: coordinates, links and occupancy unchanged |
| Graphs.SetNodePlayer | src/graph/GraphNode.java:33-34 | delegated occupancy change: coordinates, links and kind unchanged |
| Graphs.DecreaseDataCount | src/graph/BoardGraph.java:69 | the DATA counter drops by exactly one; nodes, occupant and dimensions unchanged |
| Graphs.SetPlayerNode | src/graph/BoardGraph.java:66 | the occupant becomes the given node; nodes, counter and dimensions unchanged |
| Graphs.SetCellKindFrame | src/graph/GraphNode.java:32 | retyping one node keeps the graph well formed and changes the kind of that node only, and no occupancy |
| Graphs.SetCellPlayerFrame | src/graph/GraphNode.java:34 | (un)occupying one node keeps the graph well formed and changes the occupancy of that node only; kinds and DATA cells are unchanged |
| Graphs.RowMajorIndex | src/graph/BoardGraph.java:32-48 | the node that `reinitialize` appends at index y*width+x is the node at (x, y) |
| Graphs.RowMajorContents | src/graph/BoardGraph.java:32-48 | `allNodes` lists every on-board coordinate and no other, each exactly once |
| Graphs.AllNodesRowMajor | src/graph/BoardGraph.java:67 | `getAllNodes()[y*width+x]` is the node at (x, y) |
| Graphs.LinkAll | src/graph/BoardGraph.java:51-62 | after linking, each node has a neighbour in a direction exactly when the step stays on the board, and that neighbour is the node one step away |
| Graphs.LastStart | src/graph/BoardGraph.java:38-43 | the START that the row-major scan assigns to `playerNode` last: a START cell with no START after it in row-major order, or none when the grid has no START |
| Graphs.GridDataCount | src/graph/BoardGraph.java:37 | the count incremented cell by cell equals the number of DATA cells of the grid |
| Graphs.ReinitializeSpec | src/graph/BoardGraph.java:18-63 | after (re)initialisation the graph is well formed with width*height nodes. Every node has its grid kind, with START read as HUB. Exactly the START cells are occupied. `playerNode` is the last START. `totalData` is the number of DATA tiles |
| Graphs.NewGraph | src/graph/BoardGraph.java:18-20 | the constructor takes width and height from the board |
| Graphs.NewGraphEstablishesInv | src/graph/BoardGraph.java:18-24 | a board with exactly one START gives a graph satisfying the game invariant, occupied at that START, which is now a HUB |
| Graphs.ReinitializeEstablishesInv | src/graph/BoardGraph.java:26-63 | on a grid with exactly one START, the rebuilt graph satisfies the game invariant and its occupant is that START, now a HUB |
| Slide.EnterFrame | src/movement/SlideSimulator.java:26-29 | entering a DATA node turns it BLANK and lowers the count by one; every other node and all occupancy stay as they were |
| Slide.SlideLength | src/movement/SlideSimulator.java:23-42 | a slide crosses fewer than max(width, height) cells, so the unbounded loop ends |
| Slide.SlidePathFrame | src/movement/SlideSimulator.java:23-42 | where a slide stops depends only on the kinds at or ahead of its start |
| Slide.AdvanceSpec | src/movement/SlideSimulator.java:23-42 | the slide loop entered on an open cell ends at the unique stopping cell of the declarative rule: the first VIRUS or HUB, or the last cell before the edge or a FIREWALL. It dies iff that cell is a VIRUS. It turns exactly the crossed DATA cells BLANK and counts them. It lowers `totalData` by that count. Nothing else changes |
| Slide.Simulate | src/movement/SlideSimulator.java:9-16 | a move is refused iff the neighbour is missing or a FIREWALL; a refused move returns (false, false, 0) and leaves the graph untouched |
| Slide.SimulateSpec | src/movement/SlideSimulator.java:9-48 | a successful move ends k+1 cells from the occupant at the stopping cell, which becomes `playerNode`. It is dead iff that cell is a VIRUS. The gems reported are exactly the DATA cells crossed, which become BLANK, and `totalData` drops by their number. Occupancy moves from the old node to the end node |
| Slide.SimulatePreservesInv | src/movement/SlideSimulator.java:18-47 | every move, refused or not, keeps one occupied node equal to `playerNode` and `totalData` equal to the live DATA count |
| Slide.SimulateBlocked | src/movement/SlideSimulator.java:14-16 | a blocked move returns (false, false, 0) and the graph unchanged |
| Greedy.WalkCorrect | src/cpu/GreedyStrategy.java:45-64 | the speculative loop ends at the first HUB or closed cell, passing over VIRUS. Its collected nodes are exactly the DATA cells crossed, its count is their number, and it reports a VIRUS iff one lies on the crossed cells |
| Greedy.SimulateSlideSpec | src/cpu/GreedyStrategy.java:34-67 | a blocked first step gives (start, 0, false, {}); otherwise the result is the one the walk from the neighbour promises, and `dataCollected` is the size of `collectedNodes` |
| Greedy.WalkAgreesWithSlide | src/cpu/GreedyStrategy.java:16-19 | on a graph satisfying the game invariant with no VIRUS on the trajectory, the speculative walk and the real move agree. Both are refused together. Otherwise the move ends on the walk's end node, collects as many gems, and does not die |
| Greedy.NearestOver | src/cpu/GreedyStrategy.java:77-86 | the running minimum of the scan is absent iff no remaining DATA node was scanned; otherwise it is attained by a remaining DATA node and is at most the distance of every such node |
| Greedy.DistanceToNearestData | src/cpu/GreedyStrategy.java:73-90 | 0 when no DATA node outside `exclude` remains; otherwise the distance to some remaining DATA node, no greater than the distance to any of them |
| Greedy.DistanceNonNegative | src/cpu/GreedyStrategy.java:88-89 | with a non-negative square root, the nearest-DATA distance is never negative |
| Greedy.SkippedIffBlocked | src/cpu/GreedyStrategy.java:106-109 | the "stays put and collects nothing" test skips a direction exactly when its first step is refused |
| Greedy.GetBestDirection | src/cpu/GreedyStrategy.java:98-126 | no direction is returned iff every direction is skipped, equivalently iff every first step is refused. Otherwise the returned direction is unskipped and scores at least every unskipped direction. It scores strictly above every unskipped direction enumerated before it, so ties keep the earliest |
| Greedy.Score | src/cpu/GreedyStrategy.java:111-117 | a walk that meets a VIRUS scores exactly -DEATH_PENALTY. Otherwise, with a non-negative square root, the score never exceeds DATA_VALUE per gem collected |
| Greedy.SafeScoreAbovePenalty | src/cpu/GreedyStrategy.java:111-117 | on a board whose squared diagonal w·w + h·h is below DEATH_PENALTY, with `root(n)` between 0 and n, a walk that meets no VIRUS scores above -DEATH_PENALTY |
| Greedy.ScorePenaltyIffVirus | src/cpu/GreedyStrategy.java:111-117 | under the same board and root conditions, a score equals -DEATH_PENALTY exactly when the walk meets a VIRUS |
| Greedy.VirusNeverChosen | src/cpu/GreedyStrategy.java:98-126 | under the same conditions, if some unskipped direction avoids every VIRUS, then a best-scoring direction avoids every VIRUS too |
| Sorting.Sort | src/cpu/DCClosestPair.java:22-25 | the reference library sort returns a sorted permutation of its input |
| Sorting.SortedUnique | src/cpu/DPMemoCache.java:45 | under a total order, a sorted arrangement of a multiset is unique, so the sorted signature is independent of the scan order |
| ClosestPair.ScanMin | src/cpu/DCClosestPair.java:32-40 | the base-case scan returns the least distance over the range, attained at a point of the range |
| ClosestPair.ClosestUtil | src/cpu/DCClosestPair.java:30-56 | the divide-and-conquer query over points[left..right] returns the least distance from q to a point of that range, attained there, whichever way the prune test goes |
| ClosestPair.FindMinDistance | src/cpu/DCClosestPair.java:19-28 | 0 for no points; otherwise the least distance from q to any of the points, attained by one of them |
| ClosestPair.BruteMin | src/cpu/DCClosestPair.java:19-28 | the independent reference: a linear minimum over all points, which is also the least attained distance |
| ClosestPair.FindMinIsBrute | src/cpu/DCClosestPair.java:19-56 | on every non-empty input, the divide-and-conquer query equals the brute-force minimum |
| ClosestPair.FindMinPermutation | src/cpu/DCClosestPair.java:19-28 | the query's value does not depend on the order of the input points |
| ClusterDistance.MergeMultiset | src/cpu/DCClusterDistance.java:81-96 | the merge holds the points of both runs, each as often as in the runs |
| ClusterDistance.MergeSorted | src/cpu/DCClusterDistance.java:83-89 | merging two runs sorted by x gives a run sorted by x |
| ClusterDistance.MergeStable | src/cpu/DCClusterDistance.java:84 | the `<=` test makes the merge stable: among equal x the left run's points come first, each run keeping its own order |
| ClusterDistance.MergeByX | src/cpu/DCClusterDistance.java:67-97 | the three loops write into arr[left..right] exactly the reference merge of the two runs, and leave the rest of the array untouched |
| ClusterDistance.MergeLists | src/cpu/DCClusterDistance.java:81-96 | the loop that takes the smaller head (the left one on ties) and the two loops that drain the rest together yield the reference merge `Merge(L, R)` |
| ClusterDistance.MergeSortByX | src/cpu/DCClusterDistance.java:54-65 | arr[left..right] becomes a permutation of itself, sorted by x and stable on equal x; the rest of the array is untouched |
| ClusterDistance.AverageDistanceToKClosest | src/cpu/DCClusterDistance.java:16-51 | the result is 0 for a null or empty list. Otherwise k ≤ 0 is read as 1 and capped at n, and the result is the mean of the k smallest distances from q, which is the independent reference `KClosestMean` |
| ClusterDistance.ComputeDistances | src/cpu/DCClusterDistance.java:33-38 | entry i of the array is the distance of point i from q, for every i, in point order |
| ClusterDistance.SumFirst | src/cpu/DCClusterDistance.java:44-48 | after the loop, `sum` is the sum of the first actualK entries |
| ClusterDistance.KClosestPermutation | src/cpu/DCClusterDistance.java:27-41 | the average depends only on the multiset of points, not on their input order |
| ClusterDistance.KClosestOneIsNearest | src/cpu/DCClusterDistance.java:13-14 | with k ≤ 1 the average equals the nearest-point distance of `findMinDistance` |
| ClusterDistance.KClosestAtLeastNearest | src/cpu/DCClusterDistance.java:43-50 | the average of the k closest is never below the nearest-point distance |
| Memo.NewCache | src/cpu/DPMemoCache.java:13-15 | a new memo holds no entry |
| Memo.SignatureOrderIndependent | src/cpu/DPMemoCache.java:45-46 | sorting makes the signature independent of the order in which entries were collected |
| Memo.KeyOf | src/cpu/DPMemoCache.java:26 | the key records the start's x and y, and a signature listing each remaining DATA coordinate exactly once, in order |
| Memo.DataHash | src/cpu/DPMemoCache.java:38-47 | the signature is sorted and free of repeats, and lists exactly the DATA nodes outside `exclude` |
| Memo.DataHashDetermined | src/cpu/DPMemoCache.java:38-47 | two states have equal signatures iff they leave the same DATA nodes |
| Memo.GetOrComputeDistance | src/cpu/DPMemoCache.java:20-36 | afterwards the key is bound to the returned value and no other entry is added, changed or removed. A hit returns the stored value. A miss returns the calculator's value |
| Memo.HitIgnoresCalculator | src/cpu/DPMemoCache.java:27-31 | on a hit the calculator has no influence on the outcome |
| Memo.RepeatQuery | src/cpu/DPMemoCache.java:26-35 | repeating a query with the same key returns the same value and leaves the memo unchanged |
| Memo.MemoTransparent | src/cpu/DPMemoCache.java:17-36 | for a calculator that depends only on what the key records, a sound memo returns exactly the calculator's value and stays sound |
| Memo.NearestDataKeyDetermined | src/cpu/GreedyStrategy.java:73-90 | the nearest-DATA distance depends only on the start and the remaining DATA set, so it is safe to memoise under this key |

## Left out

- The user interface (`src/ui`), `Game`, the players and `BoardRandomizer` are outside
  the modelled core. Their I/O, Swing events and randomness have no counterpart.
- `Board` is only its dimensions, plus the kind grid passed to `Reinitialize`. The grid
  is a parameter because it comes from the random layout provider.
- `MoveResult` and `SimulationResult` are plain records and are modelled as datatypes.
- Floating point is not modelled. Distances are `root(SqDist(p, q))` with `root`
  abstract, and sums and means are exact reals. The sentinels `Double.MAX_VALUE` and
  `Double.NEGATIVE_INFINITY` become `Option`s and non-empty ranges.
- Integer widths are unbounded. No counter or coordinate in the core gets near 32 bits
  on a playable board, and `Math.abs` overflow in the prune test is not modelled.
- Graphs.Reinitialize: on a grid without START the source keeps the old `playerNode`,
  a node no longer in `allNodes`. The model sets the occupant to none instead.
  `ReinitializeSpec` states the outcome only through `LastStart`.
- Memo.DataHash: the source sorts the strings "x:y" as strings. The model sorts
  coordinates by x, then y. Both are fixed total orders, so the key still identifies
  the remaining DATA set. The string text of the key is not modelled.
- Memo.GetOrComputeDistance: the `Map<String, Double>` with its `null` for a missing
  entry becomes a `map` from `Key` to reals, and a missing entry is `key !in cache`. That the calculator is not invoked on a hit is expressed by
  `HitIgnoresCalculator`, not as an observable call.
- ClusterDistance.MergeByX and ClusterDistance.MergeSortByX: arrays are sequences, and
  the in-place updates return the new sequence. The callers' index conditions are
  required instead of `ArrayIndexOutOfBoundsException`.
- Sorting.Sort: `Arrays.sort` (TimSort and dual-pivot quicksort) and `Collections.sort`
  are represented by an insertion sort. Its stability is not stated. Every use is
  proved to depend only on sortedness and on the multiset of the elements.
- Greedy.GetBestDirection: the source rounds each score to a double before the strict
  `>` comparison. Scores are exact reals here, so two directions whose scores differ
  only below double precision may tie in the source but not in the model.
