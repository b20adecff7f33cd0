# A* on a 6-connected grid

A model of `PathManager.cs`, a Unity component. It builds a `Height x Width` grid of `Node`s and
runs an A* search over it from the top-left node towards the bottom-right one. Each frame advances
the search by one expansion.

The model is imperative, like the source:

- `Node` and `PathManager` are classes whose fields the methods update in place.
- `NeighboringNodes`, `OpenSet`, `ClosedSet` and `OptimalPath` are sequence fields, reassigned on
  every `Add` and `Remove`.
- The loops of `Awake`, `PushPath` and `Update` are `for` and `while` loops with invariants.

The project has three modules:

- `Lists` (Lists.dfy): the `List<T>` operations the search uses, as functions on sequences, plus
  facts about duplicate-free lists.
- `Grid` (Grid.dfy): the adjacency rule on (row, column) cells. It is proved equal to an
  independent reference definition: every in-bounds cell one of six offsets away, in order.
- `PathFinding` (PathManager.dfy): the `Node` and `PathManager` classes.
  - The constructor models `Awake`.
  - `Step` models the search half of `Update`.
  - `PushPath` walks the `Previous` links back from a node.

The search keeps an invariant, `PathManager.Valid`, which every step preserves:

- Both lists are duplicate-free lists of traversable grid nodes.
- No node is in both lists, and Start is in one of them.
- Start has GScore 0 and no parent.
- Every other open or closed node has a parent.
- A parent is always a closed neighbour of its child, with GScore exactly one less.

From this invariant the model proves several consequences:

- `PushPath` terminates, and its result is a walk back to Start of GScore + 1 nodes.
- The two lists together never hold more than `Width * Height` nodes.
- Each non-terminal step adds exactly one node to the closed list, so at most `Width * Height`
  steps do any work.

Inputs the source takes from outside become constructor parameters:

- `obstacle(i, j)` replaces the random draw `Random.Range(0.0f, 1.0f) < 0.40f` for cell (i, j).
- `magnitude(dx, dy)` stands in for `Vector2.magnitude`, on which `GetDistanceBetween` relies.
- FScore is a `real`, and `float.MaxValue` is its exact value as a real.

The model follows the code where it departs from textbook A*:

- Every node's GScore starts at 0, the value the `Node` constructor sets, not at +infinity. A
  neighbour reached for the first time therefore gets a GScore larger than before.
- `OptimalPath` is rebuilt after every accepted update. It is the path to the last neighbour
  updated, not to End.

## Model

| member | source | states |
|---|---|---|
| PathFinding.Node.constructor | Assets/PathManager.cs:14-25 | a new node has the given row and column, no neighbours, no parent, both scores zero, and is not an obstacle |
| PathFinding.Node.AddNeighboringNode | Assets/PathManager.cs:27-30 | the node's neighbour list grows by exactly the given node, at its end |
| PathFinding.PathManager.PushPath | Assets/PathManager.cs:64-74 | OptimalPath is replaced entirely by the chain from the node: the node, then Previous after Previous |
| PathFinding.PathManager.Chain | Assets/PathManager.cs:66-73 | the chain is never empty and starts at the node itself; it is well-defined because GScore falls by one along each link, which is also why PushPath's loop ends |
| PathFinding.PathManager.ChainLinks | Assets/PathManager.cs:66-73 | each later entry of the chain is the Previous of the one before it, every entry is a grid node, and the last entry has no parent |
| PathFinding.PathManager.ChainToStart | Assets/PathManager.cs:64-74 | from an open or closed node the chain ends at Start and has GScore + 1 nodes; the k-th node has GScore k less; nodes past the first are closed, none is an obstacle, and each node is a neighbour of the next |
| PathFinding.PathManager.constructor | Assets/PathManager.cs:92-169 | with no rows or no columns, nothing is built and no search is seeded; otherwise the result is the initial state (grid, wiring, Start and End corners, lists and scores), which meets the search invariant |
| PathFinding.PathManager.BuildGrid | Assets/PathManager.cs:102-162 | a Height x Width matrix of fresh, distinct nodes, each at its own cell and wired 6-connected; Start has FScore float.MaxValue; every node has no parent and GScore 0; obstacles follow the draws except at the two corners |
| PathFinding.PathManager.CreateNodes | Assets/PathManager.cs:102-116 | Height rows of Width fresh nodes; node [i][j] has Row i and Column j, and the node set has exactly Height * Width elements |
| PathFinding.PathManager.CreateRow | Assets/PathManager.cs:104-113 | row i holds Width fresh distinct nodes (i, 0) .. (i, Width - 1), each with its draw as obstacle flag |
| PathFinding.PathManager.WireNeighbors | Assets/PathManager.cs:118-149 | every node of the matrix gets exactly the neighbour list of the adjacency rule |
| PathFinding.PathManager.WireNode | Assets/PathManager.cs:122-147 | the six guarded additions give node (i, j) the nodes at the in-bounds cells of the six directions, in order |
| PathFinding.PathManager.SeedEndpoints | Assets/PathManager.cs:157-162 | Start gets GScore 0 and FScore float.MaxValue; Start and End become traversable; End's scores are otherwise kept |
| PathFinding.PathManager.InitialValid | Assets/PathManager.cs:151-163 | the state Awake leaves (only Start open, nothing closed, no parents) meets every invariant the search keeps |
| PathFinding.PathManager.BuiltGraphValid | Assets/PathManager.cs:118-149 | in the built grid, every neighbour list is a duplicate-free list of other grid nodes |
| PathFinding.PathManager.NeighborsOf | Assets/PathManager.cs:118-149 | a node's neighbours are grid nodes, listed at most once each, and never the node itself |
| PathFinding.Coords | Assets/PathManager.cs:10-11 | the cells of a node list, entry by entry |
| PathFinding.CoordsNoDup | Assets/PathManager.cs:104-115 | nodes with distinct cells are distinct nodes |
| PathFinding.WiredPrefixCoords | Assets/PathManager.cs:122-147 | after the first k guarded additions, the neighbour list's cells are the first k guarded cells, and all are grid nodes |
| PathFinding.AdjacentNodesCoords | Assets/PathManager.cs:122-147 | the wired neighbour list's cells are exactly the adjacency rule's cells |
| Grid.AdjacentCells | Assets/PathManager.cs:124-147 | every neighbour cell is in bounds |
| Grid.Guard | Assets/PathManager.cs:124-146 | the test before each addition holds exactly when the cell it adds is in bounds |
| Grid.CellPrefixAll | Assets/PathManager.cs:124-147 | the six guarded additions, taken one by one, give the adjacency rule |
| Grid.AdjacentCellsByDirections | Assets/PathManager.cs:124-147 | the adjacency rule equals the reference definition: shift by up, left, right, down, down-right, up-left and keep the in-bounds cells |
| Grid.ShiftedMember | Assets/PathManager.cs:124-147 | both directions for the reference: a cell is in the list iff it is in bounds and one of the offsets away |
| Grid.AdjacentIff | Assets/PathManager.cs:124-147 | both directions: a cell is a neighbour iff it is in bounds and one of the six directions away |
| Grid.NoAntiDiagonal | Assets/PathManager.cs:124-147 | up-right and down-left are never neighbours, and no cell is its own neighbour |
| Grid.InteriorHasSix | Assets/PathManager.cs:124-147 | an interior cell has exactly the six neighbours, in the order they are added |
| Grid.StartCorner | Assets/PathManager.cs:124-147 | on a grid at least 2 x 2, the start corner has right, down and down-right, in that order |
| Grid.AdjacentDistinct | Assets/PathManager.cs:124-147 | no cell is listed twice |
| Grid.AdjacentSymmetric | Assets/PathManager.cs:124-147 | for two in-bounds cells, c is a neighbour of d iff d is a neighbour of c |
| Grid.EndCell | Assets/PathManager.cs:158 | the corrected End cell is in bounds, and every cell lies above and to the left of it |
| Grid.EndCellAsWrittenOutOfBounds | Assets/PathManager.cs:158 | on any grid that is not square, the index Awake uses for End lies outside the matrix |
| Grid.EndCellSquare | Assets/PathManager.cs:158 | on a square grid, the cell as written and the corrected cell agree |
| PathFinding.FirstMinimal | Assets/PathManager.cs:236-244 | an index whose key is at most every key, with every earlier key strictly greater |
| PathFinding.PathManager.GetDistanceBetween | Assets/PathManager.cs:84-90 | no contract is claimed: the abstract `magnitude` of the difference second - first, with x the column and y the row |
| PathFinding.PathManager.SelectCurrent | Assets/PathManager.cs:236-244 | the scan returns the first open node of least FScore: it is open, its FScore is at most every open node's, and it is the reference selection |
| PathFinding.PathManager.Selected | Assets/PathManager.cs:236-244 | the node the scan picks is in the open list |
| PathFinding.PathManager.Step | Assets/PathManager.cs:222-305 | keeps the invariant. With an empty open list, or when the pick is End, it changes nothing and the state stays terminal, so a repeat is again a no-op. Otherwise the pick c: leaves the open list; is appended to the closed list; each neighbour that qualifies is Reached from c; every other node keeps its scores and parent; the neighbours new to the open list are appended in neighbour order; and OptimalPath is the chain of the last neighbour updated |
| PathFinding.PathManager.Expand | Assets/PathManager.cs:253-293 | closing the pick and relaxing its neighbours keeps the invariant and has the effect Step states for the non-terminal case |
| PathFinding.PathManager.CloseCurrent | Assets/PathManager.cs:253-255 | the pick leaves the open list (removing its only copy) and is appended to the closed list, keeping the invariant; it was a grid node not yet closed |
| PathFinding.PathManager.CloseKeepsValid | Assets/PathManager.cs:253-255 | moving an open node to the closed list keeps every invariant |
| PathFinding.PathManager.ListsBounded | Assets/PathManager.cs:253-285 | the two lists together hold at most Width * Height nodes, bounding the number of steps that do work |
| PathFinding.PathManager.RelaxNeighbors | Assets/PathManager.cs:257-293 | the relaxation loop keeps the invariant; it appends exactly the new neighbours, in order; a neighbour that qualifies is Reached; every other neighbour is untouched; OptimalPath is set from the last neighbour updated |
| PathFinding.PathManager.RelaxStep | Assets/PathManager.cs:257-293 | one turn of the loop carries everything the loop has established from neighbour i to neighbour i + 1 |
| PathFinding.PathManager.RelaxNeighbor | Assets/PathManager.cs:259-293 | a closed or obstacle neighbour is skipped; an open one is updated only if current.GScore + 1 is strictly smaller; a new one is appended to the open list; an update sets GScore, FScore (GScore plus distance to End) and Previous to current, and rebuilds OptimalPath from it |
| PathFinding.PathManager.RelaxKeepsValid | Assets/PathManager.cs:269-291 | re-parenting a qualifying neighbour of a closed node keeps every invariant |
| PathFinding.PathManager.ListsKept | Assets/PathManager.cs:281-285 | appending a traversable grid node that is in neither list keeps the lists duplicate-free and disjoint |
| PathFinding.PathManager.LinksKept | Assets/PathManager.cs:288-291 | giving a non-Start node a closed neighbour as parent, one step costlier, keeps every parent link valid |
| PathFinding.PathManager.ClosedChain | Assets/PathManager.cs:291-292 | the chain of a closed node passes through closed nodes only |
| PathFinding.PathManager.ChainKept | Assets/PathManager.cs:291-292 | a chain none of whose nodes changed GScore or Previous is unchanged, so relaxing a neighbour does not alter the chain of the node being expanded |
| PathFinding.Discovered | Assets/PathManager.cs:281-285 | the neighbours a round appends are never more than the neighbours |
| PathFinding.DiscoveredMember | Assets/PathManager.cs:281-285 | both directions: a node is appended iff it is a neighbour in neither list and not an obstacle |
| PathFinding.LastTrue | Assets/PathManager.cs:288-292 | the last updated neighbour's index, or -1: that entry is set and none after it is |
| Lists.RemoveFirst | Assets/PathManager.cs:253 | List.Remove: drops one copy if present (the length falls by one), and otherwise leaves the list as it was |
| Lists.RemoveFirstNoDup | Assets/PathManager.cs:253 | on a duplicate-free list, Remove takes the element out entirely and keeps all the others |
| Lists.AppendNoDup | Assets/PathManager.cs:255 | appending an absent element keeps a list duplicate-free |
| Lists.NoDupLengthBound | Assets/PathManager.cs:253-285 | a duplicate-free list drawn from a finite set is no longer than the set |

## Left out

- Rendering and logging: `DrawNode`, `DrawPath`, the drawing loops of `Update` and `Debug.Log`
  produce output only and change no state.
- Timers and the animation cursor: the fields `timer`, `columnTimer`, `multiplier`,
  `columnMultiplier`, `currentRowIndex` and `currentColumnIndex`, and the commented-out blocks
  of `Update`. These change no search state.
- The Unity lifecycle: the engine calls `Awake` once and `Update` every frame. Here `Awake` is the
  constructor and one frame's search is `Step`; no engine calls them.
- Random obstacles: the draw at line 110 is the `obstacle` parameter.
- Floating point: FScore is a `real`, so float rounding is not modelled.
- `GetDistanceBetween` calls the abstract `magnitude` on the difference vector, so the square root
  is not modelled. No property depends on the heuristic's values.
- `Width` and `Height` are public fields the Unity editor sets before `Awake`. Here they are
  constructor parameters and are constant afterwards.
- When `Width <= 0` or `Height <= 0`, `Awake` returns early and leaves `OpenSet`, `ClosedSet`,
  `Start` and `End` unassigned (null). The model gives the two lists the empty sequence and the
  nodes `null`. `Step` is then not modelled, because `Update` throws: at line 175 in its rendering
  half, and at line 222 on the null `OpenSet` if it got that far.
- `CurrentGScore` is set to 0 by `Awake` and never changed afterwards; the model keeps it, with no
  property beyond that.
- PathFinding.PathManager.constructor, PathFinding.PathManager.BuildGrid: both place End at the
  bottom-right cell rather than at `NodeMatrix[Width - 1][Height - 1]`. That index leaves the matrix
  on any grid that is not square, and the source throws there. Lines 159-162 then never run: Start
  keeps FScore 0 and its drawn obstacle flag, and End stays null. The model instead completes the
  seeding on every grid with rows and columns; see Findings.

## Findings

| source | as written | input that shows it | evidently intended | confidence | as-written member | corrected member |
|---|---|---|---|---|---|---|
| Assets/PathManager.cs:158 | `End = NodeMatrix[Width - 1][Height - 1]` indexes row `Width - 1` and column `Height - 1` of a matrix of `Height` rows and `Width` columns | Width = 3, Height = 2: row 2 does not exist, so Awake throws at line 158: after OpenSet, ClosedSet and Start are set, and before End and the seeding at lines 159-162 | End is the bottom-right node `NodeMatrix[Height - 1][Width - 1]`, which agrees with the source on square grids | not executed | Grid.EndCellAsWritten, Grid.EndCellAsWrittenOutOfBounds | Grid.EndCell, Grid.EndCellSquare |
