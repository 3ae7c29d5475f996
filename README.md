# Grid path-search arena, modelled in Dafny

The program is an interactive grid path finder. The part modelled here is its
search engine, found in `src/main.rs`:

- **Obstacle set (`Walls`).** A list of blocked cells without duplicates.
  The driver edits it in place, and every expansion consults it.
- **Node arena (`Arena`).** An append-only list of nodes. Each node knows
  its own slot and names its parent by slot. The arena also holds:
  - the open list of slots still to expand;
  - the slot of the node found on the objective;
  - the greatest weight so far.
- **Three step functions over the arena:**
  - breadth-first, which expands a whole layer per call;
  - best-first, which expands the open node nearest the objective;
  - A*, which expands the open node of least hop-based cost plus
    distance. It creates a child only when that child's weight beats the
    weight of the node being expanded, or when that node is the root.

The rest is the Manhattan heuristic, the parent-chain hop count
(`Node::total_steps`), and the reset and cache operations the driver calls
after an edit.

Coordinates are `f32` in the program, but every position the engine sees is
a multiple of the cell size 20. So positions and weights are `int` here, and
every cost is exact.

Modules (one file each):

- `Seqs`: `Option`, first index, removal at an index, ranges.
- `Geometry`: `Pos`, the four offsets, the heuristic and its properties.
- `Obstacles`: the `Walls` class and the pure list operations it is
  proved against.
- `Nodes`: `Node`, the arena invariants, hop count, `total_steps`, and
  the largest weight.
- `Growth`: what appending children guarantees, and how those
  guarantees compose.
- `Expansion`: the pure expansion functions each search step is proved
  to compute, and the lemmas about them.
  - `Visit` is one direction.
  - `ExpandFrom` and `ExpandUpTo` are the four-direction loop, read
    backward and forward.
  - `LayerFrom` is a breadth-first layer.
  - `FirstMin` is the `min_by` choice.
- `Search`: the `Arena` class. Its methods change the arena in place.
  Each one is proved to leave exactly the state the `Expansion`
  functions describe.

The neighbour loop is the same in all three strategies. It is one method,
`ExpandNode`; a `Strategy` value supplies the child weight and the A* guard.
The source pushes each slot `new_child` returns into `just_searched`, and
every new child takes the next free slot. So the list of created slots is
stated as the range from the old to the new node count.

Notes on the code as written:

- A* never updates the cost of an existing node in place. The existence
  check forbids creating a second node on a cell.
- The A* weight is `(hops(parent) + 2) * 20 + h`: `total_steps` starts its
  counter at 1 and the code adds one more before scaling.
- `best_first_search` unwraps the minimum without checking for an empty
  open list. Here a non-empty open list is a precondition.

One consequence of the code as written is proved
(`Expansion.AStarExpandsOnlyRoots`): on grid-aligned cells, a node that has
a parent and carries its A* weight gets no children at all. The A* guard
compares a child's weight with the weight of the node being expanded, and
on the grid that weight is never lower. So A* only ever expands the start
node.

## Model

| member | source | states |
|---|---|---|
| Geometry.Heuristic | src/main.rs:336-342 | Manhattan distance, never negative, zero exactly when the two cells coincide |
| Geometry.HeuristicSymmetric | src/main.rs:336-342 | the heuristic is symmetric |
| Geometry.HeuristicTriangle | src/main.rs:336-342 | the heuristic obeys the triangle inequality |
| Geometry.HeuristicAdmissible | src/main.rs:336-342 | a walk of n offsets covers at most n cells of Manhattan distance, so the heuristic never exceeds a path length |
| Geometry.DeltaDirsAreNeighbours | src/main.rs:32-40 | each offset leads to an adjacent cell and keeps a cell on the grid; the four cells reached are distinct |
| Geometry.AdjacentIsDelta | src/main.rs:32-40 | every adjacent cell is reached by one of the four offsets |
| Geometry.HeuristicStep | src/main.rs:32-40 | on the grid one offset moves the distance to any grid cell by exactly one cell, closer or farther |
| Seqs.IndexOf | src/main.rs:59 | `position`: None exactly when absent, otherwise the first slot holding the value |
| Seqs.RemoveAt | src/main.rs:60 | `Vec::remove`: one element shorter, elements before the slot kept, later ones shifted down by one |
| Obstacles.Added | src/main.rs:52-56 | the cell is in the list afterwards, membership otherwise unchanged, the list grows by at most one and is unchanged if the cell was there, the old list is a prefix, no duplicates are introduced |
| Obstacles.RemoveFirst | src/main.rs:58-62 | no-op when absent; otherwise the first occurrence is dropped and the rest kept in order; as a multiset exactly one copy is removed; without duplicates the cell is gone afterwards |
| Obstacles.RemoveFirstKeepsOthers | src/main.rs:58-62 | removing a cell leaves the membership of every other cell unchanged |
| Obstacles.RemoveUndoesAdd | src/main.rs:52-62 | adding a free cell and then removing it restores the list |
| Obstacles.AddedIdempotent | src/main.rs:52-56 | adding twice is adding once |
| Obstacles.Walls.constructor | src/main.rs:48-50 | starts empty and without duplicates |
| Obstacles.Walls.TryAdd | src/main.rs:52-56 | the new list is `Added` of the old one; no duplicates are kept |
| Obstacles.Walls.TryRemove | src/main.rs:58-62 | the new list is `RemoveFirst` of the old one; no duplicates are kept |
| Obstacles.Walls.Len | src/main.rs:69-71 | the length is the number of distinct blocked cells |
| Obstacles.Walls.Exists | src/main.rs:73-75 | true exactly when some stored cell equals the position |
| Nodes.ExistsPos | src/main.rs:317-319 | true exactly when some node sits at the position |
| Nodes.TotalSteps | src/main.rs:362-367 | `total_steps` terminates; a parentless node leaves the accumulator as it is, otherwise one link plus the parent's whole chain is added, so exactly the node's hop count is added |
| Nodes.HopsBound | src/main.rs:362-367 | the chain from slot i has at most i links, since parents come first |
| Nodes.HopsOfPrefix | src/main.rs:362-367 | appending nodes leaves the hop count of existing nodes unchanged |
| Nodes.Ancestor | src/main.rs:362-367 | following k parent links from node i lands at or before i, k hops closer to the root |
| Nodes.ChainEndsAtRoot | src/main.rs:362-367 | every parent chain reaches a parentless node after exactly its hop count and not before; in a rooted arena that node is node 0 |
| Nodes.MaxWeight | src/main.rs:114-116 | the greatest weight is at least 0, bounds every node weight, and is 0 or the weight of some node |
| Nodes.MaxWeightAppend | src/main.rs:114-116 | appending a node folds its weight into the maximum as `new_child` does |
| Expansion.ChildWeight | src/main.rs:254-256 | the child weight of each strategy: breadth-first the parent's hop count (src/main.rs:164-165), best-first the distance to the objective (src/main.rs:209), A* `(hops + 2) * 20` plus that distance |
| Expansion.Admits | src/main.rs:258-260 | the A* guard: true for the other strategies; for A* true exactly when the child's weight is below the expanded node's or that node has no parent |
| Expansion.ChildWeightPrefix | src/main.rs:164-165 | a child's weight depends only on the nodes that existed when it was created |
| Expansion.Visit | src/main.rs:206-216 | one direction keeps the node list valid and appends at most one node |
| Expansion.ExpandFrom | src/main.rs:205-217 | the neighbour loop keeps the node list valid and never shrinks it; that the existing nodes stay unchanged is stated by `ExpandFromSound` |
| Expansion.ExpandUpTo | src/main.rs:205-217 | the first d directions append at most d nodes and keep the list valid |
| Expansion.ExpandUpToFrom | src/main.rs:205-217 | the first d directions followed by the rest, unless the objective was reached, are the whole loop |
| Expansion.ExpandUpToDone | src/main.rs:212-215 | once the objective is reached or all four directions are seen, the directions seen are the whole loop |
| Expansion.LayerFrom | src/main.rs:158-176 | a breadth-first layer keeps the node list valid and never shrinks it; that the existing nodes stay unchanged is stated by `LayerFromSound` |
| Expansion.VisitExtends | src/main.rs:206-216 | one direction creates at most a child of the expanded node, next to it, off the walls and on a cell no earlier node holds; the existing nodes are unchanged; `found` says whether that child is on the objective |
| Expansion.VisitWeighted | src/main.rs:258-261 | the child one direction creates carries the strategy's weight and passed the A* guard |
| Expansion.ExpandFromSound | src/main.rs:205-217 | one expansion keeps the existing nodes unchanged and creates at most one child per remaining direction; every child is next to the expanded node, off the walls and on a cell no earlier node holds; only the last may be on the objective and `found` says whether it is; distinct positions and node 0 as only root are kept |
| Expansion.ExpandFromWeighted | src/main.rs:250-273 | every child one expansion creates carries its strategy's weight and passed the A* guard |
| Expansion.ExpandFromKeepsSound | src/main.rs:208 | expanding one node keeps positions distinct and node 0 the only root |
| Expansion.LayerFromBound | src/main.rs:158-176 | a layer creates at most four children per frontier entry still to expand |
| Expansion.LayerFromSound | src/main.rs:156-176 | a layer keeps the existing nodes unchanged; every node it creates is a child of a frontier node, next to its parent, off the walls and on a cell no earlier node holds; it stops at the first child on the objective, and keeps positions distinct and node 0 the only root |
| Expansion.LayerFromKeepsSound | src/main.rs:163 | a layer keeps positions distinct and node 0 the only root |
| Expansion.LayerFromWeighted | src/main.rs:164-167 | every node of a breadth-first layer stores its parent's hop count |
| Expansion.AStarRejects | src/main.rs:254-261 | on the grid, a child proposed for a node with a parent and its A* weight weighs at least that node's weight, so the guard turns it down |
| Expansion.AStarExpandsOnlyRoots | src/main.rs:250-273 | on the grid, A* expansion of such a node changes nothing |
| Expansion.FirstMin | src/main.rs:188-198 | `min_by`: a slot of the open list whose weight is no greater than any entry's and strictly less than every earlier entry's |
| Expansion.FirstMinIsFirstOccurrence | src/main.rs:200-201 | the first slot holding the chosen node is the chosen slot, so `position` then `remove` drops exactly that entry |
| Search.StartSound | src/main.rs:291-297 | a single root at the start cell is valid, sound and of greatest weight 0 |
| Search.Arena.constructor | src/main.rs:88-97 | no nodes, the given start cell, weight 0, nothing found, open list `[0]` |
| Search.Arena.NewNode | src/main.rs:98-109 | appends a parentless node of weight 0 in the next slot and returns that slot; nothing else changes |
| Search.Arena.NewChild | src/main.rs:111-125 | appends a child of `parent` in the next slot and returns that slot; the greatest weight becomes the larger of the old one and the child's |
| Search.Arena.Exists | src/main.rs:317-319 | true exactly when some node sits at the position |
| Search.Arena.DistanceFromStart | src/main.rs:328-334 | the heuristic from the start cell, zero exactly at the start cell |
| Search.Arena.Neighbour | src/main.rs:206-216 | node list and found flag become `Visit` of one direction; a child on the objective is recorded as the last slot, otherwise the record is unchanged |
| Search.Arena.ExpandNode | src/main.rs:205-217 | node list and found flag become `ExpandFrom`; the slots returned are the ones created, in order; the objective record is as for `Neighbour` |
| Search.Arena.BreadthFirstSearch | src/main.rs:156-179 | node list becomes `LayerFrom` of the old open list; the new open list is exactly the slots created, in order; the result is true exactly when that list is empty or the objective was reached; a reached objective is recorded as the last slot; soundness is kept |
| Search.Arena.ExpandCheapest | src/main.rs:188-221 | the first open entry of least weight is removed and expanded as `ExpandFrom`; its children join the end of the open list unless the objective was reached, which is then recorded as the last slot; soundness is kept |
| Search.Arena.TakeCheapest | src/main.rs:188-201 | `min_by`, `position` and `remove`: returns the first open entry of least weight, which names a node, and the open list loses exactly that entry |
| Search.Arena.BestFirstSearch | src/main.rs:182-221 | `ExpandCheapest` with best-first weights |
| Search.Arena.AStarSearch | src/main.rs:224-278 | with an empty open list returns true and changes nothing; otherwise `ExpandCheapest` with A* weights and guard |
| Search.Arena.CachedSearch | src/main.rs:280-289 | records the first slot whose node is on the objective, or None exactly when no node is there; nothing else changes |
| Search.Arena.Reset | src/main.rs:291-297 | a single root at the start cell, open list `[0]`, nothing found, greatest weight 0; each field is fixed by the start cell, which is unchanged, so a second reset changes nothing |
| Search.Arena.SmartReset | src/main.rs:299-306 | resets and returns true exactly when a node sits at the cell, otherwise changes nothing |
| Search.Arena.ISmartReset | src/main.rs:308-315 | resets and returns true exactly when no node sits at the cell, otherwise changes nothing |
| Search.Start | src/main.rs:403-405 | the driver's set-up, `new` then `new_node` at the start, gives the reset state, ready for a search step |

## Left out

- Drawing (`Walls::draw`, `Arena::draw`, `Node::draw`) and the drawing constants: they call into the graphics library and use float ratios.
- The driver loop and `window_conf`: window, mouse, keyboard and frame pacing are foreign calls. Only its set-up is kept, as `Search.Start`.
- `round_pos`: float division and rounding. Positions are integer multiples of the cell size instead.
- Float semantics of positions and weights: all values are integers. That includes the NaN panic in `partial_cmp(...).unwrap()`, which cannot arise.
- The `instant` branch of `breadth_first_search`: it repeats the search until it returns true, and need not terminate. The `instant` flags of the three searches are dropped.
- The unused `Direction` enum and `Direction::all`, the `closed` field (set by `new` and never read), and the commented-out code.
- `best_first_search` on an empty open list panics at `unwrap`. `Search.Arena.BestFirstSearch` requires a non-empty open list instead.
- The step methods require every open entry to name a node (`Ready`). A bare `Arena::new` with no nodes and open `[0]` must first get its start node, as the driver does.
- `usize` and `f32` widths: integers are unbounded. No count or weight here comes near the limits.
- Search.Arena.BreadthFirstSearch, Search.Arena.ExpandCheapest: the ensures state the new state as the pure functions. The guarantees about the children created are lemmas about those functions (`LayerFromSound`, `LayerFromWeighted`, `ExpandFromSound`, `ExpandFromWeighted`), not repeated in the method contracts.
