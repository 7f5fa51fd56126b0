# Road planner: a Dafny model of `Dijkstra` in src/dijkstra.rs

The planner owns four grids over a `height` x `width` map:
- the terrain heights and the water mask, which never change;
- the road level and the house level, which the planner updates in place.

`connect_once(a, b)` does four things:
1. It runs a label-setting Dijkstra search from house `a` to house `b` over the 8-neighbour grid. The search never enters an occupied house cell other than `b`.
2. It walks the predecessor map back from `b` and marks the cells it passes as road.
3. It marks `a` and `b` as houses that are not road.
4. It sends one update with the path and the two endpoints.

`connect` seeds five houses on land cells. It then repeats rounds:
1. It connects two houses.
2. If the path came back empty, it retries.
3. Otherwise it may sprout a new house next to a cell of the path.
4. It evicts one house.
5. It drops one house on a freshly drawn land cell.

The model follows the program's structure:

- `Grid` holds cells, the eight-neighbour relation, and the cell write `Put`. Its `Terrain` value bundles the four grids.
- `Cost` holds the edge cost of one step. It is the base price (road reuse 1, bridge 1000, new road 100) times the distance factor, plus the squared steepness term.
- `Walks` defines the graph the search explores: walks of candidate steps, their total cost, and the least cost.
- `Search` is the search loop of `connect_once`. It keeps the source's negated distances: labels are at most 0, a step lowers them by its cost, and the queue hands out a greatest label. The queue is a map from cell to priority, because pushing a cell that is already queued replaces its priority.
  - `Neighbors` and `Relax` are the two inner loops.
  - `Visit` is one turn of the `while let` loop, and `Explore` is the loop itself.
  - `Run` is the whole search.
  - The search only reads the grids, so it works on a `Terrain` value: the snapshot of the planner's grids when the search starts.
  - The proofs carry the usual label-setting invariants: a predecessor tree, a witness walk for every label, and optimal labels for visited cells. They are stated for a positive step cost `w` that is known to equal the terrain's edge cost.
- `Planner` holds the class `Dijkstra`:
  - the constant grids are `const` fields, and the road and house levels are `var` fields that the methods reassign;
  - `ConnectOnce`, `Join`, `Route` and `Backtrack` are `connect_once`;
  - `Seed`, `SampleLand`, `ConnectRound`, `Grow`, `SproutCandidates`, `SproutHouse` and `Relocate` are `connect`;
  - each update sent is appended to the ghost log `updates`.

Costs are integers in thousandths of the source's unit. A straight step has factor 1000 and a diagonal one has 1414, which is the square root of 2 rounded down. Heights are integers in the source's own unit, so fractional heights are not represented.

The model follows these details of the code:

- The search looks for one target, over the eight neighbours, with the distance factor `sqrt(dr² + dc²)`.
- The five initial houses go into the set without a house mark. The model therefore keeps one direction of the link between the set and the house level: every cell with a house mark is in the set (`Indexed`). The round methods require this of the houses they are given. After `Seed` it holds only when the starting house grid has no mark outside the seeded set. The source receives that grid ready-made and never shows it being built.
- A round whose path comes back empty still changes the grids unless it stopped at an early return. `connect_once` marks both endpoints as houses and sends an update even when `b` is unreachable. `ConnectOnce` and `ConnectRound` state this.
- Houses are seeded on any land cell. The relocated house may also land on a road cell or on an existing house.

Past the early returns, the path that `connect_once` returns is empty in exactly two cases:
- `b` was never reached;
- the best walk found is the single step from `a` to `b`.

A walk through a neighbour of `a` can be cheaper than the direct step, so adjacency alone does not make the path empty. When `b` is reachable, the contract of `ConnectOnce` states that the full walk `[a] + Reverse(path) + [b]` is a cheapest one, so an empty path means the direct step is cheapest. When `b` is unreachable, it states only that the path is empty.

## Model

| member | source | states |
|---|---|---|
| Grid.Put | src/dijkstra.rs:182-187 | writing one grid cell keeps the grid's shape, sets that cell and leaves every other cell unchanged |
| Cost.Factor | src/dijkstra.rs:135 | the distance factor of an offset is one of the two values 1000 and 1414 |
| Cost.FactorIsRoundedRoot | src/dijkstra.rs:135 | for each of the eight offsets the factor is `sqrt(dr² + dc²)` in thousandths, rounded down: 1000 for a straight step, 1414 for a diagonal one |
| Cost.SteepnessVanishes | src/dijkstra.rs:150-153 | the squared climb term is zero exactly on a flat step, and climbing up a height difference costs the same as climbing down it |
| Cost.ClimbVanishes | src/dijkstra.rs:150-153 | the squared climb term of a height difference is zero exactly when the difference is zero |
| Cost.BaseCost | src/dijkstra.rs:154-162 | reusing a road is the one cheapest base price: every price is at least the road-reuse price and at most the bridge price, and a cell that is not road costs strictly more than reuse |
| Cost.EdgeCost | src/dijkstra.rs:150-162 | a step costs at least the base price of the entered cell per unit of distance, and exactly base price times distance factor on a flat step |
| Cost.EdgeCostPositive | src/dijkstra.rs:150-162 | every edge cost is at least the road-reuse price times the straight factor, so it is strictly positive |
| Cost.RoadReuseIsCheaper | src/dijkstra.rs:154-162 | marking the entered cell as road never makes a step dearer, and makes it strictly cheaper when the cell was not road before |
| Cost.WeightsPositive | src/dijkstra.rs:150-162 | every step cost of every grid is positive, which the label-setting argument needs |
| Walks.WalkExtend | src/dijkstra.rs:165-170 | extending a walk by a candidate step yields a walk whose cost grows by exactly that step's cost |
| Walks.WalkInit | src/dijkstra.rs:165-170 | dropping the last cell of a walk leaves a walk to the cell before, whose cost is that of the whole walk minus the last step |
| Walks.Reverse | src/dijkstra.rs:174-183 | reversing the path gives its cells back to front, the order from `a` towards `b` |
| Search.Neighbors | src/dijkstra.rs:129-164 | the candidate list holds only in-bounds 8-neighbours that are free of houses or are `b`, each with its edge cost, and it holds every such neighbour |
| Search.ImprovedIsUnvisited | src/dijkstra.rs:122-125 | a label can improve only at a cell that is neither `a` nor visited |
| Search.Improve | src/dijkstra.rs:167-170 | recording a strictly better label and predecessor for an unvisited neighbour keeps the predecessor tree and the witness walks |
| Search.ReplacedKept | src/dijkstra.rs:167-170 | after another update, every changed label is still a strict raise (or a new entry) to the label through `current`, with `current` as predecessor |
| Search.RelaxImproves | src/dijkstra.rs:165-171 | one improving step of the relaxation loop keeps the loop invariant: tree, witnesses, optimality of visited cells, monotone labels, and coverage of the entries relaxed so far |
| Search.Relax | src/dijkstra.rs:165-172 | after relaxing the neighbours of `current`, every visited cell is expanded, labels only grew, visited labels stayed optimal, a label and predecessor changed only when strictly raised to the label through `current`, and no queued priority exceeds the label of `current` |
| Search.RelaxedExpanded | src/dijkstra.rs:165-172 | after the relaxation loop no candidate step out of a visited cell can improve a label |
| Search.MaxPriorityExists | src/dijkstra.rs:121 | a non-empty queue has an entry of greatest priority, the one `pop` returns |
| Search.Frontier | src/dijkstra.rs:113-173 | every walk from `a` to an unvisited cell passes through a queued cell whose label is at least as good as the walk |
| Search.PopIsOptimal | src/dijkstra.rs:121-125 | a popped cell of greatest label that was not visited already carries the least cost of any walk to it |
| Search.Pop | src/dijkstra.rs:121-125 | popping keeps the search invariant; a cell popped for the first time is settled when it is marked visited |
| Search.LogGrows | src/dijkstra.rs:122-125 | expanding a cell that was not visited before extends the expansion log without repeating a cell |
| Search.Lowered | src/dijkstra.rs:121-125 | visiting a cell of greatest priority makes its label the new floor: every cell visited so far is labelled at least that much and nothing queued is above it |
| Search.Visit | src/dijkstra.rs:121-172 | one turn of the main loop keeps the search invariant, the expansion log and the floor (visited labels at or above it, queued priorities at or below it); it reports `found` exactly when `b` was just visited, the floor then being the label of `b`, and otherwise it makes progress |
| Search.Explore | src/dijkstra.rs:121-173 | the loop stops as soon as `b` is popped: every cell it visited has a label at least that of `b`; otherwise it ends with the queue empty, every label settled and every visited cell expanded; each cell other than `b` is expanded at most once, exactly the cells newly visited |
| Search.FoundIsOptimal | src/dijkstra.rs:126-128 | once `b` is visited, its label is minus the least cost of any walk from `a` to `b` |
| Search.NotFoundIsUnreachable | src/dijkstra.rs:121-173 | when the queue runs empty with `b` never visited, no walk leads from `a` to `b` |
| Search.Run | src/dijkstra.rs:113-173 | the search finds `b` exactly when `b` has a label; the label is then minus the least walk cost, and otherwise `b` is unreachable |
| Search.Chain | src/dijkstra.rs:174-183 | every cell met following predecessors back from a labelled cell is labelled, is not `a`, and has a strictly greater label, so the reconstruction loop cannot cycle |
| Search.ChainWalk | src/dijkstra.rs:174-183 | the predecessor chain from `b`, read from `a` forwards, is a walk whose cost is exactly minus the label of `b`, and it never passes through `a` |
| Planner.Dijkstra.constructor | src/dijkstra.rs:8-15 | the planner holds the four given grids and has sent no update |
| Planner.Dijkstra.ConnectOnce | src/dijkstra.rs:95-194 | water endpoints or `a == b` change nothing and send nothing; otherwise exactly one update `(path, [a, b])` is sent, the grids change as `Marked` says, the path with its endpoints is a cheapest walk when `b` is reachable, and it is empty when `b` is not |
| Planner.Dijkstra.Join | src/dijkstra.rs:113-192 | past the early returns exactly one update `(path, [a, b])` is sent, the grids change as `Marked` says, and the path with its endpoints is a cheapest walk, or empty when `b` is unreachable |
| Planner.Dijkstra.Route | src/dijkstra.rs:113-183 | the path becomes road and nothing else changes; with its endpoints it is a cheapest walk, or it is empty when no walk exists |
| Planner.Dijkstra.Backtrack | src/dijkstra.rs:174-183 | the loop returns the predecessor chain from `b` up to but excluding `a`, or nothing when `b` was not reached, and sets the road level to 1 on exactly those cells |
| Planner.TracingStep | src/dijkstra.rs:176-183 | a step back to a predecessor other than `a` keeps the loop invariant and strictly lowers the cost still to trace, so the loop ends |
| Planner.TracingDone | src/dijkstra.rs:176-179 | when the loop stops, at `a` or at a cell without predecessor, the path collected is the whole chain |
| Planner.ChainStep | src/dijkstra.rs:176-181 | the chain of a cell whose predecessor is not `a` starts with that predecessor, whose label is strictly greater |
| Planner.RoadsExtend | src/dijkstra.rs:182 | marking one more path cell as road keeps the road grid equal to the old one with the whole path marked |
| Planner.MarkedByPuts | src/dijkstra.rs:184-187 | the four endpoint writes after the loop give the change `Marked` describes: both endpoints are houses and not road, no other house changes, roads differ only on the path |
| Planner.Dijkstra.SproutCandidates | src/dijkstra.rs:47-71 | the candidate list holds exactly the in-bounds 8-neighbours of the chosen path cell that are land, free of houses and not road |
| Planner.Dijkstra.SampleLand | src/dijkstra.rs:82-88 | the draw loop returns the first land cell of the draws from `start`, having skipped only water; it has no cell exactly when every remaining draw is water |
| Planner.Dijkstra.Seed | src/dijkstra.rs:26-35 | five draw loops take five land draws at increasing indices (the ghost `picks`), skipping only water, and stop just after the fifth; the houses are exactly the cells at those draws, on land and at most five; when a loop runs out, every remaining draw is water |
| Planner.SeedingGrows | src/dijkstra.rs:26-35 | one more draw loop ending at a land draw keeps the seeding invariant: increasing land picks, only water skipped, and the houses exactly the cells at the picks |
| Planner.PickedGrows | src/dijkstra.rs:27-34 | one more draw loop, ending with a land draw after only water, extends the picks by that index |
| Planner.DrawsAtMembers | src/dijkstra.rs:27 | a cell is among the drawn houses exactly when some pick indexes it |
| Planner.PickedHouses | src/dijkstra.rs:26-35 | the seeded houses were all drawn before the first unused draw, and every land draw taken is a house |
| Planner.Dijkstra.SproutHouse | src/dijkstra.rs:45-77 | at most one house is added; when added it is a free land non-road neighbour of a path cell and is marked; when none is added, the chosen path cell has no such neighbour; markings stay indexed by the houses |
| Planner.Dijkstra.Relocate | src/dijkstra.rs:78-90 | one house is unmarked and removed, then the first land cell among the draws from `start` is marked and added, every draw skipped being water; houses stay on land and markings stay indexed |
| Planner.Dijkstra.ConnectRound | src/dijkstra.rs:36-91 | an early return in `connect_once` changes nothing and the round retries; past it exactly one update is sent; an empty path retries with the same houses and draws, `b` being unreachable or the direct step cheapest; otherwise the path is a cheapest walk paved as road, and the house grid is the old one with `a`, `b` and the sprout marked, then the evicted house cleared and the moved house marked; a sprout is a cell that was free land next to the path and off it (none only when a path cell has no such neighbour); the moved house is the first fresh land draw; the houses stay non-empty, on land, and every marked cell stays a house |
| Planner.Dijkstra.Grow | src/dijkstra.rs:45-90 | after a connection along a non-empty path, roads and the update log stay put; the house grid is the old one with the sprout marked, the evicted house cleared and the moved house marked, in that order; a sprout was free land next to the path and off it before the connection, and with no sprout some path cell had no such neighbour; the moved house is the first fresh land draw; the houses stay non-empty, on land and indexed |
| Planner.SproutAfterConnect | src/dijkstra.rs:64-66 | after a connection, a cell may take a new house exactly when it was free land before and is neither an endpoint nor on the path |
| Planner.IndexedAfterConnect | src/dijkstra.rs:37-41 | connecting two houses marks only those two, so every marked cell is still a house |
| Planner.IndexedAfterPut | src/dijkstra.rs:76-90 | adding a mark together with its house, or clearing a mark together with its house, keeps every marked cell a house |

## Left out

- Printing: the `println!` calls are not modelled.
- The channel: `tx.send` becomes an append to the ghost log `updates`. Blocking, and a receiver that has gone away, are not modelled.
- Random choice: `houses.iter().choose`, `path.choose` and `maybe_new_houses.choose` become nondeterministic picks (`:|`), so the model says nothing about their distribution.
- Random draws: the draw loops over `random_range` read a given sequence of drawn cells.
- Search ties: the queue's choice among equal greatest priorities is a nondeterministic pick of any greatest entry.
- Floating point: `f32` costs, `sqrt` and `OrderedFloat` are replaced by integers in thousandths, and `f32` heights by integers in the source's unit. The diagonal factor is 1414, and the squared steepness is divided by 1000 to stay in the same unit. Rounding and overflow of `f32` are not modelled. `f32::MIN` as the default label is modelled as "no label yet".
- Machine integers: coordinates are unbounded integers; the `usize`/`isize` casts only feed the bounds checks, which are modelled.
- Endless executions: the outer `loop` of `connect` is one round, `ConnectRound`. When every remaining draw is water, the source's draw loop never ends: `SampleLand` returns no cell, `Seed` returns none, and `ConnectRound` requires some later land draw.
- Planner.Dijkstra.ConnectRound: the path cell next to which no house could sprout is shown to exist, but it is not returned.
- Search.Explore: the claim that each cell is expanded at most once is stated on a ghost log of expansions; the source keeps no such log.
- Other files: src/ui.rs, src/main.rs, src/terrain.rs, src/train.rs and src/state.rs are not part of this model. They hold rendering, noise generation over `f32`, and declarations without behaviour.
