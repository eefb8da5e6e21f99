# ts-battle: bounded A* search, game map and player turn

A Dafny model of the core of ts-battle, a turn-based tactics game in the browser. Its parts:

- **Astar** (`astar.dfy`, module `AstarSearch`). It is the bounded A* search the game uses to
  move units. The search starts with the start node's annotation in the closed array. For up
  to 500 steps it expands the current node: it relaxes or creates the neighbours' annotations
  and pushes the new ones onto the open array. It then moves the first open annotation of
  least weight (distance to the start plus the straight-line distance to the target) to
  closed. At the end it traces back from the last current annotation.
- **AstarNode** (`astar_node.dfy`). These are the per-search annotations. They live in an arena
  and point to each other by index.
- **Node** (`nodes.dfy`). This is a node of the map: its position, its neighbour list, its
  back-link to its annotation, and its clickable disc.
- **GameMap** (`game_map.dfy`). It is the 20 x 10 grid builder with its obstacle list. It also
  has the path query, which runs one search and then clears every node's `astarNode`.
- **Unit** (`unit.dfy`). It holds a unit's statistics, its click box and how it takes a hit.
- **InputManager** (`input_manager.dfy`). It keeps the registries of clickables and of
  click-any listeners, and it dispatches one click.
- **Painter** (`painter.dfy`). It keeps the drawables on layers, in draw order.
- **PlayerTurn** (`player_turn.dfy`). It is the select / move / attack state machine of a
  player's turn.

Other files:

- `wrappers.dfy` defines `Option`, `Result`, `Outcome` and the two kinds of fault: an
  `Error` the code throws itself, and a JavaScript `TypeError`.
- `vectors.dfy` holds the points of the canvas.
- `utils.dfy` holds the array helpers the core calls.

How the model represents the program:

- Node and annotation objects are identified by indices.
- A JavaScript `number` is a `real`.
- Objects whose fields are written in place are classes: `Astar`, `GameMap`, `Unit`,
  `InputManager`, `Painter` and `PlayerTurn`.
- Methods name, in their frames, the fields they may write.

Where the design description and the code disagree, the model follows the code:

- A relaxation (`src/Astar.ts:66`) stores `current`'s own stored cost plus the edge weight as
  the neighbour's cost. It does not store the edge weight alone. So a relaxed annotation's
  distance to the start counts `current`'s last step twice. `AstarSearch.RelaxedDistance`
  states this.
- Only the start annotation is marked visited. Annotations moved to the closed array are not
  marked.
- The search reports no "found" or "exhausted" outcome; it traces back from whatever
  annotation it reached. The model's `FindPath` exposes the number of steps taken (a proof-only
  value). It states that the path starts at the target unless all 500 steps were used.
- An empty open array makes `GetBestNode` fail with a `TypeError`, which the search
  propagates.

## Model

| member | source | states |
|---|---|---|
| AstarSearch.Relaxed | src/Astar.ts:66 | only the relaxed annotation changes: it now points to `current`, with `current`'s stored cost plus the edge weight, and keeps its node and visited flag |
| AstarSearch.Reranked | src/Astar.ts:66 | proof-only ranks after a relaxation: an annotation keeps its rank when it is no farther from the start than `current`, and otherwise moves above `current` |
| AstarSearch.DistNonNegative | src/Astar.ts:88-101 | with non-negative stored costs, the distance to the start is never negative |
| AstarSearch.RelaxKeepsChainsAcyclic | src/Astar.ts:64-67 | a relaxation that fires only on a strictly shorter distance keeps every predecessor chain acyclic |
| AstarSearch.RelaxKeepsCloserDistances | src/Astar.ts:64-67 | a relaxation leaves the distance of every annotation no farther than `current` unchanged |
| AstarSearch.RelaxedDistance | src/Astar.ts:66 | after a relaxation, the relaxed annotation's distance is `current`'s distance plus `current`'s stored cost plus the edge weight |
| AstarSearch.TraceIsWalk | src/Astar.ts:144-157 | the trace of any annotation starts at its node and is a walk along edges back to the start node |
| AstarSearch.NoNodeTwice | src/Astar.ts:74-77 | no node appears twice across the open and closed arrays |
| AstarSearch.PushKeepsFrontier | src/Astar.ts:74-77 | pushing an annotation whose node is in neither array keeps the two arrays free of repeated nodes |
| AstarSearch.MoveKeepsFrontier | src/Astar.ts:80-82 | moving an open annotation to the end of closed keeps the arrays free of repeated nodes, loses no annotation and adds none |
| AstarSearch.RelaxKeepsArena | src/Astar.ts:64-67 | a relaxation along an edge keeps the arena well formed: acyclic links along edges, non-negative costs, the start annotation unchanged |
| AstarSearch.AppendKeepsArena | src/Astar.ts:69-72 | a new annotation reached from `current` along an edge keeps the arena well formed |
| AstarSearch.AppendKeepsLinks | src/Astar.ts:71 | linking a node without an annotation, or the start node, to a new annotation keeps every node's `astarNode` pointing to an annotation of that node |
| AstarSearch.RelaxKeepsLinks | src/Astar.ts:66 | relinking an annotation keeps the nodes' `astarNode` links consistent |
| AstarSearch.CoveredStep | src/Astar.ts:60-78 | after one more neighbour has been visited, every visited neighbour's node is in open or closed |
| AstarSearch.ArenaWeighable | src/Astar.ts:128-131 | every annotation of a search's arena has a node with a heuristic value, so it can be weighed |
| AstarSearch.NoTargetStep | src/Astar.ts:47-51 | a step taken from an annotation that was not the target extends the prefix of closed that holds no target |
| AstarSearch.Astar.constructor | src/Astar.ts:15-19 | the search keeps its start and target nodes, the graph and the nodes' links, and owns no annotation yet |
| AstarSearch.Astar.AttachAstarNode | src/AstarNode.ts:15-20 | a fresh annotation is appended to the arena and its node's `astarNode` now points to it, replacing any earlier link |
| AstarSearch.Astar.Relax | src/Astar.ts:66 | the arena becomes `Relaxed` of the old one, and the search invariant still holds |
| AstarSearch.Astar.RelaxIfShorter | src/Astar.ts:62-68 | the annotation is relaxed exactly when the distance through `current` plus the edge weight is strictly shorter than its own distance; otherwise nothing changes |
| AstarSearch.Astar.Discover | src/Astar.ts:69-72 | a node without an annotation, or the start node, gets a fresh annotation reached from `current` at the edge weight, and its link points to it |
| AstarSearch.Astar.PushIfNew | src/Astar.ts:74-77 | the annotation is appended to open exactly when its node is in neither open nor closed; afterwards the node is in one of them |
| AstarSearch.Astar.GetDistanceToStart | src/Astar.ts:88-101 | the result is the stored costs summed along the predecessor chain, and is non-negative when the costs are |
| AstarSearch.Astar.GetNodeWeight | src/Astar.ts:128-131 | the result is the distance to the start plus the node's heuristic value |
| AstarSearch.Astar.GetBestNode | src/Astar.ts:109-126 | it fails exactly on an empty array; otherwise it returns the earliest entry of least weight |
| AstarSearch.Astar.IsNodeInArray | src/Astar.ts:133-142 | true exactly when some annotation of the array wraps the node |
| AstarSearch.Astar.TraceBack | src/Astar.ts:144-157 | the path is the annotation's predecessor chain of nodes, its own node first |
| AstarSearch.Astar.UpdateNeighbour | src/Astar.ts:62-72 | an annotated neighbour other than the start is relaxed if `current` is a shorter way; any other neighbour gets a fresh annotation; the neighbour then links to the returned annotation |
| AstarSearch.Astar.VisitNeighbour | src/Astar.ts:60-77 | after one neighbour is handled, open has only grown, closed is unchanged, and the neighbour's node is in open or closed |
| AstarSearch.Astar.ExpandNeighbours | src/Astar.ts:60-78 | after the expansion, every neighbour of `current`'s node is in open or closed, open has only grown and closed is unchanged |
| AstarSearch.Astar.CloseBest | src/Astar.ts:80-82 | it fails exactly when open is empty; otherwise the earliest open annotation of least weight moves from open to the end of closed |
| AstarSearch.Astar.MoveToClosed | src/Astar.ts:81-82 | the annotation's first occurrence leaves open and it is appended to closed |
| AstarSearch.Astar.GetNextNode | src/Astar.ts:58-86 | it expands `current`; it then returns the earliest annotation of least weight in the grown open array and moves it to closed; it fails exactly when that array is empty |
| AstarSearch.Astar.Seed | src/Astar.ts:24-31 | open is empty, and closed holds only the start annotation: null predecessor, cost 0, visited |
| AstarSearch.Astar.FindPath | src/Astar.ts:21-56 | at most 500 steps are taken and no step before the last reaches the target; a returned path starts at the target unless all 500 steps were used; it is a walk back to the start; start = target gives the one-node path; a fault comes only from an empty open array |
| AstarNodes.NewAstarNode | src/AstarNode.ts:15-20 | a new annotation wraps its node, predecessor and cost, and is not visited |
| AstarNodes.Equals | src/AstarNode.ts:22-25 | it fails exactly when the positions match and an annotation has a null predecessor; otherwise it is true exactly when nodes, predecessors' nodes and visited flags agree |
| AstarNodes.EqualsSymmetric | src/AstarNode.ts:22-25 | swapping the arguments changes neither whether `Equals` fails nor its answer |
| AstarNodes.EqualsReflexive | src/AstarNode.ts:22-25 | an annotation with a predecessor equals itself; the start annotation makes `Equals` fail even against itself |
| Nodes.NewNode | src/Node.ts:11-22 | a new node has its position, no neighbours, no annotation, and takes clicks |
| Nodes.Node.IsClicked | src/Node.ts:32-35 | a click hits a node exactly when it lies in the closed disc of radius 7.5 around the node; the node's own position is a hit |
| Nodes.IsClickedBoundary | src/Node.ts:32-35 | along an axis, a click at distance `d` hits exactly when `d` is at most the radius, the boundary included |
| GameMaps.IsObstacle | src/GameMap.ts:22 | a cell is an obstacle exactly when it is in the obstacle list, and every obstacle is a cell of the 20 by 10 grid |
| GameMaps.Position | src/GameMap.ts:45 | the node of a grid cell is drawn inside the margin |
| GameMaps.PositionInjective | src/GameMap.ts:45 | distinct cells are drawn at distinct positions |
| GameMaps.ObstacleCells | src/GameMap.ts:22 | the obstacle cells are column 10, rows 3 to 6, and cells 8 and 9 of row 7 |
| GameMaps.NeighbourLists | src/GameMap.ts:76-79 | the graph handed to the search lists, for each node, exactly its `neighbours` |
| GameMaps.PlacedEdges | src/GameMap.ts:45-68 | placing a node changes the edge lists only of the nodes on its left and above, which gain an edge back to it |
| GameMaps.PlaceKeepsBuilding | src/GameMap.ts:43-68 | placing the node of a free cell keeps the builder's invariant: each node sits at its cell's position with edges to its present left, upper, right and lower neighbours |
| GameMaps.EdgeOfGrid | src/GameMap.ts:48-63 | an edge of a grid node leads to the node of an adjacent cell at distance 50, and that node has the edge back |
| GameMaps.BuiltEdge | src/GameMap.ts:34-73 | in the built map, every edge joins adjacent cells at distance 50 and is matched by an edge of the same weight back |
| GameMaps.BuiltDegree | src/GameMap.ts:34-73 | no node of the built map has more than four neighbours |
| GameMaps.BuiltGraphWellFormed | src/GameMap.ts:34-73 | the built map is a graph the search accepts: every neighbour is a node and every weight is non-negative |
| GameMaps.WithLinks | src/AstarNode.ts:19 | writing the search's links into the nodes changes only their `astarNode` fields |
| GameMaps.LinksKeepBuilt | src/GameMap.ts:80-83 | changing only `astarNode` fields keeps the map built and its neighbour lists unchanged |
| GameMaps.ClicksKeepBuilt | src/PlayerTurn.ts:78 | changing only `ignoreClicks` fields keeps the map built and whether every node is unlinked |
| GameMaps.WalkInGraph | src/GameMap.ts:79 | every node of a walk back to a node of a well-formed graph is a node of the graph |
| GameMaps.GameMap.constructor | src/GameMap.ts:26-32 | the built map satisfies the builder's invariant for the whole grid, with no node linked to an annotation |
| GameMaps.GameMap.GenerateNodes | src/GameMap.ts:34-73 | filling the grid row by row yields the complete built map |
| GameMaps.GameMap.PlaceCell | src/GameMap.ts:43-69 | one cell later the builder's invariant still holds |
| GameMaps.GameMap.AddNode | src/GameMap.ts:45-68 | the node of a free cell is added with its edges, and the builder's invariant holds one cell later |
| GameMaps.GameMap.LinkTo | src/GameMap.ts:48-63 | when the cell is inside the grid and not an obstacle, the new node and the node there each get an edge to the other at distance 50; otherwise nothing changes |
| GameMaps.GameMap.FindPath | src/GameMap.ts:76-86 | a returned path is a walk of map nodes back to `from`; it starts at `to` unless the step cap was reached; `from` = `to` gives `[from]`; after a returned search every `astarNode` is null, and the map and its edges are unchanged |
| GameMaps.GameMap.SetIgnoreClicks | src/PlayerTurn.ts:78 | every node takes the given flag and nothing else about the nodes changes |
| GameMaps.GameMap.SetNodeIgnoreClicks | src/PlayerTurn.ts:101-102 | exactly one node's flag is set and nothing else about the nodes changes |
| GameMaps.GameMap.ResetLinks | src/GameMap.ts:80-83 | every node's `astarNode` becomes null and nothing else about the nodes changes |
| GameMaps.GameMap.ResetRow | src/GameMap.ts:82 | after the row, every node of it and of the rows above has a null `astarNode` |
| GameMaps.GameMap.CheckIfObstacle | src/GameMap.ts:88-97 | true exactly when the cell is one of the obstacles |
| Units.Damage | src/Unit.ts:91 | what a hit takes off is never negative, at least the excess of the hit over the defense, and either that excess or zero |
| Units.Unit.constructor | src/Unit.ts:39-55 | each current statistic starts at its given value, and the unit takes clicks and has not moved |
| Units.Unit.TakeHit | src/Unit.ts:89-93 | hit points drop by the hit less the defense, never rise, and stay put when the defense absorbs the hit; nothing else changes |
| Units.Unit.IsClicked | src/Unit.ts:74-79 | only a box whose lower-left corner is left of and below its upper-right corner can be hit; a click on the unit's node hits exactly when the node lies strictly inside the box |
| Units.SpawnedUnitClickBox | src/Unit.ts:74-79 | with corners (-10, 10) and (10, -10), a click selects the unit exactly when it lies in the open square of half-side 10 around the unit's node |
| InputManagers.RemoveAtKeepsDistinct | src/InputManager.ts:57 | removing an element from a list without duplicates keeps it without duplicates, and the element is gone |
| InputManagers.AppendKeepsDistinct | src/InputManager.ts:29 | appending an element that is absent keeps a list without duplicates |
| InputManagers.RespondingHas | src/InputManager.ts:91 | a clickable responds exactly when it is registered, is not ignoring clicks and is hit |
| InputManagers.RespondingShorter | src/InputManager.ts:89-96 | there are never more responding clickables than registered ones |
| InputManagers.DispatchLength | src/InputManager.ts:89-96 | every responding clickable causes one `OnClick` and one call per listener |
| InputManagers.DispatchHas | src/InputManager.ts:89-96 | `OnClick` reaches a clickable exactly when it responds; a listener hears of a clickable exactly when it is registered and the clickable responds |
| InputManagers.InputManager.constructor | src/InputManager.ts:9-23 | both registries start empty |
| InputManagers.InputManager.RegisterClickable | src/InputManager.ts:25-30 | an error exactly when the clickable is already registered; otherwise it is appended |
| InputManagers.InputManager.TryUnregisterClickable | src/InputManager.ts:32-35 | true exactly when the clickable was registered; its first occurrence is removed and it is no longer registered |
| InputManagers.InputManager.UnregisterClickableAsWritten | src/InputManager.ts:37-40 | as written: no error and no change, for a registered clickable and for an unknown one alike |
| InputManagers.InputManager.UnregisterClickable | src/InputManager.ts:37-40 | as intended: an error exactly when the clickable was not registered; afterwards it is not registered |
| InputManagers.InputManager.AddOnClickAnyListener | src/InputManager.ts:43-47 | an error exactly when the listener is already registered; otherwise one entry is appended for it |
| InputManagers.InputManager.RemoveOnClickAnyListener | src/InputManager.ts:50-64 | an error exactly when the listener is absent; otherwise its entry is removed and the others keep their order |
| InputManagers.InputManager.IsListenerRegistered | src/InputManager.ts:66-79 | true exactly when the listener is registered |
| InputManagers.InputManager.NotifyListeners | src/InputManager.ts:93-94 | the calls for one clickable that was hit: its `OnClick` first, then one handler call per registered listener, in registration order |
| InputManagers.InputManager.OnClick | src/InputManager.ts:81-98 | the calls made are, in registration order, `OnClick` of each responding clickable followed by every listener's handler |
| Painters.FlattenAppend | src/Painter.ts:35-38 | drawing two groups of layers draws the first group, then the second |
| Painters.FlattenAround | src/Painter.ts:35-38 | the drawing order around a layer: the layers below it, then it, then those above |
| Painters.LowerLayersFirst | src/Painter.ts:13-14 | every drawable of a lower layer is drawn before every drawable of a higher one |
| Painters.FlattenHas | src/Painter.ts:35-38 | a drawable is drawn exactly when some layer holds it |
| Painters.FirstLayerWith | src/Painter.ts:54-61 | the index found is the first layer holding the drawable, and -1 exactly when no layer holds it |
| Painters.UnregisteredDrawsOneLess | src/Painter.ts:51-64 | unregistering keeps the number of layers and removes exactly one occurrence of the drawable from what is drawn |
| Painters.Painter.constructor | src/Painter.ts:16-28 | there are `layerNumber` layers, all empty |
| Painters.Painter.DrawAll | src/Painter.ts:31-41 | the drawables are drawn layer 0 first, each layer in registration order |
| Painters.Painter.RegisterDrawable | src/Painter.ts:44-49 | as written: the thrown error happens exactly for an index above `layerNumber` or below 0; the index `layerNumber` fails with a `TypeError`; otherwise the drawable is appended to its layer |
| Painters.Painter.RegisterDrawableChecked | src/Painter.ts:44-49 | as intended: an error exactly for an index without a layer; otherwise the drawable is appended to its layer |
| Painters.Painter.TryUnregisterDrawable | src/Painter.ts:51-64 | true exactly when the drawable was drawn; its first occurrence, on the lowest layer holding it, is removed |
| Painters.Painter.UnregisterDrawable | src/Painter.ts:66-69 | an error exactly when the drawable was on no layer; otherwise it is unregistered |
| PlayerTurns.Positions | src/PlayerTurn.ts:101-102 | the nodes the units stand on, one per unit, in order |
| PlayerTurns.SetUnitsIgnoring | src/PlayerTurn.ts:77 | every unit of the list takes the given flag |
| PlayerTurns.IgnoreMovedUnits | src/PlayerTurn.ts:79 | each player unit ignores clicks exactly when it has moved this turn |
| PlayerTurns.ResetPlayerUnits | src/PlayerTurn.ts:164 | every player unit takes clicks and has not moved |
| PlayerTurns.IgnoringAtFlags | src/PlayerTurn.ts:101-102 | exactly the listed nodes gain the flag; the other nodes keep theirs, and nothing else about the nodes changes |
| PlayerTurns.IgnoringTwice | src/PlayerTurn.ts:100-102 | starting from all nodes taking clicks, exactly the nodes of the two lists end up ignoring clicks, and the map stays built |
| PlayerTurns.IgnoreUnitsAndTheirNodes | src/PlayerTurn.ts:101-102 | every unit ignores clicks, and exactly the nodes the units stand on gain the flag |
| PlayerTurns.IgnoreAllUnitsAndTheirNodes | src/PlayerTurn.ts:100-102 | all units ignore clicks, and a node ignores clicks exactly when some unit stands on it |
| PlayerTurns.PlayerTurn.constructor | src/PlayerTurn.ts:31-42 | the turn listens to clicks and is in the selection stage, or, when no player unit was left to move, has ended with one `onTurnFinish` |
| PlayerTurns.PlayerTurn.AnyUnitsLeftToMove | src/PlayerTurn.ts:67-69 | true exactly when some player unit has not moved |
| PlayerTurns.PlayerTurn.StartPlayerUnitSelection | src/PlayerTurn.ts:65-85 | the selected unit gets its default colour back; then the selection stage starts, or the turn ends when every player unit has moved |
| PlayerTurns.PlayerTurn.BeginSelection | src/PlayerTurn.ts:75-79 | no unit is selected, the AI's units and all nodes ignore clicks, and a player unit takes clicks exactly when it has not moved |
| PlayerTurns.PlayerTurn.HandlePlayerUnitSelection | src/PlayerTurn.ts:87-95 | an unmoved player unit becomes the selected unit and the move stage starts; any other unit changes nothing |
| PlayerTurns.PlayerTurn.StartPlayerUnitMove | src/PlayerTurn.ts:97-103 | no unit takes clicks, and a node takes clicks exactly when no unit stands on it |
| PlayerTurns.PlayerTurn.HandlePlayerUnitMove | src/PlayerTurn.ts:105-122 | the path found walks back to the unit's node; when it has at most `speed` nodes, the unit moves to its first node and is marked moved, and the attack stage starts; otherwise nothing but the search's cleared links changes |
| PlayerTurns.PlayerTurn.StartPlayerUnitAttack | src/PlayerTurn.ts:124-130 | every unit takes clicks and no node does |
| PlayerTurns.PlayerTurn.InRange | src/PlayerTurn.ts:142 | `Vector2.Distance` between the two units' nodes is at most the attacker's range, decided exactly; a negative range reaches nothing; a target on the attacker's node is in range of any range that is not negative |
| PlayerTurns.PlayerTurn.DeleteUnit | src/Game.ts:102-103 | the dead enemy is recorded as passed to `deleteUnit` and its first occurrence leaves `enemyUnits`, which is one shorter and holds no new unit |
| PlayerTurns.PlayerTurn.HitEnemy | src/PlayerTurn.ts:145-146 | the enemy loses the damage less its defense; at 0 hit points or below it is passed to `deleteUnit` and leaves `enemyUnits`, otherwise `enemyUnits` is unchanged |
| PlayerTurns.PlayerTurn.AttackEnemy | src/PlayerTurn.ts:142-147 | the hit and its deletion as above, then selection starts over the units left; a dead unit no longer in `enemyUnits` keeps its click flag |
| PlayerTurns.PlayerTurn.HandlePlayerUnitAttack | src/PlayerTurn.ts:132-158 | clicking the selected unit skips to selection; an enemy in range loses the damage less its defense, is deleted at 0 hit points or below and then leaves `enemyUnits`, and selection starts again over the units left; any other click changes nothing |
| PlayerTurns.PlayerTurn.EndThisTurn | src/PlayerTurn.ts:160-168 | every unit and node takes clicks, no player unit has moved, the listener is removed and `onTurnFinish` is called once |
| PlayerTurns.PlayerTurn.OnClickAny | src/PlayerTurn.ts:44-62 | an undefined stage throws and changes nothing; a click is handled as a selection, move or attack as the stage expects; only a unit killed by the click leaves `enemyUnits`; other clicks change nothing |

## Left out

- Drawing is not modelled: the canvas, `CanvasHelper`, every `Draw` method, `clearRect` and
  the yellow circles of `src/Astar.ts:83`. `DrawAll` yields the drawables in the order they
  would be drawn.
- `console.log` output is not modelled.
- `window.requestAnimationFrame` is not modelled. `Painter`'s redraw loop is left out.
  `PlayerTurn` line 116 is modelled as an immediate call of `StartPlayerUnitAttack`. The
  deferral exists for one case: the moved unit now stands on the clicked node, and units are
  registered after every node, so under an immediate call the same dispatch would go on to
  hit that unit, reach the own-unit branch of `HandlePlayerUnitAttack`
  (`src/PlayerTurn.ts:135-139`) and skip its attack. The model does not show this only
  because `OnClick` records the calls it would make instead of running the handlers.
- DOM events are not modelled. The `InputManager` constructor's `addEventListener` is left out.
  `OnClick` takes the click position as a parameter instead of computing it from the mouse
  event and the element's bounding box.
- `InputManagers.InputManager.OnClick` records the calls it makes instead of running the
  handlers. So a handler that changes the registries during the same dispatch is not
  modelled, and neither is one that flips `ignoreClicks` flags during it, as the stage changes
  of `PlayerTurn` do: the clickables after the one hit would be tested against the new flags.
  `PlayerTurns.PlayerTurn.OnClickAny` stands for the handler call.
- The `onTurnFinish` and `deleteUnit` callbacks are recorded, not called: `finishCalls` counts
  the calls and `deleted` lists the units passed. Of what `Game.ts` does in them, only the
  removal of a dead unit from the unit arrays it shares with the turn (`src/Game.ts:102-103`)
  is modelled, by `PlayerTurns.PlayerTurn.DeleteUnit`. `playerUnits` stays a constant: a
  unit killed in the player's turn is an enemy, so the player's array never loses one there.
- PlayerTurns.PlayerTurn.DeleteUnit: does not unregister the dead unit from the input manager
  or the painter (`src/Game.ts:105-106`); the turn holds neither registry. The unregistering
  from the input manager does nothing as written anyway (see Findings), so the dead unit,
  which keeps the click flag of the attack stage, stays clickable.
- `Game.ts`, the game's setup and the AI turn, is not part of this model.
- `Vector2` and `Utils` are not part of this model. Points are pairs of reals.
  `Vector2.Distance` is a function parameter, used only for the heuristic of
  `GameMaps.GameMap.FindPath`. The comparisons `Distance(...) <= r` of `Node.IsClicked` and
  of the range test `PlayerTurns.PlayerTurn.InRange` are decided exactly on squared
  distances.
- The `Utils` array helpers are given the meaning their names and callers imply. Removal is
  in place and by identity, and only the first occurrence is removed.
- IEEE floating point is not modelled; every `number` is an exact real. Grid distances
  (`sqrt(50^2) = 50`) are exact in floating point too.
- Painters.Painter.constructor: takes a `nat`, so the `RangeError` that `new Array(n)`
  raises for a negative or fractional count is not modelled. The game passes 2.
- Non-integer layer indices are not modelled. `Painters.Painter.RegisterDrawable` takes an
  `int`; a fractional index would also end in a `TypeError`.
- GameMaps.GameMap.constructor: does not register the map with the painter or its nodes with
  the input manager (`src/GameMap.ts:30-31`). Those calls are
  `Painters.Painter.RegisterDrawable` and `InputManagers.InputManager.RegisterClickable`,
  modelled on their own.
- AstarSearch.Astar.FindPath: does not state that the path found is a shortest one. A
  relaxation stores the current annotation's own cost plus the edge weight
  (`src/Astar.ts:66`), so the relaxed annotation's distance becomes
  Dist(current) + cost(current) + w instead of Dist(current) + w
  (`AstarSearch.RelaxedDistance`), and the code does not promise shortest paths.
- AstarSearch.Astar.FindPath: it is not proved that the search never meets an empty open
  array on the game's grid. The fault is modelled as an error outcome instead.
- GameMaps.GameMap.FindPath: after a failed search, it promises only that the map is still
  built. The nodes keep the search's links, as in the source, where the exception skips the
  clearing loop.
- PlayerTurns.PlayerTurn.OnClickAny: it requires that the turn has not finished
  (`finishCalls == 0`), because the handler is only called while the listener is registered.
  Its contract states which stage each click leads to: a selection to the move stage, a move
  to the move or the attack stage, a click on the selected unit or an attack on an enemy in
  range back to selection; every other click changes nothing. The full effect of each
  handler (hit points, colours, the unit's new node) is stated by the handler itself.
- PlayerTurns.PlayerTurn.HandlePlayerUnitMove: it requires the move stage, where the source
  calls it.
- PlayerTurns.PlayerTurn.HandlePlayerUnitAttack: it requires a selected unit, which the move
  and attack stages always have.
- Listeners are typed as `PlayerTurn`, the only listener in the game. The handler each one
  registers is its own `OnClickAny`.

## Findings

| source | as written | input that shows it | evidently intended | confidence | as-written member | corrected member |
|---|---|---|---|---|---|---|
| src/InputManager.ts:39 | `!this.TryUnregisterClickable` negates the method itself, which is never falsy, so nothing is removed and nothing is thrown | `UnregisterClickable(c)` for a registered `c` (it stays registered) or for an unknown `c` (no error) | `!this.TryUnregisterClickable(clickable)`: remove it, and throw when it was not registered | high, not executed | InputManagers.InputManager.UnregisterClickableAsWritten | InputManagers.InputManager.UnregisterClickable |
| src/Painter.ts:46 | the guard `layerIndex > this.layerNumber` lets the index `layerNumber` through; `this.layers[layerNumber]` is undefined, so `push` raises a `TypeError` instead of the intended error | `RegisterDrawable(d, layerNumber)` | `layerIndex >= this.layerNumber`, so every index without a layer gets the "Invalid layer index" error | high, not executed | Painters.Painter.RegisterDrawable | Painters.Painter.RegisterDrawableChecked |
