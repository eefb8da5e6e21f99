/** The game map (`GameMap`): a 20 x 10 grid of nodes with some cells blocked, each node
    linked to its horizontal and vertical neighbours, and the path query that runs one A*
    search over it and then clears every node's `astarNode`. */
module GameMaps {
  import opened Wrappers
  import opened Vectors
  import opened Nodes
  import opened AstarSearch

  const Width: nat := 20
  const Height: nat := 10
  /** Distance between the centres of two adjacent cells. */
  const Space: real := 50.0
  const Margin: real := 10.0
  const Obstacles: seq<Vector2> :=
    [Vector2(10.0, 3.0), Vector2(10.0, 4.0), Vector2(10.0, 5.0), Vector2(10.0, 6.0), Vector2(9.0, 7.0), Vector2(8.0, 7.0)]

  /** The cell (x, y) is one of the obstacles, as `CheckIfObstacle` tests it. Every obstacle
      is a cell of the grid. */
  predicate IsObstacle(x: int, y: int)
    ensures IsObstacle(x, y) ==> 0 <= x < Width && 0 <= y < Height
  {
    Vector2(x as real, y as real) in Obstacles
  }

  /** The obstacles form a wall in column 10 (rows 3 to 6) and two cells of row 7. */
  lemma ObstacleCells(x: int, y: int)
    ensures IsObstacle(x, y) <==> (x == 10 && 3 <= y <= 6) || (y == 7 && (x == 8 || x == 9))
  {
  }

  /** Line 45: where the node of cell (x, y) is drawn. A cell of the grid is drawn inside
      the margin. */
  function Position(x: int, y: int): (p: Vector2)
    ensures 0 <= x && 0 <= y ==> Margin <= p.x && Margin <= p.y
  {
    Vector2(Margin + x as real * Space, Margin + y as real * Space)
  }

  /** Distinct cells are drawn at distinct positions. */
  lemma PositionInjective(x: int, y: int, x': int, y': int)
    ensures Position(x, y) == Position(x', y') ==> x == x' && y == y'
  {
  }

  /** `nodes[y][x]`: the identity of the node of cell (x, y), or none. */
  type Grid = seq<seq<Option<NodeId>>>

  /** `new Array<Node>(width)`: a row of holes, which read as undefined. */
  const EmptyRow: seq<Option<NodeId>> := seq(Width, _ => None)

  ghost predicate GridShape(grid: Grid)
  {
    |grid| == Height && forall y :: 0 <= y < Height ==> |grid[y]| == Width
  }

  /** The node at (x, y); none outside the grid. */
  function At(grid: Grid, x: int, y: int): Option<NodeId>
  {
    if 0 <= y < |grid| && 0 <= x < |grid[y]| then grid[y][x] else None
  }

  /** The edge to the node at (x, y), if there is one. */
  function Link(grid: Grid, x: int, y: int): seq<Edge>
  {
    if At(grid, x, y).Some? then [Edge(At(grid, x, y).value, Space)] else []
  }

  /** The neighbour list a node at (x, y) ends up with: its left, upper, right and lower
      neighbours in this order, each one that exists, at distance `Space`. */
  function GridEdges(grid: Grid, x: int, y: int): seq<Edge>
  {
    Link(grid, x - 1, y) + Link(grid, x, y - 1) + Link(grid, x + 1, y) + Link(grid, x, y + 1)
  }

  /** (x', y') comes before (x, y) in the builder's row-major order. */
  predicate Before(x': int, y': int, x: int, y: int)
  {
    y' < y || (y' == y && x' < x)
  }

  /** `cells[i]` is the cell node `i` was built for, and the grid and `cells` agree. */
  ghost predicate IndexedBy(grid: Grid, cells: seq<(int, int)>)
  {
    GridShape(grid) &&
    (forall i :: 0 <= i < |cells| ==>
       0 <= cells[i].0 < Width && 0 <= cells[i].1 < Height && grid[cells[i].1][cells[i].0] == Some(i)) &&
    (forall y, x :: 0 <= y < Height && 0 <= x < Width && grid[y][x].Some? ==>
       grid[y][x].value < |cells| && cells[grid[y][x].value] == (x, y))
  }

  /** The edges of node `i`; the name the edge half of `LinkedBy` is triggered on. */
  ghost function EdgesAt(all: seq<Node>, i: nat): seq<Edge>
    requires i < |all|
  {
    all[i].neighbours
  }

  /** Every node sits at its cell's position and has exactly the edges the grid gives it. */
  ghost predicate LinkedBy(grid: Grid, all: seq<Node>, cells: seq<(int, int)>)
    requires |cells| == |all|
  {
    (forall i :: 0 <= i < |all| ==> all[i].position == Position(cells[i].0, cells[i].1)) &&
    (forall i {:trigger EdgesAt(all, i)} :: 0 <= i < |all| ==>
       EdgesAt(all, i) == GridEdges(grid, cells[i].0, cells[i].1))
  }

  /** The cells before (x, y) hold a node exactly when they are not obstacles; the others
      hold none yet. */
  ghost predicate FilledTo(grid: Grid, x: int, y: int)
    requires GridShape(grid)
  {
    forall y', x' :: 0 <= y' < Height && 0 <= x' < Width ==>
      (grid[y'][x'].Some? <==> Before(x', y', x, y) && !IsObstacle(x', y'))
  }

  /** The map as `GenerateNodes` leaves it. */
  ghost predicate BuiltBy(grid: Grid, all: seq<Node>, cells: seq<(int, int)>)
  {
    IndexedBy(grid, cells) && |cells| == |all| && LinkedBy(grid, all, cells) && FilledTo(grid, 0, Height)
  }

  /** The neighbour lists of the nodes, as the search reads them. */
  function NeighbourLists(all: seq<Node>): (g: seq<seq<Edge>>)
    ensures |g| == |all| && forall i :: 0 <= i < |all| ==> g[i] == all[i].neighbours
  {
    seq(|all|, i requires 0 <= i < |all| => all[i].neighbours)
  }

  /** Every node's `astarNode` is null. */
  ghost predicate Unlinked(all: seq<Node>)
  {
    forall i :: 0 <= i < |all| ==> all[i].astarNode.None?
  }

  /** The nodes differ at most in their `astarNode` fields. */
  ghost predicate SameButLinks(all: seq<Node>, all': seq<Node>)
  {
    |all'| == |all| && forall i :: 0 <= i < |all| ==> all'[i] == all[i].(astarNode := all'[i].astarNode)
  }

  /** The grid after placing node `id` in the free cell (x, y). */
  function Placed(grid: Grid, x: nat, y: nat, id: NodeId): Grid
    requires y < |grid| && x < |grid[y]|
  {
    grid[y := grid[y][x := Some(id)]]
  }

  /** Placing a node changes only the edge towards its own cell. */
  lemma PlacedLink(grid: Grid, x: nat, y: nat, id: NodeId, cx: int, cy: int)
    requires y < |grid| && x < |grid[y]| && At(grid, x, y) == None
    ensures Link(Placed(grid, x, y, id), cx, cy) ==
      Link(grid, cx, cy) + if (cx, cy) == (x, y) then [Edge(id, Space)] else []
  {
  }

  lemma PlaceKeepsIndexed(grid: Grid, cells: seq<(int, int)>, x: nat, y: nat)
    requires x < Width && y < Height
    requires IndexedBy(grid, cells) && grid[y][x] == None
    ensures IndexedBy(Placed(grid, x, y, |cells|), cells + [(x, y)])
  {
  }

  lemma PlaceKeepsFilled(grid: Grid, x: nat, y: nat, id: NodeId)
    requires x < Width && y < Height && !IsObstacle(x, y)
    requires GridShape(grid) && FilledTo(grid, x, y)
    ensures GridShape(Placed(grid, x, y, id)) && FilledTo(Placed(grid, x, y, id), x + 1, y)
  {
  }

  lemma SkipKeepsFilled(grid: Grid, x: nat, y: nat)
    requires x < Width && y < Height && IsObstacle(x, y)
    requires GridShape(grid) && FilledTo(grid, x, y)
    ensures FilledTo(grid, x + 1, y)
  {
  }

  /** When the builder reaches (x, y), that cell, the next one and the two below them are
      still empty. */
  predicate UnfilledAround(grid: Grid, x: int, y: int)
  {
    At(grid, x, y) == None && At(grid, x + 1, y) == None &&
    At(grid, x, y + 1) == None && At(grid, x - 1, y + 1) == None
  }

  lemma FilledToUnfilled(grid: Grid, x: nat, y: nat)
    requires x < Width && y < Height && GridShape(grid) && FilledTo(grid, x, y)
    ensures UnfilledAround(grid, x, y)
  {
  }

  /** The edges of an existing node at (cx, cy) after placing node `id` at (x, y): the node
      on the left and the node above gain the edge to it at the end of their lists, the
      others are unchanged. */
  lemma PlacedEdges(grid: Grid, x: nat, y: nat, id: NodeId, cx: int, cy: int)
    requires y < |grid| && x < |grid[y]|
    requires At(grid, cx, cy).Some? && UnfilledAround(grid, x, y)
    ensures GridEdges(Placed(grid, x, y, id), cx, cy) ==
      GridEdges(grid, cx, cy) + if (cx, cy) == (x - 1, y) || (cx, cy) == (x, y - 1) then [Edge(id, Space)] else []
  {
    PlacedLink(grid, x, y, id, cx - 1, cy);
    PlacedLink(grid, x, y, id, cx, cy - 1);
    PlacedLink(grid, x, y, id, cx + 1, cy);
    PlacedLink(grid, x, y, id, cx, cy + 1);
    var l, u, r, d := Link(grid, cx - 1, cy), Link(grid, cx, cy - 1), Link(grid, cx + 1, cy), Link(grid, cx, cy + 1);
    var e := [Edge(id, Space)];
    if (cx, cy) == (x - 1, y) {
      assert r == [] && d == [];
      assert GridEdges(Placed(grid, x, y, id), cx, cy) == l + u + e + d;
    } else if (cx, cy) == (x, y - 1) {
      assert GridEdges(Placed(grid, x, y, id), cx, cy) == l + u + r + e;
    } else {
      assert (cx - 1, cy) != (x, y) && (cx, cy - 1) != (x, y);
    }
  }

  /** The edges of the new node: the nodes on its left and above, if any. */
  lemma PlaceNewEdges(grid: Grid, x: nat, y: nat, id: NodeId)
    requires x < Width && y < Height && GridShape(grid) && UnfilledAround(grid, x, y)
    ensures GridEdges(Placed(grid, x, y, id), x, y) == Link(grid, x - 1, y) + Link(grid, x, y - 1)
  {
    PlacedLink(grid, x, y, id, x - 1, y);
    PlacedLink(grid, x, y, id, x, y - 1);
    PlacedLink(grid, x, y, id, x + 1, y);
    PlacedLink(grid, x, y, id, x, y + 1);
  }

  /** The builder's state when it reaches cell (x, y). */
  ghost predicate Building(grid: Grid, all: seq<Node>, cells: seq<(int, int)>, x: int, y: int)
  {
    IndexedBy(grid, cells) && |cells| == |all| && LinkedBy(grid, all, cells) &&
    FilledTo(grid, x, y) && Unlinked(all)
  }

  /** `neighbour.neighbours.push([node, distance])` on the node `j`, if there is one. */
  function Attach(all: seq<Node>, j: Option<NodeId>, id: NodeId): (r: seq<Node>)
    requires j.Some? ==> j.value < |all|
    ensures |r| == |all|
  {
    if j.Some? then all[j.value := all[j.value].(neighbours := all[j.value].neighbours + [Edge(id, Space)])]
    else all
  }

  /** The cells the builder reads when it reaches (x, y): the one on the left and the one
      above hold a node exactly when they are not obstacles. */
  lemma BuildingNeighbours(grid: Grid, all: seq<Node>, cells: seq<(int, int)>, x: nat, y: nat)
    requires x < Width && y < Height && Building(grid, all, cells, x, y)
    ensures x >= 1 ==> (At(grid, x - 1, y).Some? <==> !IsObstacle(x - 1, y))
    ensures y >= 1 ==> (At(grid, x, y - 1).Some? <==> !IsObstacle(x, y - 1))
    ensures At(grid, x - 1, y).Some? ==> At(grid, x - 1, y).value < |all|
    ensures At(grid, x, y - 1).Some? ==> At(grid, x, y - 1).value < |all|
    ensures At(grid, x - 1, y).Some? && At(grid, x, y - 1).Some? ==> At(grid, x - 1, y) != At(grid, x, y - 1)
  {
    if At(grid, x - 1, y).Some? && At(grid, x, y - 1).Some? {
      assert cells[At(grid, x - 1, y).value] != cells[At(grid, x, y - 1).value];
    }
  }

  /** Placing the node of a free cell (x, y), lines 43-68: the new node gets edges to its left
      and upper neighbours, and each of those gets an edge back to it. The builder's
      invariant holds one cell further on. */
  lemma PlaceKeepsBuilding(grid: Grid, all: seq<Node>, cells: seq<(int, int)>, x: nat, y: nat,
                           grid': Grid, all': seq<Node>, cells': seq<(int, int)>)
    requires x < Width && y < Height && !IsObstacle(x, y) && Building(grid, all, cells, x, y)
    requires var left, up := At(grid, x - 1, y), At(grid, x, y - 1);
      (left.Some? ==> left.value < |all|) && (up.Some? ==> up.value < |all|) &&
      grid' == Placed(grid, x, y, |all|) && cells' == cells + [(x, y)] &&
      all' == Attach(Attach(all, left, |all|), up, |all|) +
                [NewNode(Position(x, y)).(neighbours := Link(grid, x - 1, y) + Link(grid, x, y - 1))]
    ensures Building(grid', all', cells', x + 1, y)
  {
    var left, up := At(grid, x - 1, y), At(grid, x, y - 1);
    BuildingNeighbours(grid, all, cells, x, y);
    PlaceKeepsIndexed(grid, cells, x, y);
    PlaceKeepsFilled(grid, x, y, |all|);
    FilledToUnfilled(grid, x, y);
    assert left.Some? ==> cells[left.value] == (x - 1, y);
    assert up.Some? ==> cells[up.value] == (x, y - 1);
    forall i | 0 <= i < |all'|
      ensures all'[i].position == Position(cells'[i].0, cells'[i].1)
      ensures EdgesAt(all', i) == GridEdges(grid', cells'[i].0, cells'[i].1)
      ensures all'[i].astarNode.None?
    {
      if i < |all| {
        assert EdgesAt(all, i) == all[i].neighbours;
        PlaceKeepsNode(grid, all, cells, x, y, i);
      } else {
        PlaceNewEdges(grid, x, y, |all|);
      }
    }
  }

  /** One existing node across the placement of node `|all|` at (x, y). */
  lemma PlaceKeepsNode(grid: Grid, all: seq<Node>, cells: seq<(int, int)>, x: nat, y: nat, i: nat)
    requires y < |grid| && x < |grid[y]| && UnfilledAround(grid, x, y)
    requires i < |all| == |cells| && At(grid, cells[i].0, cells[i].1) == Some(i)
    requires all[i].neighbours == GridEdges(grid, cells[i].0, cells[i].1)
    requires var left, up := At(grid, x - 1, y), At(grid, x, y - 1);
      (left.Some? ==> left.value < |all| && cells[left.value] == (x - 1, y)) &&
      (up.Some? ==> up.value < |all| && cells[up.value] == (x, y - 1))
    ensures var all' := Attach(Attach(all, At(grid, x - 1, y), |all|), At(grid, x, y - 1), |all|);
      all'[i] == all[i].(neighbours := GridEdges(Placed(grid, x, y, |all|), cells[i].0, cells[i].1))
  {
    PlacedEdges(grid, x, y, |all|, cells[i].0, cells[i].1);
  }

  /** Skipping an obstacle cell keeps the builder's invariant. */
  lemma SkipKeepsBuilding(grid: Grid, all: seq<Node>, cells: seq<(int, int)>, x: nat, y: nat)
    requires x < Width && y < Height && IsObstacle(x, y) && Building(grid, all, cells, x, y)
    ensures Building(grid, all, cells, x + 1, y)
  {
  }

  /** The end of a row is the start of the next one, whose cells are all still empty. */
  lemma NextRow(grid: Grid, all: seq<Node>, cells: seq<(int, int)>, y: nat)
    requires y < Height && Building(grid, all, cells, Width, y)
    ensures Building(grid, all, cells, 0, y + 1)
  {
  }

  /** A row the builder has not reached holds no node yet. */
  lemma RowEmpty(grid: Grid, all: seq<Node>, cells: seq<(int, int)>, y: nat)
    requires y < Height && Building(grid, all, cells, 0, y)
    ensures grid[y := EmptyRow] == grid
  {
    assert forall x :: 0 <= x < Width ==> grid[y][x] == None;
    assert grid[y] == EmptyRow;
  }

  /** An edge of the node at (x, y) leads to the node of an adjacent cell (cx, cy), at
      distance `Space`, and that node has an edge back. */
  lemma EdgeOfGrid(grid: Grid, x: int, y: int, e: Edge) returns (cx: int, cy: int)
    requires At(grid, x, y).Some? && e in GridEdges(grid, x, y)
    ensures e.weight == Space && Adjacent((x, y), (cx, cy)) && At(grid, cx, cy) == Some(e.to)
    ensures Edge(At(grid, x, y).value, Space) in GridEdges(grid, cx, cy)
  {
    if e in Link(grid, x - 1, y) {
      cx, cy := x - 1, y;
    } else if e in Link(grid, x, y - 1) {
      cx, cy := x, y - 1;
    } else if e in Link(grid, x + 1, y) {
      cx, cy := x + 1, y;
    } else {
      cx, cy := x, y + 1;
    }
  }

  /** A node's edges lead to the nodes of the cells next to its own, each at distance
      `Space`, and each is matched by an edge of the same weight back. */
  lemma BuiltEdge(grid: Grid, all: seq<Node>, cells: seq<(int, int)>, i: NodeId, k: nat)
    requires BuiltBy(grid, all, cells)
    requires i < |all| && k < |all[i].neighbours|
    ensures var e := all[i].neighbours[k];
      e.to < |all| && e.weight == Space && e.to != i &&
      Adjacent(cells[i], cells[e.to]) &&
      Edge(i, Space) in all[e.to].neighbours
  {
    var (x, y) := cells[i];
    var e := all[i].neighbours[k];
    assert EdgesAt(all, i) == all[i].neighbours;
    assert At(grid, x, y) == Some(i);
    var cx, cy := EdgeOfGrid(grid, x, y, e);
    assert grid[cy][cx] == Some(e.to);
    assert cells[e.to] == (cx, cy);
    assert EdgesAt(all, e.to) == all[e.to].neighbours;
  }

  /** Two cells side by side or one above the other. */
  predicate Adjacent(a: (int, int), b: (int, int))
  {
    (a.1 == b.1 && (a.0 - b.0 == 1 || b.0 - a.0 == 1)) ||
    (a.0 == b.0 && (a.1 - b.1 == 1 || b.1 - a.1 == 1))
  }

  /** No node has more than four neighbours. */
  lemma BuiltDegree(grid: Grid, all: seq<Node>, cells: seq<(int, int)>, i: NodeId)
    requires BuiltBy(grid, all, cells) && i < |all|
    ensures |all[i].neighbours| <= 4
  {
    assert EdgesAt(all, i) == all[i].neighbours;
  }

  /** The grid's nodes and edges form a graph the search accepts. */
  lemma BuiltGraphWellFormed(grid: Grid, all: seq<Node>, cells: seq<(int, int)>)
    requires BuiltBy(grid, all, cells)
    ensures WellFormedGraph(NeighbourLists(all))
  {
    forall v, k | 0 <= v < |all| && 0 <= k < |all[v].neighbours|
      ensures all[v].neighbours[k].to < |all| && all[v].neighbours[k].weight >= 0.0
    {
      BuiltEdge(grid, all, cells, v, k);
    }
  }

  /** The nodes after a search has written the given annotations into their `astarNode`. */
  function WithLinks(all: seq<Node>, links: seq<Option<AnnotId>>): (r: seq<Node>)
    requires |links| == |all|
    ensures SameButLinks(all, r) && forall i :: 0 <= i < |all| ==> r[i].astarNode == links[i]
  {
    seq(|all|, i requires 0 <= i < |all| => all[i].(astarNode := links[i]))
  }

  /** Changing only `astarNode` fields keeps the map built. */
  lemma LinksKeepBuilt(grid: Grid, all: seq<Node>, all': seq<Node>, cells: seq<(int, int)>)
    requires BuiltBy(grid, all, cells) && SameButLinks(all, all')
    ensures BuiltBy(grid, all', cells) && NeighbourLists(all') == NeighbourLists(all)
  {
    assert forall i :: 0 <= i < |all| ==> EdgesAt(all', i) == EdgesAt(all, i);
  }

  lemma SameButLinksTransitive(all: seq<Node>, all': seq<Node>, all'': seq<Node>)
    requires SameButLinks(all, all') && SameButLinks(all', all'')
    ensures SameButLinks(all, all'')
  {
  }

  /** The nodes differ at most in their `ignoreClicks` fields. */
  ghost predicate SameButClicks(all: seq<Node>, all': seq<Node>)
  {
    |all'| == |all| && forall i :: 0 <= i < |all| ==> all'[i] == all[i].(ignoreClicks := all'[i].ignoreClicks)
  }

  /** Changing only `ignoreClicks` fields keeps the map built and its annotations as they were. */
  lemma ClicksKeepBuilt(grid: Grid, all: seq<Node>, all': seq<Node>, cells: seq<(int, int)>)
    requires BuiltBy(grid, all, cells) && SameButClicks(all, all')
    ensures BuiltBy(grid, all', cells) && (Unlinked(all') <==> Unlinked(all))
  {
    assert forall i :: 0 <= i < |all| ==> EdgesAt(all', i) == EdgesAt(all, i) && all'[i].position == all[i].position;
  }

  /** Every node of a walk back to a node of a well-formed graph is a node of the graph. */
  lemma WalkInGraph(graph: seq<seq<Edge>>, path: seq<NodeId>, start: NodeId)
    requires WellFormedGraph(graph) && start < |graph| && WalkBackTo(graph, path, start)
    ensures forall k :: 0 <= k < |path| ==> path[k] < |graph|
  {
    forall k | 0 <= k < |path|
      ensures path[k] < |graph|
    {
      if k < |path| - 1 {
        assert IsNeighbour(graph, path[k + 1], path[k]);
      }
    }
  }

  class GameMap {
    /** `nodes[y][x]`: the node of cell (x, y); none for an obstacle. */
    var nodes: Grid
    /** Every `Node` object of the map, by identity. */
    var allNodes: seq<Node>
    /** The cell each node was built for. */
    ghost var cells: seq<(int, int)>

    /** The map as `GenerateNodes` leaves it. Only the nodes' `astarNode` and
        `ignoreClicks` fields change afterwards. */
    ghost predicate Built()
      reads this
    {
      BuiltBy(nodes, allNodes, cells)
    }

    /** A built map between searches: no node carries an annotation. */
    ghost predicate Valid()
      reads this
    {
      Built() && Unlinked(allNodes)
    }

    /** `new GameMap(...)`: builds the grid. The holes of `new Array(width)` read as
        undefined, modelled as none. */
    constructor()
      ensures Valid()
    {
      nodes := seq(Height, _ => EmptyRow);
      allNodes := [];
      cells := [];
      new;
      GenerateNodes();
    }

    /** Lines 34-73: fills the grid row by row, left to right. */
    method GenerateNodes()
      requires GridShape(nodes) && allNodes == [] && cells == []
      requires forall y, x :: 0 <= y < Height && 0 <= x < Width ==> nodes[y][x].None?
      modifies this
      ensures Valid()
    {
      assert Building(nodes, allNodes, cells, 0, 0);
      var y := 0;
      while y < Height
        invariant 0 <= y <= Height && Building(nodes, allNodes, cells, 0, y)
      {
        RowEmpty(nodes, allNodes, cells, y);
        nodes := nodes[y := EmptyRow];
        var x := 0;
        while x < Width
          invariant 0 <= x <= Width && Building(nodes, allNodes, cells, x, y)
        {
          PlaceCell(x, y);
          x := x + 1;
        }
        NextRow(nodes, allNodes, cells, y);
        y := y + 1;
      }
    }

    /** One iteration of the inner loop, lines 43-69. */
    method PlaceCell(x: nat, y: nat)
      requires x < Width && y < Height && Building(nodes, allNodes, cells, x, y)
      modifies this
      ensures Building(nodes, allNodes, cells, x + 1, y)
    {
      var obstacle := CheckIfObstacle(x, y);
      if obstacle {
        SkipKeepsBuilding(nodes, allNodes, cells, x, y);
      } else {
        AddNode(x, y);
      }
    }

    /** Lines 45-68: the node of the free cell (x, y) and its edges. */
    method AddNode(x: nat, y: nat)
      requires x < Width && y < Height && !IsObstacle(x, y) && Building(nodes, allNodes, cells, x, y)
      modifies this
      ensures Building(nodes, allNodes, cells, x + 1, y)
    {
      BuildingNeighbours(nodes, allNodes, cells, x, y);
      ghost var grid0, all0, cells0 := nodes, allNodes, cells;
      var id := |allNodes|;
      var node := NewNode(Position(x, y));
      node := LinkTo(x, y, x - 1, y, id, node);
      node := LinkTo(x, y, x, y - 1, id, node);
      allNodes := allNodes + [node];
      nodes := nodes[y := nodes[y][x := Some(id)]];
      cells := cells + [(x, y)];
      assert node == NewNode(Position(x, y)).(neighbours := Link(grid0, x - 1, y) + Link(grid0, x, y - 1));
      PlaceKeepsBuilding(grid0, all0, cells0, x, y, nodes, allNodes, cells);
    }

    /** Lines 48-55 (the cell on the left) and 56-63 (the cell above): when the cell (nx, ny)
        is inside the grid and not an obstacle, the new node `id` and the node there each get
        an edge to the other. */
    method LinkTo(x: nat, y: nat, nx: int, ny: int, id: NodeId, node: Node) returns (node': Node)
      requires x < Width && y < Height && GridShape(nodes)
      requires (nx, ny) == (x - 1, y) || (nx, ny) == (x, y - 1)
      requires nx >= 0 && ny >= 0 ==> (At(nodes, nx, ny).Some? <==> !IsObstacle(nx, ny))
      requires At(nodes, nx, ny).Some? ==> At(nodes, nx, ny).value < |allNodes|
      modifies this
      ensures nodes == old(nodes) && cells == old(cells)
      ensures allNodes == Attach(old(allNodes), At(nodes, nx, ny), id)
      ensures node' == node.(neighbours := node.neighbours + Link(nodes, nx, ny))
    {
      node' := node;
      if nx >= 0 && ny >= 0 {
        var blocked := CheckIfObstacle(nx, ny);
        if !blocked {
          var neighbour := nodes[ny][nx].value;
          node' := node'.(neighbours := node'.neighbours + [Edge(neighbour, Space)]);
          allNodes := allNodes[neighbour := allNodes[neighbour].(neighbours := allNodes[neighbour].neighbours + [Edge(id, Space)])];
        }
      }
    }

    /** Lines 76-86: one search from `from` to `to`, then the nested `forEach` that clears
        `astarNode` on every node of the grid. The search writes its annotations into the
        nodes' `astarNode` fields; a fault in the search propagates before the clearing.
        `distance` is `Vector2.Distance`, from which the search's heuristic is computed. */
    method FindPath(from: NodeId, to: NodeId, distance: (Vector2, Vector2) -> real)
      returns (r: Result<seq<NodeId>>, ghost steps: nat)
      requires Valid() && from < |allNodes| && to < |allNodes|
      modifies this`allNodes
      ensures nodes == old(nodes) && cells == old(cells) && SameButLinks(old(allNodes), allNodes)
      ensures Built() && NeighbourLists(allNodes) == NeighbourLists(old(allNodes))
      // the path the search returned: a walk back to `from` that starts at `to` unless the
      // step cap was reached
      ensures r.Ok? ==> WalkBackTo(NeighbourLists(allNodes), r.value, from)
      ensures r.Ok? ==> forall k :: 0 <= k < |r.value| ==> r.value[k] < |allNodes|
      ensures r.Ok? ==> steps <= MaxSteps && (r.value[0] == to || steps == MaxSteps)
      ensures from == to ==> r == Ok([from])
      // cleared after a search that returned
      ensures r.Ok? ==> Unlinked(allNodes)
      ensures r.Err? ==> steps < MaxSteps
    {
      var all := allNodes;
      var links := seq(|all|, i requires 0 <= i < |all| => all[i].astarNode);
      var heuristic := seq(|all|, i requires 0 <= i < |all| => distance(all[i].position, all[to].position));
      BuiltGraphWellFormed(nodes, allNodes, cells);
      var astar := new Astar(NeighbourLists(all), links, heuristic, from, to);
      r, steps := astar.FindPath();
      allNodes := WithLinks(all, astar.astarNode);
      LinksKeepBuilt(nodes, all, allNodes, cells);
      if r.Err? {
        return;
      }
      ResetLinks();
      SameButLinksTransitive(all, WithLinks(all, astar.astarNode), allNodes);
      LinksKeepBuilt(nodes, all, allNodes, cells);
      WalkInGraph(NeighbourLists(all), r.value, from);
    }

    /** The nested `forEach` over the grid with which the turn logic sets `ignoreClicks` on
        every node. The grid holds the nodes row by row, left to right, which is the order
        they were created in, so visiting them by identity visits them in the same order. */
    method SetIgnoreClicks(value: bool)
      requires Built()
      modifies this`allNodes
      ensures nodes == old(nodes) && cells == old(cells) && SameButClicks(old(allNodes), allNodes)
      ensures forall i :: 0 <= i < |allNodes| ==> allNodes[i].ignoreClicks == value
      ensures Built() && (Unlinked(allNodes) <==> old(Unlinked(allNodes)))
    {
      ghost var all0 := allNodes;
      for i := 0 to |allNodes|
        invariant nodes == old(nodes) && cells == old(cells) && SameButClicks(all0, allNodes)
        invariant forall k :: 0 <= k < i ==> allNodes[k].ignoreClicks == value
      {
        allNodes := allNodes[i := allNodes[i].(ignoreClicks := value)];
      }
      ClicksKeepBuilt(nodes, all0, allNodes, cells);
    }

    /** `node.ignoreClicks = value` on one node of the map. */
    method SetNodeIgnoreClicks(id: NodeId, value: bool)
      requires id < |allNodes|
      modifies this`allNodes
      ensures allNodes == old(allNodes)[id := old(allNodes)[id].(ignoreClicks := value)]
      ensures SameButClicks(old(allNodes), allNodes)
    {
      allNodes := allNodes[id := allNodes[id].(ignoreClicks := value)];
    }

    /** Lines 80-83: every node of the grid, row by row, gets `astarNode = null`; the
        obstacle cells are holes, which `forEach` skips. */
    method ResetLinks()
      requires Built()
      modifies this`allNodes
      ensures nodes == old(nodes) && cells == old(cells) && SameButLinks(old(allNodes), allNodes)
      ensures Unlinked(allNodes)
    {
      ghost var all0 := allNodes;
      var y := 0;
      while y < |nodes|
        invariant 0 <= y <= Height && nodes == old(nodes) && cells == old(cells)
        invariant IndexedBy(nodes, cells) && |cells| == |allNodes| && SameButLinks(all0, allNodes)
        invariant forall i :: 0 <= i < |allNodes| && cells[i].1 < y ==> allNodes[i].astarNode.None?
      {
        ResetRow(y, all0);
        y := y + 1;
      }
    }

    /** Line 82 over the row `y`: the nodes of the row, left to right. */
    method ResetRow(y: nat, ghost all0: seq<Node>)
      requires y < Height && IndexedBy(nodes, cells) && |cells| == |allNodes| && SameButLinks(all0, allNodes)
      requires forall i :: 0 <= i < |allNodes| && cells[i].1 < y ==> allNodes[i].astarNode.None?
      modifies this`allNodes
      ensures nodes == old(nodes) && cells == old(cells)
      ensures |cells| == |allNodes| && SameButLinks(all0, allNodes)
      ensures forall i :: 0 <= i < |allNodes| && cells[i].1 < y + 1 ==> allNodes[i].astarNode.None?
    {
      var x := 0;
      while x < |nodes[y]|
        invariant 0 <= x <= Width && nodes == old(nodes) && cells == old(cells)
        invariant |cells| == |allNodes| && SameButLinks(all0, allNodes)
        invariant forall i :: 0 <= i < |allNodes| && Before(cells[i].0, cells[i].1, x, y) ==>
          allNodes[i].astarNode.None?
      {
        if nodes[y][x].Some? {
          var id := nodes[y][x].value;
          assert id < |cells| && cells[id] == (x, y);
          allNodes := allNodes[id := allNodes[id].(astarNode := None)];
        }
        x := x + 1;
      }
    }

    /** Lines 88-97: scans the whole obstacle list, setting a flag on a match. */
    method CheckIfObstacle(x: int, y: int) returns (isObstacle: bool)
      ensures isObstacle <==> IsObstacle(x, y)
    {
      isObstacle := false;
      for i := 0 to |Obstacles|
        invariant isObstacle <==> Vector2(x as real, y as real) in Obstacles[..i]
      {
        if Obstacles[i].x == x as real && Obstacles[i].y == y as real {
          isObstacle := true;
        }
      }
    }
  }
}
