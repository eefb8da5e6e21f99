/** The bounded A* search (`Astar`). Nodes are indices into the graph's neighbour lists;
    the `AstarNode` objects a search creates live in an arena and point to each other by
    index. The heuristic (the straight-line distance to the target) is an input: one
    number per node. */
module AstarSearch {
  import opened Wrappers
  import opened Nodes
  import opened AstarNodes
  import Utils

  /** The step budget of `FindPath`. */
  const MaxSteps: nat := 500

  // ---------------------------------------------------------------------------
  // Specification over the arena
  // ---------------------------------------------------------------------------

  /** Node `v` lists `u` among its neighbours. */
  ghost predicate IsNeighbour(graph: seq<seq<Edge>>, v: NodeId, u: NodeId)
  {
    v < |graph| && exists k :: 0 <= k < |graph[v]| && graph[v][k].to == u
  }

  /** Every neighbour is a node of the graph and every edge weight is non-negative. */
  ghost predicate WellFormedGraph(graph: seq<seq<Edge>>)
  {
    forall v, k :: 0 <= v < |graph| && 0 <= k < |graph[v]| ==>
      graph[v][k].to < |graph| && graph[v][k].weight >= 0.0
  }

  /** Predecessor links are acyclic: `rank` decreases strictly along every link. */
  ghost predicate WellRanked(annots: seq<AstarNode>, rank: seq<nat>)
  {
    |rank| == |annots| &&
    forall a :: 0 <= a < |annots| && annots[a].pred.Some? ==>
      annots[a].pred.value < |annots| && rank[annots[a].pred.value] < rank[a]
  }

  ghost predicate CostsNonNegative(annots: seq<AstarNode>)
  {
    forall a :: 0 <= a < |annots| ==> annots[a].cost >= 0.0
  }

  /** What `GetDistanceToStart` computes: the stored costs summed along the predecessor
      chain, up to (and not including) the annotation whose predecessor is null. */
  ghost function Dist(annots: seq<AstarNode>, rank: seq<nat>, a: AnnotId): real
    requires WellRanked(annots, rank) && a < |annots|
    decreases rank[a]
  {
    if annots[a].pred.None? then 0.0
    else annots[a].cost + Dist(annots, rank, annots[a].pred.value)
  }

  /** What `TraceBack` computes: the nodes of the predecessor chain, starting annotation first. */
  ghost function Trace(annots: seq<AstarNode>, rank: seq<nat>, a: AnnotId): seq<NodeId>
    requires WellRanked(annots, rank) && a < |annots|
    decreases rank[a]
  {
    [annots[a].node] +
    if annots[a].pred.None? then [] else Trace(annots, rank, annots[a].pred.value)
  }

  /** What `GetNodeWeight` computes: distance to the start plus the heuristic. */
  ghost function Weight(annots: seq<AstarNode>, rank: seq<nat>, heuristic: seq<real>, a: AnnotId): real
    requires WellRanked(annots, rank) && a < |annots| && annots[a].node < |heuristic|
  {
    Dist(annots, rank, a) + heuristic[annots[a].node]
  }

  /** Every annotation of `s` is in the arena and has a heuristic value. */
  ghost predicate Weighable(annots: seq<AstarNode>, heuristic: seq<real>, s: seq<AnnotId>)
  {
    forall i :: 0 <= i < |s| ==> s[i] < |annots| && annots[s[i]].node < |heuristic|
  }

  ghost function Weights(annots: seq<AstarNode>, rank: seq<nat>, heuristic: seq<real>, s: seq<AnnotId>): (ws: seq<real>)
    requires WellRanked(annots, rank) && Weighable(annots, heuristic, s)
    ensures |ws| == |s|
    ensures forall i :: 0 <= i < |s| ==> ws[i] == Weight(annots, rank, heuristic, s[i])
  {
    seq(|s|, i requires 0 <= i < |s| => Weight(annots, rank, heuristic, s[i]))
  }

  /** `k` is the earliest position holding the least value of `ws`. */
  ghost predicate IsFirstMinimum(ws: seq<real>, k: int)
  {
    0 <= k < |ws| &&
    (forall j :: 0 <= j < |ws| ==> ws[k] <= ws[j]) &&
    (forall j :: 0 <= j < k ==> ws[k] < ws[j])
  }

  /** Some annotation of `s` wraps node `v` (what `IsNodeInArray` tests). */
  ghost predicate HasNode(annots: seq<AstarNode>, s: seq<AnnotId>, v: NodeId)
  {
    exists x :: x in s && x < |annots| && annots[x].node == v
  }

  /** Every entry of `s` is an annotation of the arena. */
  ghost predicate InArena(annots: seq<AstarNode>, s: seq<AnnotId>)
  {
    forall i :: 0 <= i < |s| ==> s[i] < |annots|
  }

  /** The open and closed arrays hold arena annotations, no annotation twice, and no two
      annotations of the same node. */
  ghost predicate FrontierDistinct(annots: seq<AstarNode>, openSet: seq<AnnotId>, closedSet: seq<AnnotId>)
  {
    InArena(annots, openSet) && InArena(annots, closedSet) &&
    (forall x :: (multiset(openSet) + multiset(closedSet))[x] <= 1) &&
    (forall x, y ::
       x in openSet + closedSet && y in openSet + closedSet && x < |annots| && y < |annots| &&
       annots[x].node == annots[y].node
       ==> x == y)
  }

  /** The arena of a search from `start`: acyclic links, the start annotation first (null
      predecessor, cost 0, visited), every other annotation with a predecessor and never
      visited, nodes in the graph, non-negative stored costs, and every link along an edge. */
  ghost predicate ArenaOk(graph: seq<seq<Edge>>, start: NodeId, annots: seq<AstarNode>, rank: seq<nat>)
  {
    WellRanked(annots, rank) && ArenaShape(graph, start, annots)
  }

  /** The part of `ArenaOk` that does not depend on the ranks. */
  ghost predicate ArenaShape(graph: seq<seq<Edge>>, start: NodeId, annots: seq<AstarNode>)
  {
    && |annots| > 0
    && annots[0] == AstarNode(start, None, 0.0, true)
    && (forall a :: 0 < a < |annots| ==> annots[a].pred.Some? && !annots[a].wasVisited)
    && (forall a :: 0 <= a < |annots| ==> annots[a].node < |graph|)
    && CostsNonNegative(annots)
    && (forall a :: 0 <= a < |annots| && annots[a].pred.Some? ==>
          annots[a].pred.value < |annots| &&
          IsNeighbour(graph, annots[annots[a].pred.value].node, annots[a].node))
  }

  /** The nodes' `astarNode` fields: a link points to an annotation of that node, and a node
      other than the start has at most one annotation, the one it links to. */
  ghost predicate LinksOk(annots: seq<AstarNode>, links: seq<Option<AnnotId>>, start: NodeId)
  {
    (forall v :: 0 <= v < |links| && links[v].Some? ==>
       links[v].value < |annots| && annots[links[v].value].node == v) &&
    (forall a :: 0 <= a < |annots| && annots[a].node != start ==>
       annots[a].node < |links| && links[annots[a].node] == Some(a))
  }

  /** `annots'` extends `annots` without changing the node of any existing annotation. */
  ghost predicate NodesKept(annots: seq<AstarNode>, annots': seq<AstarNode>)
  {
    |annots'| >= |annots| && forall a :: 0 <= a < |annots| ==> annots'[a].node == annots[a].node
  }

  /** `path` is a walk that ends at `start`, each node reached from the next one by an edge. */
  ghost predicate WalkBackTo(graph: seq<seq<Edge>>, path: seq<NodeId>, start: NodeId)
  {
    |path| >= 1 && path[|path| - 1] == start &&
    forall i :: 0 <= i < |path| - 1 ==> IsNeighbour(graph, path[i + 1], path[i])
  }

  /** The relaxation of line 66: annotation `n` now points to `cur`, and the stored cost is
      `cur`'s own stored cost plus the edge weight. */
  function Relaxed(annots: seq<AstarNode>, n: AnnotId, cur: AnnotId, w: real): (r: seq<AstarNode>)
    requires n < |annots| && cur < |annots|
    ensures |r| == |annots| && r[n].node == annots[n].node && r[n].wasVisited == annots[n].wasVisited
    ensures r[n].pred == Some(cur) && r[n].cost == annots[cur].cost + w
    ensures forall a :: 0 <= a < |annots| && a != n ==> r[a] == annots[a]
  {
    annots[n := annots[n].(pred := Some(cur), cost := annots[cur].cost + w)]
  }

  /** The ranks after relaxing towards `cur`: every annotation farther from the start than
      `cur` moves above `cur`. */
  ghost function Reranked(annots: seq<AstarNode>, rank: seq<nat>, cur: AnnotId): (r: seq<nat>)
    requires WellRanked(annots, rank) && cur < |annots|
    ensures |r| == |rank|
    ensures forall i :: 0 <= i < |r| ==>
      r[i] == if Dist(annots, rank, i) <= Dist(annots, rank, cur) then rank[i] else rank[i] + rank[cur] + 1
  {
    seq(|rank|, i requires 0 <= i < |rank| =>
      if Dist(annots, rank, i) <= Dist(annots, rank, cur) then rank[i] else rank[i] + rank[cur] + 1)
  }

  // ---------------------------------------------------------------------------
  // Lemmas
  // ---------------------------------------------------------------------------

  /** With non-negative stored costs, the distance to the start is never negative. */
  lemma {:induction false} DistNonNegative(annots: seq<AstarNode>, rank: seq<nat>, a: AnnotId)
    requires WellRanked(annots, rank) && a < |annots| && CostsNonNegative(annots)
    ensures Dist(annots, rank, a) >= 0.0
    decreases rank[a]
  {
    if annots[a].pred.Some? {
      DistNonNegative(annots, rank, annots[a].pred.value);
    }
  }

  /** Relaxation keeps predecessor chains acyclic: it only fires when `cur` is strictly
      closer to the start than the relaxed annotation, so the latter is not on `cur`'s chain. */
  lemma RelaxKeepsChainsAcyclic(annots: seq<AstarNode>, rank: seq<nat>, cur: AnnotId, n: AnnotId, w: real)
    requires WellRanked(annots, rank) && CostsNonNegative(annots)
    requires cur < |annots| && n < |annots| && w >= 0.0
    requires Dist(annots, rank, cur) + w < Dist(annots, rank, n)
    ensures WellRanked(Relaxed(annots, n, cur, w), Reranked(annots, rank, cur))
  {
    var annots', rank' := Relaxed(annots, n, cur, w), Reranked(annots, rank, cur);
    forall a | 0 <= a < |annots'| && annots'[a].pred.Some?
      ensures annots'[a].pred.value < |annots'| && rank'[annots'[a].pred.value] < rank'[a]
    {
      if a != n {
        var p := annots[a].pred.value;
        assert Dist(annots, rank, a) == annots[a].cost + Dist(annots, rank, p);
      }
    }
  }

  /** Relaxation leaves the distance of every annotation no farther than `cur` as it was. */
  lemma {:induction false} RelaxKeepsCloserDistances(annots: seq<AstarNode>, rank: seq<nat>, cur: AnnotId, n: AnnotId, w: real, x: AnnotId)
    requires WellRanked(annots, rank) && CostsNonNegative(annots)
    requires cur < |annots| && n < |annots| && w >= 0.0
    requires Dist(annots, rank, cur) + w < Dist(annots, rank, n)
    requires x < |annots| && Dist(annots, rank, x) <= Dist(annots, rank, cur)
    ensures WellRanked(Relaxed(annots, n, cur, w), Reranked(annots, rank, cur))
    ensures Dist(Relaxed(annots, n, cur, w), Reranked(annots, rank, cur), x) == Dist(annots, rank, x)
    decreases rank[x]
  {
    RelaxKeepsChainsAcyclic(annots, rank, cur, n, w);
    if annots[x].pred.Some? {
      var p := annots[x].pred.value;
      assert Dist(annots, rank, x) == annots[x].cost + Dist(annots, rank, p);
      RelaxKeepsCloserDistances(annots, rank, cur, n, w, p);
    }
  }

  /** After a relaxation the relaxed annotation's distance to the start is `cur`'s distance
      plus `cur`'s own stored cost plus the edge weight: the stored cost counts `cur`'s last
      step twice, so it exceeds the tentative distance that justified the relaxation
      whenever `cur` is not the start annotation's own cost 0. */
  lemma RelaxedDistance(annots: seq<AstarNode>, rank: seq<nat>, cur: AnnotId, n: AnnotId, w: real)
    requires WellRanked(annots, rank) && CostsNonNegative(annots)
    requires cur < |annots| && n < |annots| && w >= 0.0
    requires Dist(annots, rank, cur) + w < Dist(annots, rank, n)
    ensures WellRanked(Relaxed(annots, n, cur, w), Reranked(annots, rank, cur))
    ensures Dist(Relaxed(annots, n, cur, w), Reranked(annots, rank, cur), n)
         == Dist(annots, rank, cur) + annots[cur].cost + w
  {
    RelaxKeepsCloserDistances(annots, rank, cur, n, w, cur);
  }

  /** The trace of any annotation is a walk through the graph that starts at that
      annotation's node and ends at the start node. */
  lemma {:induction false} TraceIsWalk(graph: seq<seq<Edge>>, annots: seq<AstarNode>, rank: seq<nat>, start: NodeId, a: AnnotId)
    requires WellRanked(annots, rank) && a < |annots|
    requires forall b :: 0 <= b < |annots| && annots[b].pred.None? ==> annots[b].node == start
    requires forall b :: 0 <= b < |annots| && annots[b].pred.Some? ==>
      IsNeighbour(graph, annots[annots[b].pred.value].node, annots[b].node)
    ensures Trace(annots, rank, a)[0] == annots[a].node
    ensures WalkBackTo(graph, Trace(annots, rank, a), start)
    decreases rank[a]
  {
    var path := Trace(annots, rank, a);
    if annots[a].pred.Some? {
      var p := annots[a].pred.value;
      TraceIsWalk(graph, annots, rank, start, p);
      var rest := Trace(annots, rank, p);
      assert path == [annots[a].node] + rest;
      forall i | 0 <= i < |path| - 1
        ensures IsNeighbour(graph, path[i + 1], path[i])
      {
        if i > 0 {
          assert path[i] == rest[i - 1] && path[i + 1] == rest[i];
        }
      }
    }
  }

  /** No node appears twice across the open and closed arrays. */
  lemma NoNodeTwice(annots: seq<AstarNode>, openSet: seq<AnnotId>, closedSet: seq<AnnotId>)
    requires FrontierDistinct(annots, openSet, closedSet)
    ensures forall i, j :: 0 <= i < j < |openSet + closedSet| ==>
      (openSet + closedSet)[i] < |annots| && (openSet + closedSet)[j] < |annots| &&
      annots[(openSet + closedSet)[i]].node != annots[(openSet + closedSet)[j]].node
  {
    var f := openSet + closedSet;
    assert multiset(f) == multiset(openSet) + multiset(closedSet);
    forall i, j | 0 <= i < j < |f|
      ensures f[i] < |annots| && f[j] < |annots| && annots[f[i]].node != annots[f[j]].node
    {
      assert f[i] in f && f[j] in f;
      RepeatCountsTwice(f, i, j);
    }
  }

  /** An element at two positions of a sequence occurs at least twice in its multiset. */
  lemma RepeatCountsTwice<T>(f: seq<T>, i: nat, j: nat)
    requires i < j < |f|
    ensures f[i] == f[j] ==> multiset(f)[f[j]] >= 2
  {
    assert f == f[..j] + [f[j]] + f[j + 1..];
    assert f[i] in f[..j];
  }

  /** Growing the arena, without changing any existing annotation's node, keeps the frontier
      distinct. */
  lemma FrontierKeptByGrowth(annots: seq<AstarNode>, annots': seq<AstarNode>, openSet: seq<AnnotId>, closedSet: seq<AnnotId>)
    requires FrontierDistinct(annots, openSet, closedSet) && NodesKept(annots, annots')
    ensures FrontierDistinct(annots', openSet, closedSet)
  {
    forall x, y | x in openSet + closedSet && y in openSet + closedSet &&
        x < |annots'| && y < |annots'| && annots'[x].node == annots'[y].node
      ensures x == y
    {
      assert x < |annots| && y < |annots|;
    }
  }

  /** Pushing an annotation whose node is in neither array keeps the frontier distinct. */
  lemma PushKeepsFrontier(annots: seq<AstarNode>, openSet: seq<AnnotId>, closedSet: seq<AnnotId>, x: AnnotId)
    requires FrontierDistinct(annots, openSet, closedSet) && x < |annots|
    requires !HasNode(annots, openSet, annots[x].node) && !HasNode(annots, closedSet, annots[x].node)
    ensures FrontierDistinct(annots, openSet + [x], closedSet)
  {
    assert x !in openSet && x !in closedSet;
    var o': seq<AnnotId> := openSet + [x];
    assert multiset(o') == multiset(openSet) + multiset{x};
    forall i | 0 <= i < |o'|
      ensures o'[i] < |annots|
    {
      if i < |openSet| {
        assert o'[i] == openSet[i];
      }
    }
    forall y
      ensures (multiset(o') + multiset(closedSet))[y] <= 1
    {
      if y == x {
        assert multiset(openSet)[x] == 0 && multiset(closedSet)[x] == 0;
      } else {
        assert (multiset(openSet) + multiset(closedSet))[y] <= 1;
      }
    }
    forall y, z | y in o' + closedSet && z in o' + closedSet &&
        y < |annots| && z < |annots| && annots[y].node == annots[z].node
      ensures y == z
    {
      assert y != x ==> y in openSet || y in closedSet;
      assert z != x ==> z in openSet || z in closedSet;
    }
  }

  /** Moving an open annotation to the end of closed keeps the frontier and its members. */
  lemma MoveKeepsFrontier(annots: seq<AstarNode>, openSet: seq<AnnotId>, closedSet: seq<AnnotId>, x: AnnotId)
    requires FrontierDistinct(annots, openSet, closedSet) && x in openSet
    ensures FrontierDistinct(annots, Utils.RemoveFromArray(openSet, x), closedSet + [x])
    ensures multiset(Utils.RemoveFromArray(openSet, x)) + multiset(closedSet + [x])
         == multiset(openSet) + multiset(closedSet)
    ensures forall y :: y in Utils.RemoveFromArray(openSet, x) + (closedSet + [x]) <==> y in openSet + closedSet
  {
    var o': seq<AnnotId>, c': seq<AnnotId> := Utils.RemoveFromArray(openSet, x), closedSet + [x];
    assert multiset(o') == multiset(openSet) - multiset{x};
    assert multiset(c') == multiset(closedSet) + multiset{x};
    assert multiset(o') + multiset(c') == multiset(openSet) + multiset(closedSet);
    forall y
      ensures y in o' + c' <==> y in openSet + closedSet
    {
      calc {
        y in o' + c';
        multiset(o' + c')[y] > 0;
        { assert multiset(o' + c') == multiset(o') + multiset(c'); }
        (multiset(openSet) + multiset(closedSet))[y] > 0;
        { assert multiset(openSet + closedSet) == multiset(openSet) + multiset(closedSet); }
        multiset(openSet + closedSet)[y] > 0;
        y in openSet + closedSet;
      }
    }
    forall i | 0 <= i < |o'|
      ensures o'[i] < |annots|
    {
      assert o'[i] in o' + c';
    }
  }

  /** A relaxation along an edge keeps the arena well formed. */
  lemma RelaxKeepsArena(graph: seq<seq<Edge>>, start: NodeId, annots: seq<AstarNode>, rank: seq<nat>, cur: AnnotId, n: AnnotId, w: real)
    requires ArenaOk(graph, start, annots, rank)
    requires cur < |annots| && 0 < n < |annots| && w >= 0.0
    requires Dist(annots, rank, cur) + w < Dist(annots, rank, n)
    requires IsNeighbour(graph, annots[cur].node, annots[n].node)
    ensures exists rank' :: ArenaOk(graph, start, Relaxed(annots, n, cur, w), rank')
    ensures NodesKept(annots, Relaxed(annots, n, cur, w))
  {
    RelaxKeepsChainsAcyclic(annots, rank, cur, n, w);
    RelaxKeepsShape(graph, start, annots, cur, n, w);
    assert ArenaOk(graph, start, Relaxed(annots, n, cur, w), Reranked(annots, rank, cur));
  }

  lemma RelaxKeepsShape(graph: seq<seq<Edge>>, start: NodeId, annots: seq<AstarNode>, cur: AnnotId, n: AnnotId, w: real)
    requires ArenaShape(graph, start, annots)
    requires cur < |annots| && 0 < n < |annots| && w >= 0.0
    requires IsNeighbour(graph, annots[cur].node, annots[n].node)
    ensures ArenaShape(graph, start, Relaxed(annots, n, cur, w))
  {
    var annots' := Relaxed(annots, n, cur, w);
    forall a | 0 <= a < |annots'| && annots'[a].pred.Some?
      ensures IsNeighbour(graph, annots'[annots'[a].pred.value].node, annots'[a].node)
    {
      if a != n {
        assert annots'[a] == annots[a];
      }
    }
  }

  /** Recorded nodes stay recorded when the arena only grows. */
  lemma HasNodeKeptAll(annots: seq<AstarNode>, annots': seq<AstarNode>, s: seq<AnnotId>)
    requires NodesKept(annots, annots')
    ensures forall v :: HasNode(annots, s, v) ==> HasNode(annots', s, v)
  {
    forall v | HasNode(annots, s, v)
      ensures HasNode(annots', s, v)
    {
      HasNodeKept(annots, annots', s, s, v);
    }
  }

  /** A new annotation reached from `cur` along an edge keeps the arena well formed. */
  lemma AppendKeepsArena(graph: seq<seq<Edge>>, start: NodeId, annots: seq<AstarNode>, rank: seq<nat>, v: NodeId, cur: AnnotId, w: real)
    requires ArenaOk(graph, start, annots, rank)
    requires cur < |annots| && v < |graph| && w >= 0.0
    requires IsNeighbour(graph, annots[cur].node, v)
    ensures ArenaOk(graph, start, annots + [NewAstarNode(v, Some(cur), w)], rank + [rank[cur] + 1])
    ensures NodesKept(annots, annots + [NewAstarNode(v, Some(cur), w)])
  {
  }

  /** Linking a node with no annotation yet (or the start node) to a new annotation keeps
      the links consistent. */
  lemma AppendKeepsLinks(annots: seq<AstarNode>, links: seq<Option<AnnotId>>, start: NodeId, x: AstarNode)
    requires LinksOk(annots, links, start) && x.node < |links|
    requires links[x.node].None? || x.node == start
    ensures LinksOk(annots + [x], links[x.node := Some(|annots|)], start)
  {
  }

  /** Relinking an annotation keeps the node links consistent. */
  lemma RelaxKeepsLinks(annots: seq<AstarNode>, links: seq<Option<AnnotId>>, start: NodeId, n: AnnotId, cur: AnnotId, w: real)
    requires LinksOk(annots, links, start) && n < |annots| && cur < |annots|
    ensures LinksOk(Relaxed(annots, n, cur, w), links, start)
  {
  }

  /** A node recorded in `s` stays recorded in any `s'` holding the same annotations, under
      an arena that keeps the nodes of existing annotations. */
  lemma HasNodeKept(annots: seq<AstarNode>, annots': seq<AstarNode>, s: seq<AnnotId>, s': seq<AnnotId>, v: NodeId)
    requires HasNode(annots, s, v) && NodesKept(annots, annots')
    requires forall x :: x in s ==> x in s'
    ensures HasNode(annots', s', v)
  {
    var x :| x in s && x < |annots| && annots[x].node == v;
    assert x in s' && x < |annots'| && annots'[x].node == v;
  }

  /** Every edge of `edges` leads to a node recorded in open or closed. */
  ghost predicate Covered(annots: seq<AstarNode>, openSet: seq<AnnotId>, closedSet: seq<AnnotId>, edges: seq<Edge>)
  {
    forall j :: 0 <= j < |edges| ==> HasNode(annots, openSet + closedSet, edges[j].to)
  }

  /** One more visited edge keeps the visited prefix covered. */
  lemma CoveredStep(annots: seq<AstarNode>, openSet: seq<AnnotId>, annots': seq<AstarNode>, openSet': seq<AnnotId>,
                    closedSet: seq<AnnotId>, edges: seq<Edge>, k: nat)
    requires k < |edges| && Covered(annots, openSet, closedSet, edges[..k])
    requires forall v :: HasNode(annots, openSet + closedSet, v) ==> HasNode(annots', openSet' + closedSet, v)
    requires HasNode(annots', openSet' + closedSet, edges[k].to)
    ensures Covered(annots', openSet', closedSet, edges[..k + 1])
  {
    var done := edges[..k + 1];
    forall j | 0 <= j < |done|
      ensures HasNode(annots', openSet' + closedSet, done[j].to)
    {
      if j < k {
        assert done[j] == edges[..k][j];
        assert HasNode(annots, openSet + closedSet, edges[..k][j].to);
      }
    }
  }

  /** Coverage depends only on which annotations open and closed hold. */
  lemma CoveredKept(annots: seq<AstarNode>, openSet: seq<AnnotId>, closedSet: seq<AnnotId>,
                    openSet': seq<AnnotId>, closedSet': seq<AnnotId>, edges: seq<Edge>)
    requires Covered(annots, openSet, closedSet, edges)
    requires forall y :: y in openSet + closedSet ==> y in openSet' + closedSet'
    ensures Covered(annots, openSet', closedSet', edges)
  {
    forall j | 0 <= j < |edges|
      ensures HasNode(annots, openSet' + closedSet', edges[j].to)
    {
      HasNodeKept(annots, annots, openSet + closedSet, openSet' + closedSet', edges[j].to);
    }
  }

  /** Every annotation in the arena of a search can be weighed. */
  lemma ArenaWeighable(graph: seq<seq<Edge>>, start: NodeId, heuristic: seq<real>, annots: seq<AstarNode>, rank: seq<nat>, s: seq<AnnotId>)
    requires ArenaOk(graph, start, annots, rank) && |heuristic| == |graph| && InArena(annots, s)
    ensures Weighable(annots, heuristic, s)
  {
  }

  /** None of the first `n` closed annotations wraps `target`. */
  ghost predicate NoTargetBefore(annots: seq<AstarNode>, closedSet: seq<AnnotId>, n: nat, target: NodeId)
  {
    n <= |closedSet| &&
    forall j :: 0 <= j < n ==> closedSet[j] < |annots| && annots[closedSet[j]].node != target
  }

  /** A step whose current annotation was not the target extends the target-free prefix. */
  lemma NoTargetStep(annots: seq<AstarNode>, annots': seq<AstarNode>, closedSet: seq<AnnotId>, x: AnnotId, i: nat, target: NodeId)
    requires NoTargetBefore(annots, closedSet, i, target) && NodesKept(annots, annots')
    requires i < |closedSet| == i + 1 && closedSet[i] < |annots| && annots[closedSet[i]].node != target
    ensures NoTargetBefore(annots', closedSet + [x], i + 1, target)
  {
    var c := closedSet + [x];
    forall j | 0 <= j < i + 1
      ensures c[j] < |annots'| && annots'[c[j]].node != target
    {
      assert c[j] == closedSet[j];
    }
  }

  lemma PrefixTransitive<T>(a: seq<T>, b: seq<T>, c: seq<T>)
    requires a <= b && b <= c
    ensures a <= c
  {
  }

  lemma NodesKeptTransitive(annots: seq<AstarNode>, annots': seq<AstarNode>, annots'': seq<AstarNode>)
    requires NodesKept(annots, annots') && NodesKept(annots', annots'')
    ensures NodesKept(annots, annots'')
  {
  }

  // ---------------------------------------------------------------------------
  // The search
  // ---------------------------------------------------------------------------

  class Astar {
    const startNode: NodeId
    const targetNode: NodeId
    /** `graph[v]` is node `v`'s `neighbours` list, fixed during the search. */
    const graph: seq<seq<Edge>>
    /** `heuristic[v]` is `GetHeuristicDistanceToTarget` of node `v`. */
    const heuristic: seq<real>
    /** The `astarNode` field of every node. */
    var astarNode: seq<Option<AnnotId>>
    /** Every `AstarNode` object this search created, in creation order. */
    var annots: seq<AstarNode>
    /** FindPath's open and closed arrays, shared with `GetNextNode`. */
    var openSet: seq<AnnotId>
    var closedSet: seq<AnnotId>
    /** Proof-only ranks witnessing that predecessor chains are acyclic. */
    ghost var rank: seq<nat>

    /** `new Astar(startNode, targetNode)` over the given graph and the nodes' current links. */
    constructor(graph: seq<seq<Edge>>, links: seq<Option<AnnotId>>, heuristic: seq<real>, startNode: NodeId, targetNode: NodeId)
      ensures this.graph == graph && this.heuristic == heuristic && astarNode == links
      ensures this.startNode == startNode && this.targetNode == targetNode
      ensures annots == [] && rank == [] && openSet == [] && closedSet == []
    {
      this.graph := graph;
      this.heuristic := heuristic;
      this.startNode := startNode;
      this.targetNode := targetNode;
      astarNode := links;
      annots := [];
      rank := [];
      openSet := [];
      closedSet := [];
    }

    /** The inputs the search depends on: a well-formed graph, both end nodes in it, one
        heuristic value and one `astarNode` field per node. */
    ghost predicate GraphOk()
      reads this
    {
      startNode < |graph| && targetNode < |graph| && WellFormedGraph(graph) &&
      |heuristic| == |graph| && |astarNode| == |graph|
    }

    /** The search invariant. */
    ghost predicate Valid()
      reads this
    {
      && GraphOk()
      && ArenaOk(graph, startNode, annots, rank)
      && LinksOk(annots, astarNode, startNode)
      && FrontierDistinct(annots, openSet, closedSet)
      && |closedSet| > 0 && closedSet[0] == 0
    }

    /** `new AstarNode(node, [pred, cost])`: a fresh annotation, which the constructor also
        stores into `node.astarNode`, replacing whatever was there. */
    method AttachAstarNode(node: NodeId, pred: Option<AnnotId>, cost: real) returns (a: AnnotId)
      requires node < |astarNode| && WellRanked(annots, rank)
      requires pred.Some? ==> pred.value < |annots|
      modifies this
      ensures a == old(|annots|)
      ensures annots == old(annots) + [NewAstarNode(node, pred, cost)]
      ensures astarNode == old(astarNode)[node := Some(a)]
      ensures rank == old(rank) + [if pred.Some? then old(rank)[pred.value] + 1 else 0]
      ensures openSet == old(openSet) && closedSet == old(closedSet)
    {
      a := |annots|;
      annots := annots + [NewAstarNode(node, pred, cost)];
      rank := rank + [if pred.Some? then rank[pred.value] + 1 else 0];
      astarNode := astarNode[node := Some(a)];
    }

    /** Line 66: relink annotation `n` to `current`, storing `current`'s cost plus the
        edge weight. The ranks are re-chosen to witness that the links stay acyclic. */
    method Relax(current: AnnotId, n: AnnotId, w: real)
      requires Valid() && current < |annots| && 0 < n < |annots| && w >= 0.0
      requires Dist(annots, rank, current) + w < Dist(annots, rank, n)
      requires IsNeighbour(graph, annots[current].node, annots[n].node)
      modifies this
      ensures annots == Relaxed(old(annots), n, current, w)
      ensures astarNode == old(astarNode) && openSet == old(openSet) && closedSet == old(closedSet)
      ensures Valid()
    {
      RelaxKeepsArena(graph, startNode, annots, rank, current, n, w);
      RelaxKeepsLinks(annots, astarNode, startNode, n, current, w);
      FrontierKeptByGrowth(annots, Relaxed(annots, n, current, w), openSet, closedSet);
      annots := Relaxed(annots, n, current, w);
      ghost var rank' :| ArenaOk(graph, startNode, annots, rank');
      rank := rank';
    }

    /** Lines 62-68: relink annotation `n` to `current` when the distance through `current`
        plus the edge weight is shorter than `n`'s distance. */
    method RelaxIfShorter(current: AnnotId, n: AnnotId, w: real)
      requires Valid() && current < |annots| && 0 < n < |annots| && w >= 0.0
      requires IsNeighbour(graph, annots[current].node, annots[n].node)
      modifies this
      ensures annots == if Dist(old(annots), old(rank), current) + w < Dist(old(annots), old(rank), n)
                        then Relaxed(old(annots), n, current, w)
                        else old(annots)
      ensures NodesKept(old(annots), annots)
      ensures astarNode == old(astarNode) && openSet == old(openSet) && closedSet == old(closedSet)
      ensures Valid()
    {
      var dCurrent := GetDistanceToStart(current);
      var dNeighbour := GetDistanceToStart(annots[n].pred.value);
      assert Dist(annots, rank, n) == annots[n].cost + Dist(annots, rank, annots[n].pred.value);
      if dCurrent + w < dNeighbour + annots[n].cost {
        Relax(current, n, w);
      }
    }

    /** Lines 69-72: a fresh annotation for a node that has none (or for the start node),
        reached from `current`. */
    method Discover(current: AnnotId, neighbour: NodeId, w: real)
      requires Valid() && current < |annots| && neighbour < |graph| && w >= 0.0
      requires astarNode[neighbour].None? || neighbour == startNode
      requires IsNeighbour(graph, annots[current].node, neighbour)
      modifies this
      ensures annots == old(annots) + [NewAstarNode(neighbour, Some(current), w)]
      ensures astarNode == old(astarNode)[neighbour := Some(old(|annots|))]
      ensures openSet == old(openSet) && closedSet == old(closedSet)
      ensures Valid()
    {
      AppendKeepsArena(graph, startNode, annots, rank, neighbour, current, w);
      AppendKeepsLinks(annots, astarNode, startNode, NewAstarNode(neighbour, Some(current), w));
      FrontierKeptByGrowth(annots, annots + [NewAstarNode(neighbour, Some(current), w)], openSet, closedSet);
      var _ := AttachAstarNode(neighbour, Some(current), w);
    }

    /** Lines 74-77: push `x` onto open unless its node is already in open or closed. */
    method PushIfNew(x: AnnotId)
      requires Valid() && x < |annots|
      modifies this
      ensures annots == old(annots) && astarNode == old(astarNode) && rank == old(rank)
      ensures closedSet == old(closedSet)
      ensures openSet == old(openSet) +
        (if HasNode(annots, old(openSet), annots[x].node) || HasNode(annots, closedSet, annots[x].node) then []
         else [x])
      ensures Valid()
      ensures HasNode(annots, openSet + closedSet, annots[x].node)
      ensures forall v :: HasNode(annots, old(openSet) + closedSet, v) ==> HasNode(annots, openSet + closedSet, v)
    {
      var inOpen := IsNodeInArray(openSet, annots[x].node);
      var inClosed := IsNodeInArray(closedSet, annots[x].node);
      ghost var before := openSet + closedSet;
      if !inOpen && !inClosed {
        PushKeepsFrontier(annots, openSet, closedSet, x);
        openSet := openSet + [x];
        assert x in openSet + closedSet;
      } else if inOpen {
        HasNodeKept(annots, annots, old(openSet), openSet + closedSet, annots[x].node);
      } else {
        HasNodeKept(annots, annots, closedSet, openSet + closedSet, annots[x].node);
      }
      forall v | HasNode(annots, before, v)
        ensures HasNode(annots, openSet + closedSet, v)
      {
        HasNodeKept(annots, annots, before, openSet + closedSet, v);
      }
    }

    /** `GetDistanceToStart`: follows predecessor links, summing stored costs. */
    method GetDistanceToStart(a: AnnotId) returns (distance: real)
      requires WellRanked(annots, rank) && a < |annots|
      ensures distance == Dist(annots, rank, a)
      ensures CostsNonNegative(annots) ==> distance >= 0.0
    {
      distance := 0.0;
      var current: AnnotId := a;
      while annots[current].pred.Some?
        invariant current < |annots|
        invariant distance + Dist(annots, rank, current) == Dist(annots, rank, a)
        decreases rank[current]
      {
        distance := distance + annots[current].cost;
        current := annots[current].pred.value;
      }
      if CostsNonNegative(annots) {
        DistNonNegative(annots, rank, a);
      }
    }

    /** `GetNodeWeight`: distance to the start plus the heuristic. */
    method GetNodeWeight(a: AnnotId) returns (weight: real)
      requires WellRanked(annots, rank) && a < |annots| && annots[a].node < |heuristic|
      ensures weight == Weight(annots, rank, heuristic, a)
    {
      var d := GetDistanceToStart(a);
      weight := d + heuristic[annots[a].node];
    }

    /** `GetBestNode`: the first annotation of least weight. An empty array has no
        `nodes[0]`, and weighing `undefined` fails. */
    method GetBestNode(nodes: seq<AnnotId>) returns (r: Result<AnnotId>, ghost k: nat)
      requires WellRanked(annots, rank) && Weighable(annots, heuristic, nodes)
      ensures r.Err? <==> nodes == []
      ensures r.Ok? ==> IsFirstMinimum(Weights(annots, rank, heuristic, nodes), k) && r.value == nodes[k]
    {
      if |nodes| == 0 {
        return Err(TypeError("Cannot read properties of undefined (reading 'pathNode')")), 0;
      }
      ghost var ws := Weights(annots, rank, heuristic, nodes);
      var bestNode := nodes[0];
      k := 0;
      var minWeight := GetNodeWeight(bestNode);
      var i := 1;
      while i < |nodes|
        invariant 1 <= i <= |nodes| && k < i
        invariant bestNode == nodes[k] && minWeight == ws[k]
        invariant forall j :: 0 <= j < i ==> ws[k] <= ws[j]
        invariant forall j :: 0 <= j < k ==> ws[k] < ws[j]
      {
        var node := nodes[i];
        var weight := GetNodeWeight(node);
        if weight < minWeight {
          minWeight := weight;
          bestNode := node;
          k := i;
        }
        i := i + 1;
      }
      r := Ok(bestNode);
    }

    /** `IsNodeInArray`: whether some annotation of the array wraps `node`. */
    method IsNodeInArray(items: seq<AnnotId>, node: NodeId) returns (found: bool)
      requires InArena(annots, items)
      ensures found <==> HasNode(annots, items, node)
    {
      found := false;
      var i := 0;
      while i < |items|
        invariant 0 <= i <= |items|
        invariant found <==> exists j :: 0 <= j < i && annots[items[j]].node == node
      {
        if annots[items[i]].node == node {
          found := true;
        }
        i := i + 1;
      }
      if found {
        var j :| 0 <= j < i && annots[items[j]].node == node;
        assert items[j] in items;
      }
    }

    /** `TraceBack`: the nodes of the predecessor chain, the given annotation's node first. */
    method TraceBack(a: AnnotId) returns (path: seq<NodeId>)
      requires WellRanked(annots, rank) && a < |annots|
      ensures path == Trace(annots, rank, a)
      ensures |path| >= 1 && path[0] == annots[a].node
    {
      path := [];
      var current: Option<AnnotId> := Some(a);
      while current.Some?
        invariant current.Some? ==> current.value < |annots|
        invariant path + (if current.Some? then Trace(annots, rank, current.value) else []) == Trace(annots, rank, a)
        decreases if current.Some? then rank[current.value] + 1 else 0
      {
        path := path + [annots[current.value].node];
        current := annots[current.value].pred;
      }
    }

    /** Lines 62-72: relax the annotation of `e.to`, or create one, and return it. */
    method UpdateNeighbour(current: AnnotId, e: Edge, ghost k: nat) returns (x: AnnotId)
      requires Valid() && current < |annots|
      requires k < |graph[annots[current].node]| && graph[annots[current].node][k] == e
      modifies this
      ensures Valid() && NodesKept(old(annots), annots)
      ensures openSet == old(openSet) && closedSet == old(closedSet)
      // an annotated neighbour other than the start: relaxed in place, or left alone
      ensures old(astarNode[e.to]).Some? && e.to != startNode ==>
        astarNode == old(astarNode) &&
        annots == if Dist(old(annots), old(rank), current) + e.weight < Dist(old(annots), old(rank), old(astarNode[e.to].value))
                  then Relaxed(old(annots), old(astarNode[e.to].value), current, e.weight)
                  else old(annots)
      // otherwise: a fresh annotation [current, weight]
      ensures old(astarNode[e.to]).None? || e.to == startNode ==>
        annots == old(annots) + [NewAstarNode(e.to, Some(current), e.weight)] &&
        astarNode == old(astarNode)[e.to := Some(old(|annots|))]
      ensures astarNode[e.to] == Some(x) && x < |annots| && annots[x].node == e.to
      ensures forall v :: HasNode(old(annots), openSet + closedSet, v) ==> HasNode(annots, openSet + closedSet, v)
    {
      ghost var annots0 := annots;
      var neighbour := e.to;
      assert IsNeighbour(graph, annots[current].node, neighbour) by {
        assert graph[annots[current].node][k].to == neighbour;
      }
      if astarNode[neighbour].Some? && neighbour != startNode {
        var n := astarNode[neighbour].value;
        assert 0 < n < |annots| && annots[n].node == neighbour;
        RelaxIfShorter(current, n, e.weight);
        x := n;
      } else {
        Discover(current, neighbour, e.weight);
        x := astarNode[neighbour].value;
      }
      HasNodeKeptAll(annots0, annots, openSet + closedSet);
    }

    /** The body of `GetNextNode`'s `forEach` for one neighbour `e` of the current node:
        relax or create the neighbour's annotation, then add it to open if its node is in
        neither open nor closed. */
    method VisitNeighbour(current: AnnotId, e: Edge, ghost k: nat)
      requires Valid() && current < |annots|
      requires k < |graph[annots[current].node]| && graph[annots[current].node][k] == e
      modifies this
      ensures Valid() && NodesKept(old(annots), annots)
      ensures closedSet == old(closedSet)
      ensures astarNode[e.to].Some?
      ensures old(openSet) <= openSet
      ensures HasNode(annots, openSet + closedSet, e.to)
      ensures forall v :: HasNode(old(annots), old(openSet) + closedSet, v) ==> HasNode(annots, openSet + closedSet, v)
    {
      var x := UpdateNeighbour(current, e, k);
      PushIfNew(x);
    }

    /** Lines 60-78 of `GetNextNode`: visit every neighbour of `current`, in order. */
    method ExpandNeighbours(current: AnnotId)
      requires Valid() && current < |annots|
      modifies this
      ensures Valid() && NodesKept(old(annots), annots)
      ensures closedSet == old(closedSet) && old(openSet) <= openSet
      ensures Covered(annots, openSet, closedSet, graph[old(annots[current].node)])
    {
      var neighbours := graph[annots[current].node];
      ghost var node := annots[current].node;
      ghost var open0, annots0 := openSet, annots;
      var k := 0;
      while k < |neighbours|
        invariant 0 <= k <= |neighbours|
        invariant Valid() && current < |annots| && annots[current].node == node
        invariant closedSet == old(closedSet) && open0 <= openSet
        invariant NodesKept(annots0, annots)
        invariant Covered(annots, openSet, closedSet, neighbours[..k])
      {
        ghost var openBefore, annotsBefore := openSet, annots;
        VisitNeighbour(current, neighbours[k], k);
        CoveredStep(annotsBefore, openBefore, annots, openSet, closedSet, neighbours, k);
        NodesKeptTransitive(annots0, annotsBefore, annots);
        PrefixTransitive(open0, openBefore, openSet);
        k := k + 1;
      }
      assert neighbours[..k] == neighbours;
    }

    /** Lines 80-82 of `GetNextNode`: move the first open annotation of least weight to
        closed and return it; `best` is its position in open. */
    method CloseBest() returns (r: Result<AnnotId>, ghost best: nat)
      requires Valid()
      modifies this
      ensures Valid()
      ensures annots == old(annots) && rank == old(rank) && astarNode == old(astarNode)
      ensures Weighable(annots, heuristic, old(openSet))
      ensures r.Err? <==> old(openSet) == []
      ensures r.Err? ==> openSet == old(openSet) && closedSet == old(closedSet)
      ensures r.Ok? ==>
        IsFirstMinimum(Weights(annots, rank, heuristic, old(openSet)), best) && r.value == old(openSet)[best] &&
        openSet == Utils.RemoveFromArray(old(openSet), r.value) && closedSet == old(closedSet) + [r.value]
      ensures forall y :: y in old(openSet) + old(closedSet) ==> y in openSet + closedSet
    {
      ArenaWeighable(graph, startNode, heuristic, annots, rank, openSet);
      var b;
      b, best := GetBestNode(openSet);
      if b.Err? {
        return Err(b.fault), best;
      }
      MoveToClosed(b.value);
      r := Ok(b.value);
    }

    /** Lines 81-82: remove `x` from open and push it onto closed. */
    method MoveToClosed(x: AnnotId)
      requires Valid() && x in openSet
      modifies this
      ensures Valid()
      ensures annots == old(annots) && rank == old(rank) && astarNode == old(astarNode)
      ensures openSet == Utils.RemoveFromArray(old(openSet), x) && closedSet == old(closedSet) + [x]
      ensures forall y :: y in old(openSet) + old(closedSet) ==> y in openSet + closedSet
    {
      MoveKeepsFrontier(annots, openSet, closedSet, x);
      openSet := Utils.RemoveFromArray(openSet, x);
      closedSet := closedSet + [x];
    }

    /** `GetNextNode`: expands `current`, then moves the first open annotation of least
        weight from open to closed and returns it. `expanded` is the open array after the
        expansion and `best` the position chosen in it. */
    method GetNextNode(current: AnnotId) returns (r: Result<AnnotId>, ghost expanded: seq<AnnotId>, ghost best: nat)
      requires Valid() && current < |annots|
      modifies this
      ensures Valid() && NodesKept(old(annots), annots)
      ensures old(openSet) <= expanded
      ensures Covered(annots, openSet, closedSet, graph[old(annots[current].node)])
      ensures r.Err? <==> expanded == []
      ensures r.Err? ==> openSet == [] && closedSet == old(closedSet)
      ensures Weighable(annots, heuristic, expanded)
      ensures r.Ok? ==>
        IsFirstMinimum(Weights(annots, rank, heuristic, expanded), best) && r.value == expanded[best] &&
        openSet == Utils.RemoveFromArray(expanded, r.value) && closedSet == old(closedSet) + [r.value]
    {
      ghost var node := annots[current].node;
      ExpandNeighbours(current);
      expanded := openSet;
      r, best := CloseBest();
      CoveredKept(annots, expanded, old(closedSet), openSet, closedSet, graph[node]);
    }

    /** Lines 24-31 of `FindPath`: fresh open and closed arrays, and the start annotation
        (null predecessor, cost 0, marked visited) as the only closed entry. */
    method Seed()
      requires GraphOk()
      requires forall v :: 0 <= v < |astarNode| ==> astarNode[v].None?
      modifies this
      ensures Valid()
      ensures annots == [AstarNode(startNode, None, 0.0, true)]
      ensures openSet == [] && closedSet == [0]
      ensures astarNode == old(astarNode)[startNode := Some(0)]
    {
      var startAstarNode := NewAstarNode(startNode, None, 0.0);
      annots := [startAstarNode.(wasVisited := true)];
      rank := [0];
      astarNode := astarNode[startNode := Some(0)];
      openSet := [];
      closedSet := [0];
      assert LinksOk(annots, astarNode, startNode);
    }

    /** `FindPath`: seeds the start annotation into closed, takes up to `MaxSteps` steps
        while the current node is not the target, and traces back from the last current
        annotation, whether or not it is the target. `steps` counts the steps taken. */
    method FindPath() returns (r: Result<seq<NodeId>>, ghost steps: nat)
      requires GraphOk()
      requires forall v :: 0 <= v < |astarNode| ==> astarNode[v].None?
      modifies this
      ensures Valid()
      ensures steps <= MaxSteps && |closedSet| == steps + 1
      // the original start annotation stays first in closed, with its null predecessor
      ensures closedSet[0] == 0 && annots[0] == AstarNode(startNode, None, 0.0, true)
      // closed[j] is the current annotation after j steps; none before the last is the target
      ensures NoTargetBefore(annots, closedSet, steps, targetNode)
      ensures r.Ok? ==> annots[closedSet[steps]].node == targetNode || steps == MaxSteps
      ensures r.Ok? ==> r.value == Trace(annots, rank, closedSet[steps])
      ensures r.Ok? ==> r.value[0] == annots[closedSet[steps]].node && WalkBackTo(graph, r.value, startNode)
      ensures startNode == targetNode ==> r == Ok([startNode]) && steps == 0
      // the only failure: selecting from an empty open array
      ensures r.Err? ==> openSet == [] && steps < MaxSteps
    {
      Seed();
      var currentNode := 0;
      steps := 0;
      var i := 0;
      while i < MaxSteps && annots[currentNode].node != targetNode
        invariant 0 <= i <= MaxSteps && steps == i
        invariant Valid() && currentNode < |annots|
        invariant |closedSet| == i + 1 && closedSet[i] == currentNode
        invariant NoTargetBefore(annots, closedSet, i, targetNode)
        invariant startNode == targetNode ==> i == 0
      {
        ghost var closedBefore, annotsBefore := closedSet, annots;
        var next, _, _ := GetNextNode(currentNode);
        if next.Err? {
          return Err(next.fault), steps;
        }
        NoTargetStep(annotsBefore, annots, closedBefore, next.value, i, targetNode);
        currentNode := next.value;
        i := i + 1;
        steps := i;
      }
      var path := TraceBack(currentNode);
      TraceIsWalk(graph, annots, rank, startNode, currentNode);
      if startNode == targetNode {
        assert path == Trace(annots, rank, 0) == [startNode];
      }
      r := Ok(path);
    }
  }
}
