/** The annotation the A* search attaches to a node (`AstarNode`). Annotations live in an
    arena owned by the search and refer to each other, and to nodes, by index. */
module AstarNodes {
  import opened Wrappers
  import opened Vectors
  import opened Nodes

  /** One `AstarNode` object. `pathNode` is the pair `[pred, cost]`: the predecessor
      annotation (null only for the search's start annotation) and the distance stored
      for the step from it. `node` never changes after construction. */
  datatype AstarNode = AstarNode(node: NodeId, pred: Option<AnnotId>, cost: real, wasVisited: bool)

  /** `new AstarNode(node, [pred, cost])` as a value: `wasVisited` starts false. Storing its
      identity into `node.astarNode` is done by the search that owns the arena. */
  function NewAstarNode(node: NodeId, pred: Option<AnnotId>, cost: real): (a: AstarNode)
    ensures a.node == node && a.pred == pred && a.cost == cost
    ensures !a.wasVisited
  {
    AstarNode(node, pred, cost, false)
  }

  /** Every annotation and node index the arena mentions is in range. */
  ghost predicate ArenaIndices(nodes: seq<Node>, annots: seq<AstarNode>)
  {
    forall a :: 0 <= a < |annots| ==>
      annots[a].node < |nodes| && (annots[a].pred.Some? ==> annots[a].pred.value < |annots|)
  }

  /** `AstarNode.Equals(A, B)`. The three conjuncts are evaluated left to right: when the two
      nodes' positions differ the answer is false without touching `pathNode[0]`; otherwise a
      null predecessor on either side makes reading `pathNode[0].node` fail. */
  function Equals(nodes: seq<Node>, annots: seq<AstarNode>, a: AnnotId, b: AnnotId): (r: Result<bool>)
    requires ArenaIndices(nodes, annots)
    requires a < |annots| && b < |annots|
    ensures r.Err? <==>
      nodes[annots[a].node].position == nodes[annots[b].node].position &&
      (annots[a].pred.None? || annots[b].pred.None?)
    ensures r == Ok(true) <==>
      nodes[annots[a].node].position == nodes[annots[b].node].position &&
      annots[a].pred.Some? && annots[b].pred.Some? &&
      nodes[annots[annots[a].pred.value].node].position == nodes[annots[annots[b].pred.value].node].position &&
      annots[a].wasVisited == annots[b].wasVisited
  {
    var A := annots[a];
    var B := annots[b];
    if nodes[A.node].position != nodes[B.node].position then Ok(false)
    else if A.pred.None? then Err(TypeError("Cannot read properties of null (reading 'node')"))
    else if B.pred.None? then Err(TypeError("Cannot read properties of null (reading 'node')"))
    else Ok(nodes[annots[A.pred.value].node].position == nodes[annots[B.pred.value].node].position
            && A.wasVisited == B.wasVisited)
  }

  /** Equals is symmetric whenever it answers, and fails on both orders or on neither. */
  lemma EqualsSymmetric(nodes: seq<Node>, annots: seq<AstarNode>, a: AnnotId, b: AnnotId)
    requires ArenaIndices(nodes, annots)
    requires a < |annots| && b < |annots|
    ensures Equals(nodes, annots, a, b).Err? == Equals(nodes, annots, b, a).Err?
    ensures Equals(nodes, annots, a, b).Ok? ==> Equals(nodes, annots, a, b) == Equals(nodes, annots, b, a)
  {
  }

  /** An annotation with a predecessor equals itself; one without (the start annotation)
      makes Equals fail even against itself. */
  lemma EqualsReflexive(nodes: seq<Node>, annots: seq<AstarNode>, a: AnnotId)
    requires ArenaIndices(nodes, annots)
    requires a < |annots|
    ensures annots[a].pred.Some? ==> Equals(nodes, annots, a, a) == Ok(true)
    ensures annots[a].pred.None? ==> Equals(nodes, annots, a, a).Err?
  {
  }
}
