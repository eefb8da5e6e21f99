/** A node of the game map (`Node`). Nodes are identified by their index in the map's
    node table; the fields other code writes (`neighbours`, `astarNode`, `ignoreClicks`)
    are record fields that the owners of the table replace. */
module Nodes {
  import opened Wrappers
  import opened Vectors

  /** Identity of a `Node` object: its index in the map's node table. */
  type NodeId = nat

  /** Identity of an `AstarNode` object: its index in the search's annotation arena. */
  type AnnotId = nat

  /** One `[Node, number]` entry of `neighbours`: the neighbour and the distance to it. */
  datatype Edge = Edge(to: NodeId, weight: real)

  /** Radius of the clickable disc around a node (`radious`). */
  const Radius: real := 7.5

  datatype Node = Node(
    /** set once by the constructor */
    position: Vector2,
    /** appended to by the map builder */
    neighbours: seq<Edge>,
    /** the annotation of the search in progress, or null */
    astarNode: Option<AnnotId>,
    /** written by the turn logic; never initialised, so it reads as false */
    ignoreClicks: bool)
  {
    /** `IsClicked`: the click is within `Radius` of the node, boundary included, that is in
        the closed disc of radius 7.5 around it; the node's own position is a hit. */
    predicate IsClicked(click: Vector2)
      ensures IsClicked(click) <==> SquaredDistance(click, position) <= 56.25
      ensures click == position ==> IsClicked(click)
    {
      WithinDistance(click, position, Radius)
    }
  }

  /** `new Node(position)`. */
  function NewNode(position: Vector2): (n: Node)
    ensures n.position == position
    ensures n.neighbours == [] && n.astarNode == None && !n.ignoreClicks
  {
    Node(position, [], None, false)
  }

  /** The boundary of the disc counts as a hit; anything farther along the same axis does not. */
  lemma IsClickedBoundary(n: Node, d: real)
    requires d >= 0.0
    ensures n.IsClicked(Vector2(n.position.x + d, n.position.y)) <==> d <= Radius
  {
    var click := Vector2(n.position.x + d, n.position.y);
    assert SquaredDistance(click, n.position) == d * d;
    if d > Radius {
      assert d * d > Radius * Radius by {
        assert d * d - Radius * Radius == (d - Radius) * (d + Radius);
        MulPositive(d - Radius, d + Radius);
      }
    } else {
      assert d * d <= Radius * Radius by {
        assert Radius * Radius - d * d == (Radius - d) * (Radius + d);
        MulNonNegative(Radius - d, Radius + d);
      }
    }
  }

  lemma MulNonNegative(a: real, b: real)
    requires a >= 0.0 && b >= 0.0
    ensures a * b >= 0.0
  {
  }

  lemma MulPositive(a: real, b: real)
    requires a > 0.0 && b > 0.0
    ensures a * b > 0.0
  {
  }
}
