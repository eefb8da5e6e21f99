/** A unit standing on a node of the map (`Unit`): its statistics, the damage it takes from
    a hit, and the box around its node in which a click selects it. Numbers are exact reals;
    floating-point rounding is not modelled. */
module Units {
  import opened Vectors
  import opened Nodes

  /** What a hit of strength `dmg` takes off a unit with the given defense: the excess of the
      hit over the defense, never negative. */
  function Damage(dmg: real, defense: real): (r: real)
    ensures r >= 0.0 && r >= dmg - defense
    ensures r == 0.0 || r == dmg - defense
  {
    if dmg - defense > 0.0 then dmg - defense else 0.0
  }

  class Unit {
    /** The node the unit stands on. */
    var currentNode: NodeId
    /** Set by the constructor and read by nothing. */
    var canMove: bool
    var color: string
    const defaultColor: string

    var currentHp: real
    var currentDmg: real
    var currentDefense: real
    /** In distance units, not nodes. */
    var currentAttackRange: real
    /** The longest path, in nodes, the unit may take in one move. */
    var speed: real

    const maxHp: real
    const defaultDmg: real
    const defaultDefense: real
    const defaultAttackRange: real

    /** Never initialised, so a fresh unit reads them as false. */
    var ignoreClicks: bool
    var movedThisTurn: bool

    /** The corners of the clickable box, relative to the unit's node; on the canvas y grows
        downwards, so the lower left corner has the larger y. */
    const lowerLeftCorner: Vector2
    const upperRightCorner: Vector2

    /** Lines 39-55: every current statistic starts at its maximum or default value. */
    constructor(node: NodeId, hp: real, dmg: real, def: real, attackRange: real,
                lowerLeftCorner: Vector2, upperRightCorner: Vector2, color: string, speed: real)
      ensures currentNode == node && canMove
      ensures maxHp == hp && currentHp == hp
      ensures defaultDmg == dmg && currentDmg == dmg
      ensures defaultDefense == def && currentDefense == def
      ensures defaultAttackRange == attackRange && currentAttackRange == attackRange
      ensures this.lowerLeftCorner == lowerLeftCorner && this.upperRightCorner == upperRightCorner
      ensures this.color == color && defaultColor == color && this.speed == speed
      ensures !ignoreClicks && !movedThisTurn
    {
      currentNode := node;
      canMove := true;
      maxHp := hp;
      currentHp := hp;
      defaultDmg := dmg;
      currentDmg := dmg;
      defaultDefense := def;
      currentDefense := def;
      defaultAttackRange := attackRange;
      currentAttackRange := attackRange;
      this.lowerLeftCorner := lowerLeftCorner;
      this.upperRightCorner := upperRightCorner;
      this.color := color;
      defaultColor := color;
      this.speed := speed;
      ignoreClicks := false;
      movedThisTurn := false;
    }

    /** `IsClicked`, lines 74-79, given the position of the unit's node: the click, taken
        relative to that position, lies strictly inside the box between the two corners. */
    predicate IsClicked(nodePosition: Vector2, click: Vector2)
      reads this
      // only a box with its lower-left corner left of and below its upper-right one can be hit
      ensures IsClicked(nodePosition, click) ==>
        lowerLeftCorner.x < upperRightCorner.x && upperRightCorner.y < lowerLeftCorner.y
      // a click on the node itself hits exactly when the node lies strictly inside the box
      ensures click == nodePosition ==> (IsClicked(nodePosition, click) <==>
        lowerLeftCorner.x < 0.0 < upperRightCorner.x && upperRightCorner.y < 0.0 < lowerLeftCorner.y)
    {
      var local := Subtract(click, nodePosition);
      local.x > lowerLeftCorner.x && local.y < lowerLeftCorner.y &&
      local.x < upperRightCorner.x && local.y > upperRightCorner.y
    }

    /** Lines 89-93: the hit, less the defense and never below zero, comes off `currentHp`. */
    method TakeHit(dmg: real)
      modifies this`currentHp
      ensures currentHp == old(currentHp) - Damage(dmg, currentDefense)
      ensures currentHp <= old(currentHp)
      ensures dmg <= currentDefense ==> currentHp == old(currentHp)
      ensures currentNode == old(currentNode) && canMove == old(canMove) && color == old(color)
      ensures currentDmg == old(currentDmg) && currentDefense == old(currentDefense)
      ensures currentAttackRange == old(currentAttackRange) && speed == old(speed)
      ensures ignoreClicks == old(ignoreClicks) && movedThisTurn == old(movedThisTurn)
    {
      var d := if dmg - currentDefense > 0.0 then dmg - currentDefense else 0.0;
      currentHp := currentHp - d;
    }
  }

  /** With the corners every spawned unit gets, (-10, 10) and (10, -10), a click selects the
      unit exactly when it lies in the open square of half-side 10 around the unit's node. */
  lemma SpawnedUnitClickBox(u: Unit, nodePosition: Vector2, click: Vector2)
    requires u.lowerLeftCorner == Vector2(-10.0, 10.0) && u.upperRightCorner == Vector2(10.0, -10.0)
    ensures u.IsClicked(nodePosition, click) <==>
      nodePosition.x - 10.0 < click.x < nodePosition.x + 10.0 &&
      nodePosition.y - 10.0 < click.y < nodePosition.y + 10.0
  {
  }
}
