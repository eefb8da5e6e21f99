/** The player's turn (`PlayerTurn`): a three-stage state machine driven by clicks. In the
    selection stage the player picks one of their units that has not moved yet; in the move
    stage they click a node the unit walks to, if the path is short enough; in the attack stage
    they click an enemy in range, or the unit itself to skip the attack. The turn ends when
    every player unit has moved.
    The two callbacks the turn is given are recorded instead of called: `finishCalls` counts
    the calls of `onTurnFinish`, and `deleted` lists the units passed to `deleteUnit`. The
    turn shares its arrays of units with the game, and `deleteUnit` removes the dead unit
    from them (`src/Game.ts:102-103`); that removal is modelled on `enemyUnits`, the only
    array a unit killed in this turn can be in.
    `Vector2.Distance` is the parameter `distance`, from which the search's heuristic is
    computed; the range test decides `Distance(a, b) <= r` exactly, on squared distances.
    The frames of the methods name the fields they may write (`units`ignoreClicks`, ...):
    every other field of every unit and of the map keeps its value. */
module PlayerTurns {
  import opened Wrappers
  import opened Vectors
  import opened Nodes
  import opened AstarSearch
  import opened GameMaps
  import opened Units
  import opened InputManagers
  import Utils

  datatype TurnStage = Select | Move | Attack

  /** What a click can hit: a node of the map, by identity, or a unit. */
  datatype Clickable = NodeClick(id: NodeId) | UnitClick(unit: Unit)

  /** The nodes the units stand on, in the order of the units. */
  ghost function Positions(units: seq<Unit>): (p: seq<NodeId>)
    reads units`currentNode
    ensures |p| == |units| && forall k :: 0 <= k < |units| ==> p[k] == units[k].currentNode
  {
    if units == [] then [] else Positions(units[..|units| - 1]) + [units[|units| - 1].currentNode]
  }

  /** Some unit has not moved this turn. */
  ghost predicate AnyLeftToMove(units: seq<Unit>)
    reads units`movedThisTurn
  {
    exists k :: 0 <= k < |units| && !units[k].movedThisTurn
  }

  /** Every node's `ignoreClicks` is `value`. */
  ghost predicate AllNodesIgnoring(all: seq<Node>, value: bool)
  {
    forall i :: 0 <= i < |all| ==> all[i].ignoreClicks == value
  }

  /** The units' `ignoreClicks`, `movedThisTurn` and `color` are as they were. */
  twostate predicate Untouched(units: seq<Unit>)
    reads units`ignoreClicks, units`movedThisTurn, units`color
  {
    forall k :: 0 <= k < |units| ==>
      units[k].ignoreClicks == old(units[k].ignoreClicks) &&
      units[k].movedThisTurn == old(units[k].movedThisTurn) && units[k].color == old(units[k].color)
  }

  /** `units.forEach(unit => unit.ignoreClicks = value)`. */
  method SetUnitsIgnoring(units: seq<Unit>, value: bool)
    modifies units`ignoreClicks
    ensures forall k :: 0 <= k < |units| ==> units[k].ignoreClicks == value
  {
    for i := 0 to |units|
      invariant forall k :: 0 <= k < i ==> units[k].ignoreClicks == value
    {
      units[i].ignoreClicks := value;
    }
  }

  /** Line 79: `playerUnits.forEach(unit => unit.ignoreClicks = unit.movedThisTurn)`. */
  method IgnoreMovedUnits(units: seq<Unit>)
    modifies units`ignoreClicks
    ensures forall k :: 0 <= k < |units| ==> units[k].ignoreClicks == units[k].movedThisTurn
  {
    for i := 0 to |units|
      invariant forall k :: 0 <= k < i ==> units[k].ignoreClicks == units[k].movedThisTurn
    {
      units[i].ignoreClicks := units[i].movedThisTurn;
    }
  }

  /** Line 164: every player unit takes clicks again and has not moved this turn. */
  method ResetPlayerUnits(units: seq<Unit>)
    modifies units`ignoreClicks, units`movedThisTurn
    ensures forall k :: 0 <= k < |units| ==> !units[k].ignoreClicks && !units[k].movedThisTurn
  {
    for i := 0 to |units|
      invariant forall k :: 0 <= k < i ==> !units[k].ignoreClicks && !units[k].movedThisTurn
    {
      units[i].ignoreClicks := false;
      units[i].movedThisTurn := false;
    }
  }

  /** The nodes after `ignoreClicks = true` on each node of `ids`, in order. */
  function IgnoringAt(all: seq<Node>, ids: seq<NodeId>): (r: seq<Node>)
    requires forall k :: 0 <= k < |ids| ==> ids[k] < |all|
    ensures |r| == |all|
  {
    if ids == [] then all
    else
      var last := ids[|ids| - 1];
      var r := IgnoringAt(all, ids[..|ids| - 1]);
      r[last := r[last].(ignoreClicks := true)]
  }

  /** Exactly the nodes of `ids` stop taking clicks; nothing else about the nodes changes. */
  lemma {:induction false} IgnoringAtFlags(all: seq<Node>, ids: seq<NodeId>)
    requires forall k :: 0 <= k < |ids| ==> ids[k] < |all|
    ensures SameButClicks(all, IgnoringAt(all, ids))
    ensures forall n :: 0 <= n < |all| ==>
      (IgnoringAt(all, ids)[n].ignoreClicks <==> all[n].ignoreClicks || n in ids)
  {
    if ids != [] {
      var init := ids[..|ids| - 1];
      IgnoringAtFlags(all, init);
      assert ids == init + [ids[|ids| - 1]];
    }
  }

  /** Stopping clicks on the nodes of `ids`, then of `ids'`, on a map whose nodes all take
      clicks: exactly the nodes of the two lists ignore clicks, and the map stays built with
      its annotations as they were. */
  lemma IgnoringTwice(grid: Grid, all: seq<Node>, ids: seq<NodeId>, ids': seq<NodeId>, cells: seq<(int, int)>)
    requires BuiltBy(grid, all, cells) && AllNodesIgnoring(all, false)
    requires forall k :: 0 <= k < |ids| ==> ids[k] < |all|
    requires forall k :: 0 <= k < |ids'| ==> ids'[k] < |all|
    ensures var r := IgnoringAt(IgnoringAt(all, ids), ids');
      BuiltBy(grid, r, cells) && (Unlinked(r) <==> Unlinked(all)) &&
      forall i :: 0 <= i < |r| ==> (r[i].ignoreClicks <==> i in ids || i in ids')
  {
    var mid := IgnoringAt(all, ids);
    IgnoringAtFlags(all, ids);
    ClicksKeepBuilt(grid, all, mid, cells);
    IgnoringAtFlags(mid, ids');
    ClicksKeepBuilt(grid, mid, IgnoringAt(mid, ids'), cells);
  }

  /** Lines 101 and 102: every unit, and the node it stands on, stops taking clicks; the other
      nodes keep their flags. */
  method IgnoreUnitsAndTheirNodes(units: seq<Unit>, gm: GameMap)
    requires forall k :: 0 <= k < |units| ==> units[k].currentNode < |gm.allNodes|
    modifies units`ignoreClicks, gm`allNodes
    ensures forall k :: 0 <= k < |units| ==> units[k].ignoreClicks
    ensures gm.allNodes == IgnoringAt(old(gm.allNodes), Positions(units))
  {
    ghost var at := Positions(units);
    ghost var all0 := gm.allNodes;
    for i := 0 to |units|
      invariant forall k :: 0 <= k < i ==> units[k].ignoreClicks
      invariant gm.allNodes == IgnoringAt(all0, at[..i])
    {
      var id := units[i].currentNode;
      assert id == at[i];
      units[i].ignoreClicks := true;
      assert at[..i + 1][..i] == at[..i];
      gm.SetNodeIgnoreClicks(id, true);
    }
    assert at[..|units|] == at;
  }

  /** Lines 101 and 102 on a map whose nodes all take clicks: the AI's units, then the
      player's, and the nodes they stand on stop taking clicks. */
  method IgnoreAllUnitsAndTheirNodes(enemies: seq<Unit>, players: seq<Unit>, gm: GameMap)
    requires gm.Built() && AllNodesIgnoring(gm.allNodes, false)
    requires forall k :: 0 <= k < |enemies| ==> enemies[k] !in players
    requires forall k :: 0 <= k < |enemies| ==> enemies[k].currentNode < |gm.allNodes|
    requires forall k :: 0 <= k < |players| ==> players[k].currentNode < |gm.allNodes|
    modifies enemies`ignoreClicks, players`ignoreClicks, gm`allNodes
    ensures forall k :: 0 <= k < |enemies| ==> enemies[k].ignoreClicks
    ensures forall k :: 0 <= k < |players| ==> players[k].ignoreClicks
    ensures gm.Built() && (Unlinked(gm.allNodes) <==> old(Unlinked(gm.allNodes)))
    ensures |gm.allNodes| == old(|gm.allNodes|)
    ensures forall i :: 0 <= i < |gm.allNodes| ==>
      (gm.allNodes[i].ignoreClicks <==> i in Positions(enemies) || i in Positions(players))
  {
    ghost var clear := gm.allNodes;
    ghost var enemiesAt, playersAt := Positions(enemies), Positions(players);
    IgnoreUnitsAndTheirNodes(enemies, gm);
    IgnoreUnitsAndTheirNodes(players, gm);
    IgnoringTwice(gm.nodes, clear, enemiesAt, playersAt, gm.cells);
  }

  class PlayerTurn {
    /** All units owned by the player. */
    const playerUnits: seq<Unit>
    /** All units owned by the AI that are still alive: the array the game shares with the
        turn, which loses a unit when `deleteUnit` is called for it. */
    var enemyUnits: seq<Unit>
    const gameMap: GameMap
    const inputManager: InputManager<Clickable, PlayerTurn>
    /** `Vector2.Distance`. */
    const distance: (Vector2, Vector2) -> real

    /** How often `onTurnFinish` has been called. */
    var finishCalls: nat
    /** The units passed to `deleteUnit`, in the order of the calls. */
    var deleted: seq<Unit>
    /** Undefined until the first stage starts. */
    var turnStage: Option<TurnStage>
    var selectedPlayerUnit: Option<Unit>

    /** The player's and the AI's units are apart and stand on nodes of the map; the map is
        between searches; a selected unit is a player unit and exists whenever the turn is
        moving or attacking; the turn listens to clicks until it has finished. */
    ghost predicate Valid()
      reads this, gameMap, inputManager, playerUnits`currentNode, enemyUnits`currentNode
    {
      gameMap.Valid() && inputManager.Valid() &&
      (forall u :: u in playerUnits ==> u !in enemyUnits) &&
      (forall k :: 0 <= k < |playerUnits| ==> playerUnits[k].currentNode < |gameMap.allNodes|) &&
      (forall k :: 0 <= k < |enemyUnits| ==> enemyUnits[k].currentNode < |gameMap.allNodes|) &&
      (selectedPlayerUnit.Some? ==> selectedPlayerUnit.value in playerUnits) &&
      (turnStage == Some(Move) || turnStage == Some(Attack) ==> selectedPlayerUnit.Some?) &&
      (this in inputManager.listeners <==> finishCalls == 0)
    }

    /** Lines 73-80: the selection stage. Only the player units that have not moved take
        clicks. */
    ghost predicate Selecting()
      reads this, gameMap, playerUnits`ignoreClicks, playerUnits`movedThisTurn, enemyUnits`ignoreClicks
    {
      turnStage == Some(Select) && selectedPlayerUnit == None &&
      (forall k :: 0 <= k < |enemyUnits| ==> enemyUnits[k].ignoreClicks) &&
      AllNodesIgnoring(gameMap.allNodes, true) &&
      (forall k :: 0 <= k < |playerUnits| ==> playerUnits[k].ignoreClicks == playerUnits[k].movedThisTurn)
    }

    /** Lines 99-102: the move stage. No unit takes clicks, and of the nodes only those no
        unit stands on. */
    ghost predicate Moving()
      reads this, gameMap, playerUnits`ignoreClicks, playerUnits`currentNode,
        enemyUnits`ignoreClicks, enemyUnits`currentNode
    {
      turnStage == Some(Move) &&
      (forall k :: 0 <= k < |enemyUnits| ==> enemyUnits[k].ignoreClicks) &&
      (forall k :: 0 <= k < |playerUnits| ==> playerUnits[k].ignoreClicks) &&
      (forall i :: 0 <= i < |gameMap.allNodes| ==>
        (gameMap.allNodes[i].ignoreClicks <==> i in Positions(enemyUnits) || i in Positions(playerUnits)))
    }

    /** Lines 126-129: the attack stage. Every unit takes clicks, no node does. */
    ghost predicate Attacking()
      reads this, gameMap, playerUnits`ignoreClicks, enemyUnits`ignoreClicks
    {
      turnStage == Some(Attack) &&
      (forall k :: 0 <= k < |enemyUnits| ==> !enemyUnits[k].ignoreClicks) &&
      AllNodesIgnoring(gameMap.allNodes, true) &&
      (forall k :: 0 <= k < |playerUnits| ==> !playerUnits[k].ignoreClicks)
    }

    /** Lines 162-166: the turn is over. Every unit and node takes clicks, no player unit has
        moved, and the turn no longer listens to clicks. */
    ghost predicate Ended()
      reads this, gameMap, inputManager, playerUnits`ignoreClicks, playerUnits`movedThisTurn,
        enemyUnits`ignoreClicks
    {
      this !in inputManager.listeners &&
      (forall k :: 0 <= k < |enemyUnits| ==> !enemyUnits[k].ignoreClicks) &&
      AllNodesIgnoring(gameMap.allNodes, false) &&
      (forall k :: 0 <= k < |playerUnits| ==> !playerUnits[k].ignoreClicks && !playerUnits[k].movedThisTurn)
    }

    /** Where `StartPlayerUnitSelection` leads: the selection stage when a player unit was left
        to move, otherwise the end of the turn with one call of `onTurnFinish`. */
    ghost predicate SelectionStarted(anyLeft: bool)
      reads this, gameMap, inputManager, playerUnits`ignoreClicks, playerUnits`movedThisTurn,
        enemyUnits`ignoreClicks
    {
      (anyLeft ==> Selecting() && finishCalls == 0) && (!anyLeft ==> Ended() && finishCalls == 1)
    }

    /** Lines 31-42: registers the turn's click listener and starts the selection stage, which
        ends the turn at once when no player unit is left to move. */
    constructor(playerUnits: seq<Unit>, enemyUnits: seq<Unit>, gameMap: GameMap,
                inputManager: InputManager<Clickable, PlayerTurn>, distance: (Vector2, Vector2) -> real)
      requires gameMap.Valid() && inputManager.Valid()
      requires forall u :: u in playerUnits ==> u !in enemyUnits
      requires forall k :: 0 <= k < |playerUnits| ==> playerUnits[k].currentNode < |gameMap.allNodes|
      requires forall k :: 0 <= k < |enemyUnits| ==> enemyUnits[k].currentNode < |gameMap.allNodes|
      modifies gameMap`allNodes, inputManager`listeners, playerUnits`ignoreClicks,
        playerUnits`movedThisTurn, playerUnits`color, enemyUnits`ignoreClicks
      ensures Valid() && deleted == []
      ensures this.playerUnits == playerUnits && this.enemyUnits == enemyUnits
      ensures this.gameMap == gameMap && this.inputManager == inputManager
      ensures SelectionStarted(old(AnyLeftToMove(playerUnits)))
    {
      this.playerUnits := playerUnits;
      this.enemyUnits := enemyUnits;
      this.gameMap := gameMap;
      this.inputManager := inputManager;
      this.distance := distance;
      finishCalls := 0;
      deleted := [];
      turnStage := None;
      selectedPlayerUnit := None;
      new;
      var r := inputManager.AddOnClickAnyListener(this);
      assert r.Pass?;
      StartPlayerUnitSelection();
    }

    /** Line 69: whether some player unit has not moved, by a scan over all of them. */
    method AnyUnitsLeftToMove() returns (anyLeft: bool)
      ensures anyLeft <==> AnyLeftToMove(playerUnits)
    {
      anyLeft := false;
      for i := 0 to |playerUnits|
        invariant anyLeft <==> exists k :: 0 <= k < i && !playerUnits[k].movedThisTurn
      {
        anyLeft := if playerUnits[i].movedThisTurn then anyLeft else true;
      }
    }

    /** Lines 65-85: the selected unit, if any, gets its default colour back; then either the
        selection stage starts or, when every player unit has moved, the turn ends. */
    method StartPlayerUnitSelection()
      requires Valid() && finishCalls == 0
      modifies this, gameMap`allNodes, inputManager`listeners, playerUnits`ignoreClicks,
        playerUnits`movedThisTurn, playerUnits`color, enemyUnits`ignoreClicks
      ensures Valid() && deleted == old(deleted) && enemyUnits == old(enemyUnits)
      ensures SelectionStarted(old(AnyLeftToMove(playerUnits)))
      ensures old(selectedPlayerUnit).Some? ==>
        old(selectedPlayerUnit).value.color == old(selectedPlayerUnit).value.defaultColor
      ensures old(AnyLeftToMove(playerUnits)) ==>
        forall k :: 0 <= k < |playerUnits| ==> playerUnits[k].movedThisTurn == old(playerUnits[k].movedThisTurn)
      ensures !old(AnyLeftToMove(playerUnits)) ==>
        turnStage == old(turnStage) && selectedPlayerUnit == old(selectedPlayerUnit)
    {
      var anyLeft := AnyUnitsLeftToMove();
      if selectedPlayerUnit.Some? {
        var unit := selectedPlayerUnit.value;
        unit.color := unit.defaultColor;
      }
      if anyLeft {
        BeginSelection();
      } else {
        EndThisTurn();
      }
    }

    /** Lines 75-79: the selection stage starts with no unit selected. */
    method BeginSelection()
      requires Valid()
      modifies this, gameMap`allNodes, playerUnits`ignoreClicks, enemyUnits`ignoreClicks
      ensures Valid() && Selecting()
      ensures finishCalls == old(finishCalls) && deleted == old(deleted) && enemyUnits == old(enemyUnits)
    {
      selectedPlayerUnit := None;
      turnStage := Some(Select);
      SetUnitsIgnoring(enemyUnits, true);
      gameMap.SetIgnoreClicks(true);
      assert forall k :: 0 <= k < |enemyUnits| ==> enemyUnits[k] !in playerUnits;
      IgnoreMovedUnits(playerUnits);
    }

    /** Lines 87-95: a player unit that has not moved becomes the selected unit, is coloured,
        and the move stage starts; any other unit changes nothing. */
    method HandlePlayerUnitSelection(unit: Unit)
      requires Valid()
      modifies this, gameMap`allNodes, playerUnits`ignoreClicks, playerUnits`color, enemyUnits`ignoreClicks
      ensures Valid() && deleted == old(deleted) && enemyUnits == old(enemyUnits) && finishCalls == old(finishCalls)
      ensures !old(unit.movedThisTurn) && unit in playerUnits ==>
        selectedPlayerUnit == Some(unit) && unit.color == "#9999FF" && Moving()
      ensures old(unit.movedThisTurn) || unit !in playerUnits ==>
        unchanged(this) && gameMap.allNodes == old(gameMap.allNodes) &&
        Untouched(playerUnits) && Untouched(enemyUnits)
    {
      if !unit.movedThisTurn && unit in playerUnits {
        selectedPlayerUnit := Some(unit);
        unit.color := "#9999FF";
        StartPlayerUnitMove();
      }
    }

    /** Lines 97-103: the move stage starts. */
    method StartPlayerUnitMove()
      requires Valid() && selectedPlayerUnit.Some?
      modifies this, gameMap`allNodes, playerUnits`ignoreClicks, enemyUnits`ignoreClicks
      ensures Valid() && Moving()
      ensures selectedPlayerUnit == old(selectedPlayerUnit)
      ensures deleted == old(deleted) && enemyUnits == old(enemyUnits) && finishCalls == old(finishCalls)
    {
      turnStage := Some(Move);
      gameMap.SetIgnoreClicks(false);
      IgnoreAllUnitsAndTheirNodes(enemyUnits, playerUnits, gameMap);
    }

    /** Lines 105-122: the path from the selected unit's node to `node` is searched for. A
        path of at most `speed` nodes is taken: the unit lands on the first node of the path,
        has moved this turn, and the attack stage starts at once. A longer path changes
        nothing. A fault of the search propagates; the map then still carries the search's
        annotations. */
    method HandlePlayerUnitMove(node: NodeId) returns (r: Outcome, ghost path: seq<NodeId>, ghost steps: nat)
      requires Valid() && turnStage == Some(Move) && node < |gameMap.allNodes|
      modifies this, gameMap`allNodes, playerUnits`ignoreClicks, enemyUnits`ignoreClicks,
        selectedPlayerUnit.value`currentNode, selectedPlayerUnit.value`movedThisTurn
      ensures selectedPlayerUnit == old(selectedPlayerUnit)
      ensures deleted == old(deleted) && enemyUnits == old(enemyUnits) && finishCalls == old(finishCalls)
      ensures gameMap.Built() && (r.Pass? ==> Valid())
      // the path the search returned: a walk back to the unit's node that starts at `node`
      // unless the search's step cap was reached
      ensures r.Pass? ==> WalkBackTo(old(NeighbourLists(gameMap.allNodes)), path, old(selectedPlayerUnit.value.currentNode))
      ensures r.Pass? ==> steps <= MaxSteps && (path[0] == node || steps == MaxSteps)
      ensures r.Pass? && old(selectedPlayerUnit.value.currentNode) == node ==> path == [node]
      ensures var unit := selectedPlayerUnit.value;
        r.Pass? && |path| as real <= unit.speed ==>
          unit.currentNode == path[0] && unit.movedThisTurn && Attacking()
      ensures var unit := selectedPlayerUnit.value;
        r.Fail? || |path| as real > unit.speed ==>
          turnStage == old(turnStage) && unit.currentNode == old(unit.currentNode) &&
          unit.movedThisTurn == old(unit.movedThisTurn) &&
          Untouched(playerUnits) && Untouched(enemyUnits) &&
          SameButLinks(old(gameMap.allNodes), gameMap.allNodes)
    {
      var unit := selectedPlayerUnit.value;
      var found;
      found, steps := gameMap.FindPath(unit.currentNode, node, distance);
      if found.Err? {
        path := [];
        return Fail(found.fault), path, steps;
      }
      path := found.value;
      r := Pass;
      if |found.value| as real <= unit.speed {
        unit.currentNode := found.value[0];
        unit.movedThisTurn := true;
        StartPlayerUnitAttack();
      }
    }

    /** Lines 124-130: the attack stage starts. Calling it right away stands for the deferral
        to the next animation frame of line 116. */
    method StartPlayerUnitAttack()
      requires Valid() && selectedPlayerUnit.Some?
      modifies this, gameMap`allNodes, playerUnits`ignoreClicks, enemyUnits`ignoreClicks
      ensures Valid() && Attacking()
      ensures selectedPlayerUnit == old(selectedPlayerUnit)
      ensures deleted == old(deleted) && enemyUnits == old(enemyUnits) && finishCalls == old(finishCalls)
    {
      turnStage := Some(Attack);
      SetUnitsIgnoring(enemyUnits, false);
      gameMap.SetIgnoreClicks(true);
      SetUnitsIgnoring(playerUnits, false);
    }

    /** Line 142: `Vector2.Distance` between the nodes of the two units is at most the
        attacker's range, decided exactly on the squared distance. A negative range reaches
        nothing; a unit on the same node is in range of any range that is not negative. */
    predicate InRange(attacker: Unit, target: Unit)
      reads this, gameMap, attacker, target
      requires attacker.currentNode < |gameMap.allNodes| && target.currentNode < |gameMap.allNodes|
      ensures InRange(attacker, target) ==> attacker.currentAttackRange >= 0.0
      ensures attacker.currentNode == target.currentNode ==>
        (InRange(attacker, target) <==> attacker.currentAttackRange >= 0.0)
    {
      WithinDistance(gameMap.allNodes[target.currentNode].position, gameMap.allNodes[attacker.currentNode].position,
        attacker.currentAttackRange)
    }

    /** Line 146: `deleteUnit` is called for a dead enemy, which the game takes out of the
        arrays it shares with the turn (`src/Game.ts:102-103`); an enemy is not in
        `playerUnits`, so only `enemyUnits` loses it, at its first occurrence. */
    method DeleteUnit(target: Unit)
      requires Valid() && target in enemyUnits
      modifies this`deleted, this`enemyUnits
      ensures Valid() && deleted == old(deleted) + [target]
      ensures enemyUnits == Utils.RemoveFromArray(old(enemyUnits), target)
      ensures |enemyUnits| == |old(enemyUnits)| - 1
      ensures forall u :: u in enemyUnits ==> u in old(enemyUnits)
    {
      var i := Utils.IndexOf(enemyUnits, target);
      deleted := deleted + [target];
      enemyUnits := Utils.RemoveFromArrayAtIndex(enemyUnits, i);
      assert forall k :: 0 <= k < |enemyUnits| ==> enemyUnits[k] in old(enemyUnits);
    }

    /** Lines 145-146: the enemy takes the selected unit's hit and is handed to `deleteUnit`
        when its hit points drop to zero or below. */
    method HitEnemy(target: Unit)
      requires Valid() && selectedPlayerUnit.Some? && target in enemyUnits
      modifies this`deleted, this`enemyUnits, target`currentHp
      ensures Valid()
      ensures target.currentHp ==
        old(target.currentHp) - Damage(old(selectedPlayerUnit.value.currentDmg), old(target.currentDefense))
      ensures deleted == old(deleted) + (if target.currentHp <= 0.0 then [target] else [])
      ensures enemyUnits == if target.currentHp <= 0.0 then Utils.RemoveFromArray(old(enemyUnits), target) else old(enemyUnits)
    {
      target.TakeHit(selectedPlayerUnit.value.currentDmg);
      if target.currentHp <= 0.0 {
        DeleteUnit(target);
      }
    }

    /** Lines 142-147: the selected unit hits an enemy in range; a hit that leaves the enemy
        at zero hit points or below hands it to `deleteUnit`, which takes it out of
        `enemyUnits`; then the selection stage starts again over the units left. A dead unit
        no longer in `enemyUnits` keeps the click flag it had. */
    method AttackEnemy(target: Unit)
      requires Valid() && finishCalls == 0 && selectedPlayerUnit.Some? && target in enemyUnits
      modifies this, gameMap`allNodes, inputManager`listeners, playerUnits`ignoreClicks,
        playerUnits`movedThisTurn, playerUnits`color, enemyUnits`ignoreClicks, target`currentHp
      ensures Valid() && SelectionStarted(old(AnyLeftToMove(playerUnits)))
      ensures target.currentHp ==
        old(target.currentHp) - Damage(old(selectedPlayerUnit.value.currentDmg), old(target.currentDefense))
      ensures deleted == old(deleted) + (if target.currentHp <= 0.0 then [target] else [])
      ensures enemyUnits == if target.currentHp <= 0.0 then Utils.RemoveFromArray(old(enemyUnits), target) else old(enemyUnits)
      ensures target !in enemyUnits ==> target.ignoreClicks == old(target.ignoreClicks)
    {
      assert target !in playerUnits;
      HitEnemy(target);
      StartPlayerUnitSelection();
    }

    /** Lines 132-158. Clicking the selected unit skips the attack and goes back to selection.
        An enemy in range is attacked (`AttackEnemy`). An enemy out of range, or another
        player unit, changes nothing. */
    method HandlePlayerUnitAttack(target: Unit)
      requires Valid() && finishCalls == 0 && selectedPlayerUnit.Some?
      modifies this, gameMap`allNodes, inputManager`listeners, playerUnits`ignoreClicks,
        playerUnits`movedThisTurn, playerUnits`color, enemyUnits`ignoreClicks,
        (if target in enemyUnits then {target} else {})`currentHp
      ensures Valid()
      ensures var unit := old(selectedPlayerUnit.value);
        target == unit ==>
          SelectionStarted(old(AnyLeftToMove(playerUnits))) && deleted == old(deleted) && enemyUnits == old(enemyUnits)
      ensures var unit := old(selectedPlayerUnit.value);
        target != unit && target in old(enemyUnits) && old(InRange(unit, target)) ==>
          SelectionStarted(old(AnyLeftToMove(playerUnits))) &&
          target.currentHp == old(target.currentHp) - Damage(old(unit.currentDmg), old(target.currentDefense)) &&
          deleted == old(deleted) + (if target.currentHp <= 0.0 then [target] else []) &&
          enemyUnits == (if target.currentHp <= 0.0 then Utils.RemoveFromArray(old(enemyUnits), target) else old(enemyUnits)) &&
          (target !in enemyUnits ==> target.ignoreClicks == old(target.ignoreClicks))
      ensures var unit := old(selectedPlayerUnit.value);
        target != unit && !(target in old(enemyUnits) && old(InRange(unit, target))) ==>
          unchanged(this) && target.currentHp == old(target.currentHp) &&
          gameMap.allNodes == old(gameMap.allNodes) && inputManager.listeners == old(inputManager.listeners) &&
          Untouched(playerUnits) && Untouched(enemyUnits)
    {
      var unit := selectedPlayerUnit.value;
      if target == unit {
        StartPlayerUnitSelection();
      } else if target in enemyUnits {
        if InRange(unit, target) {
          AttackEnemy(target);
        }
      }
    }

    /** Lines 160-168: every unit and node takes clicks again, no player unit has moved, the
        listener is removed (it is registered, so this raises no error) and `onTurnFinish` is
        called. */
    method EndThisTurn()
      requires Valid() && finishCalls == 0
      modifies this, gameMap`allNodes, inputManager`listeners, playerUnits`ignoreClicks,
        playerUnits`movedThisTurn, enemyUnits`ignoreClicks
      ensures Valid() && Ended() && finishCalls == 1
      ensures turnStage == old(turnStage) && selectedPlayerUnit == old(selectedPlayerUnit) && deleted == old(deleted)
      ensures enemyUnits == old(enemyUnits)
    {
      SetUnitsIgnoring(enemyUnits, false);
      gameMap.SetIgnoreClicks(false);
      ResetPlayerUnits(playerUnits);
      var r := inputManager.RemoveOnClickAnyListener(this);
      assert r.Pass?;
      finishCalls := finishCalls + 1;
    }

    /** Lines 44-62: a click the input manager reports to the turn, dispatched on the turn's
        stage. A unit clicked while selecting is a selection; a node clicked while moving is
        a move; a unit clicked while moving or attacking is an attack. Any other click does
        nothing, and an undefined stage is an error. */
    method OnClickAny(clickable: Clickable) returns (r: Outcome)
      requires Valid() && finishCalls == 0
      requires clickable.NodeClick? ==> clickable.id < |gameMap.allNodes|
      modifies this, gameMap`allNodes, inputManager`listeners, playerUnits`ignoreClicks,
        playerUnits`movedThisTurn, playerUnits`color, playerUnits`currentNode,
        enemyUnits`ignoreClicks, enemyUnits`currentHp
      ensures r.Pass? ==> Valid()
      ensures old(turnStage) == None ==> r == Fail(Thrown("Unexpected turn stage")) && unchanged(this)
      // only the search of a move can fail
      ensures r.Fail? && old(turnStage).Some? ==> old(turnStage) == Some(Move) && clickable.NodeClick?
      ensures old(turnStage) == Some(Select) && clickable.UnitClick? ==>
        var u := clickable.unit;
        r.Pass? && (!old(u.movedThisTurn) && u in playerUnits ==> selectedPlayerUnit == Some(u) && Moving())
      ensures old(turnStage) == Some(Move) && clickable.NodeClick? && r.Pass? ==>
        turnStage == Some(Move) || (turnStage == Some(Attack) && Attacking())
      ensures old(turnStage) in {Some(Move), Some(Attack)} && clickable.UnitClick? ==>
        r.Pass? &&
        (clickable.unit == old(selectedPlayerUnit.value) ==> SelectionStarted(old(AnyLeftToMove(playerUnits))))
      // only a unit killed by an attack leaves `enemyUnits`
      ensures enemyUnits == old(enemyUnits) ||
        (clickable.UnitClick? && enemyUnits == Utils.RemoveFromArray(old(enemyUnits), clickable.unit) &&
         deleted == old(deleted) + [clickable.unit])
      // an attack on an enemy in range goes back to selection
      ensures (old(turnStage) in {Some(Move), Some(Attack)} && clickable.UnitClick? &&
               clickable.unit != old(selectedPlayerUnit.value) && clickable.unit in old(enemyUnits) &&
               old(InRange(selectedPlayerUnit.value, clickable.unit))) ==>
        SelectionStarted(old(AnyLeftToMove(playerUnits)))
      // clicks the stage does not expect change nothing
      ensures (old(turnStage) == Some(Select) && clickable.UnitClick? &&
               (old(clickable.unit.movedThisTurn) || clickable.unit !in playerUnits)) ==>
        r.Pass? && unchanged(this) && gameMap.allNodes == old(gameMap.allNodes)
      ensures (old(turnStage) in {Some(Move), Some(Attack)} && clickable.UnitClick? &&
               clickable.unit != old(selectedPlayerUnit.value) &&
               !(clickable.unit in old(enemyUnits) && old(InRange(selectedPlayerUnit.value, clickable.unit)))) ==>
        r.Pass? && unchanged(this) && gameMap.allNodes == old(gameMap.allNodes)
      ensures old(turnStage) in {Some(Select), Some(Attack)} && clickable.NodeClick? ==>
        r.Pass? && unchanged(this) && gameMap.allNodes == old(gameMap.allNodes)
    {
      match turnStage {
        case None =>
          return Fail(Thrown("Unexpected turn stage"));
        case Some(Select) =>
          if clickable.UnitClick? {
            HandlePlayerUnitSelection(clickable.unit);
          }
        case Some(Move) =>
          if clickable.NodeClick? {
            ghost var path, steps;
            r, path, steps := HandlePlayerUnitMove(clickable.id);
            return;
          } else {
            HandlePlayerUnitAttack(clickable.unit);
          }
        case Some(Attack) =>
          if clickable.UnitClick? {
            HandlePlayerUnitAttack(clickable.unit);
          }
      }
      r := Pass;
    }
  }
}
