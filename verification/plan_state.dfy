/** The planning state `GameState`: its fields, the goal test, the cost and
    the heuristic.

    The heuristic looks only at the FIRST peasant. If it carries cargo, the
    estimate is the remaining deficit minus the cargo plus the distance to
    the town hall; otherwise it is the deficit minus what the selected
    resource node still holds plus the distance to that node. The deficit is
    computed in Java `int` arithmetic; the rest is `double` arithmetic on
    integers small enough to be exact, so it is modelled as `int`.
 */
module PlanState {
  import opened JavaInt
  import opened Sepia
  import opened Selection

  /** A `new int[xExtent][yExtent]` grid, indexed `[x][y]`. */
  type Grid = seq<seq<int>>

  datatype GameState = GameState(
    playernum: int,
    xExtent: nat,
    yExtent: nat,
    resourceNodes: seq<ResourceNode>,
    buildPeasants: bool,
    occupancy: Grid,   // the Java field `map`
    goldMap: Grid,
    woodMap: Grid,
    allUnits: seq<Unit>,
    playerUnits: seq<Unit>,
    townHall: Unit,
    requiredGold: Int32,
    requiredWood: Int32,
    currentGold: Int32,
    currentWood: Int32,
    heuristics: int,
    cost: int)

  /** The goal test as written: both stockpiles EQUAL their targets. */
  predicate IsGoal(s: GameState) {
    s.currentGold == s.requiredGold && s.currentWood == s.requiredWood
  }

  /** Both goal tests depend on the four economic counters alone, not on
      unit positions, cargo or what the resource nodes still hold. */
  lemma GoalIgnoresEverythingElse(a: GameState, b: GameState)
    requires a.currentGold == b.currentGold && a.currentWood == b.currentWood
    requires a.requiredGold == b.requiredGold && a.requiredWood == b.requiredWood
    ensures IsGoal(a) <==> IsGoal(b)
    ensures GoalMet(a) <==> GoalMet(b)
  {
  }

  /** A stockpile above its target is never a goal under the test as written. */
  lemma OvershootIsNotGoal(s: GameState)
    requires s.currentGold > s.requiredGold || s.currentWood > s.requiredWood
    ensures !IsGoal(s)
  {
  }

  /** The goal test the documentation describes: both requirements met. */
  predicate GoalMet(s: GameState) {
    s.currentGold >= s.requiredGold && s.currentWood >= s.requiredWood
  }

  /** The corrected test accepts every state the written one accepts, and
      additionally every overshoot. */
  lemma GoalMetExtendsIsGoal(s: GameState)
    ensures IsGoal(s) ==> GoalMet(s)
    ensures GoalMet(s) && !IsGoal(s) <==>
              GoalMet(s) && (s.currentGold > s.requiredGold || s.currentWood > s.requiredWood)
  {
  }

  /** A concrete state that has collected 210 gold towards a target of 200
      with no wood required: the written test rejects it, the corrected one
      accepts it. */
  lemma OvershootCounterexample()
    ensures var s := Example(210, 200);
            !IsGoal(s) && GoalMet(s)
  {
  }

  /** A minimal state with one peasant, a town hall and one gold mine. */
  function Example(currentGold: Int32, requiredGold: Int32): GameState {
    var peasant := Unit(0, 0, PEASANT, 0);
    var hall := Unit(1, 1, TOWNHALL, 0);
    GameState(0, 2, 2, [ResourceNode(0, 1, GoldMine, 500)], false,
              [[0, 1], [0, -1]], [[0, 500], [0, 0]], [[0, 0], [0, 0]],
              [peasant, hall], [peasant], hall,
              requiredGold, 0, currentGold, 0, 0, 0)
  }

  /** `getCost`: the accumulated cost is always 0. */
  function Cost(s: GameState): int {
    0
  }

  /** What `heuristic()` needs to run without an exception: a first peasant,
      and a resource node to select when that peasant carries nothing. */
  predicate HeuristicDefined(s: GameState) {
    && |s.playerUnits| > 0
    && (s.playerUnits[0].cargoAmount <= 0 ==> |s.resourceNodes| > 0)
  }

  /** `(requiredGold - currentGold) + (requiredWood - currentWood)` in `int`. */
  function Deficit(s: GameState): Int32 {
    Add(Sub(s.requiredGold, s.currentGold), Sub(s.requiredWood, s.currentWood))
  }

  /** The node the first peasant heads for when it carries nothing. */
  function Target(s: GameState): (r: ResourceNode)
    requires |s.playerUnits| > 0 && |s.resourceNodes| > 0
    ensures r in s.resourceNodes
  {
    s.resourceNodes[OptimalIndex(s.playerUnits[0], s.resourceNodes)]
  }

  function Heuristic(s: GameState): int
    requires HeuristicDefined(s)
  {
    var p := s.playerUnits[0];
    if p.cargoAmount > 0 then
      Deficit(s) - p.cargoAmount + Distance(p.x, p.y, s.townHall.x, s.townHall.y)
    else
      var r := Target(s);
      Deficit(s) - r.amountRemaining + NodeDistance(p, r)
  }

  /** The ranges in which none of the heuristic's `int` operations overflows:
      counters below 2^30 and non-negative coordinates. */
  predicate NoOverflow(s: GameState) {
    && 0 <= s.requiredGold < 0x4000_0000 && 0 <= s.currentGold < 0x4000_0000
    && 0 <= s.requiredWood < 0x4000_0000 && 0 <= s.currentWood < 0x4000_0000
    && s.townHall.x >= 0 && s.townHall.y >= 0
    && (forall u :: u in s.playerUnits ==> u.x >= 0 && u.y >= 0)
    && (forall r :: r in s.resourceNodes ==> r.x >= 0 && r.y >= 0)
  }

  /** A peasant carrying cargo c is estimated at the deficit minus c plus its
      distance to the town hall. */
  lemma HeuristicWhileCarrying(s: GameState)
    requires HeuristicDefined(s) && NoOverflow(s)
    requires s.playerUnits[0].cargoAmount > 0
    ensures var p := s.playerUnits[0];
            Heuristic(s) ==
              (s.requiredGold - s.currentGold) + (s.requiredWood - s.currentWood)
              - p.cargoAmount + MathDistance(p.x, p.y, s.townHall.x, s.townHall.y)
  {
    var p := s.playerUnits[0];
    assert p in s.playerUnits;
    DistanceWithoutOverflow(p.x, p.y, s.townHall.x, s.townHall.y);
  }

  /** An empty-handed peasant is estimated at the deficit minus what the
      selected node holds plus its distance to that node. */
  lemma HeuristicWhileIdle(s: GameState)
    requires HeuristicDefined(s) && NoOverflow(s)
    requires s.playerUnits[0].cargoAmount <= 0
    ensures var p, r := s.playerUnits[0], Target(s);
            Heuristic(s) ==
              (s.requiredGold - s.currentGold) + (s.requiredWood - s.currentWood)
              - r.amountRemaining + MathDistance(p.x, p.y, r.x, r.y)
  {
    var p, r := s.playerUnits[0], Target(s);
    assert p in s.playerUnits;
    DistanceWithoutOverflow(p.x, p.y, r.x, r.y);
  }

  /** Only the first peasant matters: states that agree on it, on the town
      hall, on the resource nodes and on the four counters have the same
      heuristic, whatever the other peasants do. */
  lemma HeuristicOnlySeesFirstPeasant(a: GameState, b: GameState)
    requires HeuristicDefined(a) && HeuristicDefined(b)
    requires a.playerUnits[0] == b.playerUnits[0]
    requires a.townHall == b.townHall && a.resourceNodes == b.resourceNodes
    requires a.requiredGold == b.requiredGold && a.currentGold == b.currentGold
    requires a.requiredWood == b.requiredWood && a.currentWood == b.currentWood
    ensures Heuristic(a) == Heuristic(b)
  {
  }

  /** The estimate can go below zero, because the deficit is not clamped at
      0: an empty-handed peasant next to a mine holding 500 gold, with 200
      gold still to collect, is estimated at 200 - 500 + 0. */
  lemma HeuristicCanBeNegative()
    ensures var s := Example(0, 200);
            HeuristicDefined(s) && Heuristic(s) == -300
  {
    var s := Example(0, 200);
    assert OptimalIndex(s.playerUnits[0], s.resourceNodes) == 0;
    assert Distance(0, 0, 0, 1) == 0 by {
      assert Sub(0, 0) == 0 && Sub(0, 1) == -1;
    }
  }

  /** A goal state, where nothing remains to be done, whose first peasant
      still carries 1 unit five columns away from the town hall. */
  function CarryingAtGoal(): GameState {
    var peasant := Unit(5, 0, PEASANT, 1);
    var hall := Unit(0, 0, TOWNHALL, 0);
    GameState(0, 6, 1, [], false,
              [[-1], [0], [0], [0], [0], [0]],
              [[0], [0], [0], [0], [0], [0]],
              [[0], [0], [0], [0], [0], [0]],
              [peasant, hall], [peasant], hall,
              200, 0, 200, 0, 0, 0)
  }

  /** The estimate is not admissible: a goal state, whose remaining cost is
      0, is estimated at 0 - 1 + 5 = 4. */
  lemma HeuristicOverestimatesAtGoal()
    ensures var s := CarryingAtGoal();
            IsGoal(s) && HeuristicDefined(s) && Heuristic(s) == 4
  {
    assert Distance(5, 0, 0, 0) == 5 by {
      assert Sub(5, 0) == 5 && Sub(0, 0) == 0;
    }
  }

  /** A state whose cached cost and heuristic are those its constructor
      stores: `heuristics = heuristic()` and `cost = getCost()`. */
  predicate Consistent(s: GameState) {
    HeuristicDefined(s) && s.heuristics == Heuristic(s) && s.cost == Cost(s)
  }
}
