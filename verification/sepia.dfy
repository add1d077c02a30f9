/** The parts of the game engine's read-only state view that the planning
    state reads, as plain immutable records.

    The engine's `StateView`, `UnitView` and `ResourceView` objects are
    replaced by the values the planner actually asks them for: positions,
    the resource kind and amount left, the unit's template name and cargo,
    the map extents and each player's gold and wood stockpile.
 */
module Sepia {
  import opened JavaInt

  const PEASANT: string := "peasant"
  const TOWNHALL: string := "townhall"

  datatype Option<T> = None | Some(value: T)

  /** The two resource kinds the engine places on the map. */
  datatype ResourceKind = GoldMine | Tree

  datatype ResourceNode = ResourceNode(x: Int32, y: Int32, kind: ResourceKind, amountRemaining: Int32)

  /** A unit of any player: a peasant, the town hall, or another template. */
  datatype Unit = Unit(x: Int32, y: Int32, templateName: string, cargoAmount: Int32)

  /** The engine's snapshot. `gold` and `wood` hold each player's stockpile,
      keyed by player number. */
  datatype StateView = StateView(
    xExtent: nat,
    yExtent: nat,
    resourceNodes: seq<ResourceNode>,
    units: seq<Unit>,
    gold: map<int, Int32>,
    wood: map<int, Int32>)

  predicate IsPeasant(u: Unit) {
    u.templateName == PEASANT
  }

  predicate IsTownHall(u: Unit) {
    u.templateName == TOWNHALL
  }

  /** A cell that a `new int[xExtent][yExtent]` grid can index. */
  predicate InGrid(xExtent: nat, yExtent: nat, x: int, y: int) {
    0 <= x < xExtent && 0 <= y < yExtent
  }
}
