/** `equals` and `hashCode` of planning states.

    Two states are equal when their gold, their wood, their list of ALL
    units, their list of resource nodes agree and the first one's cached
    heuristic equals the heuristic RECOMPUTED on the second. The target
    amounts, the grids, the player number and the cost are not compared.
    The hash is the constant 0.
 */
module Equality {
  import opened JavaInt
  import opened PlanState
  import opened Ordering

  /** Where `equals` would throw: it evaluates `o.heuristic()` only once the
      stockpiles and unit lists have matched, and that call needs `b` to
      have a first peasant (and a node to select when it is empty-handed). */
  predicate EqualsDefined(a: GameState, b: GameState) {
    (a.currentGold == b.currentGold && a.currentWood == b.currentWood && a.allUnits == b.allUnits)
      ==> HeuristicDefined(b)
  }

  predicate Equals(a: GameState, b: GameState)
    requires EqualsDefined(a, b)
  {
    && a.currentGold == b.currentGold
    && a.currentWood == b.currentWood
    && a.allUnits == b.allUnits
    && a.heuristics == Heuristic(b)
    && a.resourceNodes == b.resourceNodes
  }

  function HashCode(s: GameState): int {
    0
  }

  /** Equal states hash alike, because every state hashes to 0. */
  lemma EqualStatesHashAlike(a: GameState, b: GameState)
    requires EqualsDefined(a, b) && Equals(a, b)
    ensures HashCode(a) == HashCode(b)
  {
  }

  /** Whatever else they share, states that differ in gold, wood, units or
      resource nodes are never equal. */
  lemma EqualsNeedsSameEconomy(a: GameState, b: GameState)
    requires EqualsDefined(a, b)
    requires a.currentGold != b.currentGold || a.currentWood != b.currentWood
             || a.allUnits != b.allUnits || a.resourceNodes != b.resourceNodes
    ensures !Equals(a, b)
  {
  }

  /** On states whose cached heuristic is the computed one, `equals` is an
      equivalence relation. */
  lemma EqualsIsEquivalence(a: GameState, b: GameState, c: GameState)
    requires Consistent(a) && Consistent(b) && Consistent(c)
    ensures Equals(a, a)
    ensures Equals(a, b) ==> Equals(b, a)
    ensures Equals(a, b) && Equals(b, c) ==> Equals(a, c)
  {
  }

  /** Equal states built by the constructor tie in the priority queue. */
  lemma EqualStatesTie(a: GameState, b: GameState)
    requires Consistent(a) && Consistent(b)
    requires Equals(a, b)
    ensures Compare(a, b) == 0
  {
  }

  /** The targets are compared only through the heuristic: a state equals
      the same state with other targets as long as the recomputed heuristic
      comes out the same. */
  lemma EqualsIgnoresTargetsWithSameHeuristic(a: GameState, g: Int32, w: Int32)
    requires Consistent(a)
    requires Heuristic(a.(requiredGold := g, requiredWood := w)) == Heuristic(a)
    ensures Equals(a, a.(requiredGold := g, requiredWood := w))
  {
  }
}
