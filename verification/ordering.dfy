/** `compareTo`: the priority-queue order of planning states.

    States are compared by their cached `cost + heuristics`, the A* value f,
    and the answer is only ever -1, 0 or 1. There is no tie-break: states
    with equal f compare as 0 whatever else differs.
 */
module Ordering {
  import opened PlanState

  /** The A* value f = g + h from the cached fields. */
  function F(s: GameState): int {
    s.cost + s.heuristics
  }

  function Compare(a: GameState, b: GameState): (r: int)
    ensures r == -1 || r == 0 || r == 1
    ensures r == 0 <==> F(a) == F(b)
    ensures r == 1 <==> F(a) > F(b)
    ensures r == -1 <==> F(a) < F(b)
  {
    if F(a) > F(b) then 1
    else if F(a) == F(b) then 0
    else -1
  }

  /** Swapping the arguments negates the answer. */
  lemma CompareAntisymmetric(a: GameState, b: GameState)
    ensures Compare(a, b) == -Compare(b, a)
  {
  }

  /** `Compare(a, b) <= 0` is a total preorder: reflexive, transitive and
      total. */
  lemma CompareTotalPreorder(a: GameState, b: GameState, c: GameState)
    ensures Compare(a, a) == 0
    ensures Compare(a, b) <= 0 && Compare(b, c) <= 0 ==> Compare(a, c) <= 0
    ensures Compare(a, b) <= 0 || Compare(b, a) <= 0
  {
  }

  /** Strictly-before is transitive too, and agrees with the order of f. */
  lemma CompareStrictTransitive(a: GameState, b: GameState, c: GameState)
    ensures Compare(a, b) < 0 && Compare(b, c) < 0 ==> Compare(a, c) < 0
    ensures Compare(a, b) < 0 && Compare(b, c) == 0 ==> Compare(a, c) < 0
  {
  }

  /** With `getCost` constantly 0, states built by the constructor are
      ordered by their heuristic alone. */
  lemma ConsistentStatesOrderedByHeuristic(a: GameState, b: GameState)
    requires Consistent(a) && Consistent(b)
    ensures F(a) == Heuristic(a) && F(b) == Heuristic(b)
    ensures Compare(a, b) < 0 <==> Heuristic(a) < Heuristic(b)
    ensures Compare(a, b) == 0 <==> Heuristic(a) == Heuristic(b)
  {
  }
}
