# GameState: the planning state of a resource-gathering planner

This project models `GameState`, the search node of an A*-style planner for the SEPIA
real-time-strategy environment. The planner must gather target amounts of gold and wood.
The class does five things, and the model covers all of them:

- builds the root node from the engine's state view: three `xExtent × yExtent` grids
  (occupancy, gold amounts, wood amounts), the peasants, the town hall and the two stockpiles;
- tests for the goal;
- computes a heuristic from the first peasant, selecting a resource node with `getOptimalResources`;
- orders states for the priority queue (`compareTo`);
- compares and hashes states (`equals`, `hashCode`).

The engine's view objects are plain immutable records (`Sepia`). Java's 32-bit `int` arithmetic
is written out (`JavaInt`): wrap-around on `+` and `-`, and `Math.abs(MIN_VALUE) == MIN_VALUE`.
The heuristic and cost are Java `double`s, but every value is a sum of a few `int`s. Those sums
are exact in a double, so the model uses `int`.

Modules, one per concern:

- `JavaInt`: the `Int32` type and the `int` operations the class uses.
- `Sepia`: resource nodes, units and the state view.
- `Selection`: the distance `max(|dx|, dy)` and `getOptimalResources`.
- `PlanState`: the `GameState` record, `isGoal`, `getCost` and `heuristic`.
- `Construction`: the constructor.
- `Ordering`: `compareTo`.
- `Equality`: `equals` and `hashCode`.

The model follows the code, including where it departs from the usual design of an A* search node:

- The goal test uses equality, not `>=`. This is logged below as a finding.
- The distance leaves the y difference without `abs`.
- A node holding at least 100 units overrides the distance in the selection loop.
- `compareTo` has no FIFO tie-break.
- `equals` compares the heuristic and the list of all units, not the economic configuration alone.
- The heuristic is not admissible: a goal state can be estimated above 0. It can also be negative, because the deficit is not clamped at 0.

The places where the code would throw become preconditions:

- a resource node or the town hall outside the grids;
- no unit named "townhall";
- a player without stockpiles;
- no peasant;
- an empty-handed first peasant with no resource node to select.

## Model

| member | source | states |
|---|---|---|
| JavaInt.Sub | P4agents/GameState.java:231-232 | `int` subtraction is exact when the difference fits in 32 bits, and otherwise is off by exactly one modulus 2^32 |
| JavaInt.Add | P4agents/GameState.java:233 | `int` addition of the two deficits is exact when it fits, and otherwise wraps by one modulus |
| JavaInt.Abs | P4agents/GameState.java:254 | `Math.abs` gives the magnitude of every value except `MIN_VALUE`, which stays negative |
| JavaInt.Max | P4agents/GameState.java:254 | `Math.max` returns one of its arguments, and that argument is at least as large as both |
| Selection.DistanceWithoutOverflow | P4agents/GameState.java:254 | on non-negative coordinates the `int` distance equals the mathematical max(\|dx\|, dy) |
| Selection.DistanceIgnoresTargetsBelow | P4agents/GameState.java:238 | because the y difference has no `abs`, a target in a row of y at least the unit's is measured by the x difference alone |
| Selection.SameColumnTargetAtDistanceZero | P4agents/GameState.java:238 | a target 5 rows away in the same column is at distance 0 |
| Selection.OptimalIndex | P4agents/GameState.java:250-262 | the selected node is always an element of the non-empty node list |
| Selection.GetOptimalResources | P4agents/GameState.java:250-262 | the loop with running minimum 1000 returns a node of the list, the one the selection defines |
| Selection.ScanOverPoorNodes | P4agents/GameState.java:253-259 | over a stretch of nodes below 100 units, the loop keeps its choice unless a node beats the running minimum; if one does, it ends on the first node of least distance |
| Selection.FirstNearestWhenNoneRich | P4agents/GameState.java:251-258 | with no node of 100 or more, the result is the first node of least distance among those nearer than 1000, or node 0 if none is |
| Selection.LastRichNodeOverrides | P4agents/GameState.java:255-258 | the last node with 100 or more wins unless a later node is strictly nearer; then the first nearest later node wins; no earlier node wins |
| Selection.NothingQualifiesGivesFirst | P4agents/GameState.java:251-252 | if no node qualifies in the loop, the first node is returned |
| PlanState.GoalIgnoresEverythingElse | P4agents/GameState.java:199-205 | the goal test depends on current and required gold and wood alone |
| PlanState.OvershootIsNotGoal | P4agents/GameState.java:201 | a stockpile above its target is never a goal |
| PlanState.GoalMetExtendsIsGoal | P4agents/GameState.java:193-197 | the documented test (requirements met) accepts every state the written test accepts, plus exactly the overshoots |
| PlanState.OvershootCounterexample | P4agents/GameState.java:199-205 | 210 gold towards a target of 200 fails the written test and passes the documented one |
| PlanState.Target | P4agents/GameState.java:241 | the node an empty-handed first peasant heads for is one of the state's resource nodes |
| PlanState.HeuristicWhileCarrying | P4agents/GameState.java:230-239 | a first peasant carrying c is estimated at (requiredGold − currentGold) + (requiredWood − currentWood) − c + max(\|dx\|, dy) to the town hall |
| PlanState.HeuristicWhileIdle | P4agents/GameState.java:240-244 | an empty-handed first peasant is estimated at the same deficit − the selected node's amount + max(\|dx\|, dy) to that node |
| PlanState.HeuristicOnlySeesFirstPeasant | P4agents/GameState.java:235 | states that agree on the first peasant, town hall, nodes and counters have the same heuristic, whatever the other peasants are |
| PlanState.HeuristicCanBeNegative | P4agents/GameState.java:228-248 | an empty-handed peasant beside a 500-gold mine with 200 gold to go is estimated at −300 |
| PlanState.HeuristicOverestimatesAtGoal | P4agents/GameState.java:228-239 | a goal state whose first peasant carries 1 unit five columns from the town hall is estimated at 4, although nothing remains to be done |
| Construction.LastAmountIsLastWriter | P4agents/GameState.java:163-171 | a grid cell holds the amount of the last node of that kind on the cell, or 0 if there is none |
| Construction.PeasantsAreThePeasants | P4agents/GameState.java:174-177 | the player's units are exactly the units named "peasant", and the first of them is the first peasant in unit order |
| Construction.LastTownHallIsLast | P4agents/GameState.java:178-180 | a town hall is found exactly when some unit is named "townhall", and it is the last such unit |
| Construction.FillResourceGrids | P4agents/GameState.java:152-171 | the occupancy grid is 1 exactly at resource cells; the gold and wood grids hold the last amount of that kind per cell and 0 elsewhere |
| Construction.ClassifyUnits | P4agents/GameState.java:173-181 | the unit loop collects the peasants in order and keeps the last town hall |
| Construction.NewGameState | P4agents/GameState.java:140-190 | the root state: the occupancy grid is −1 at the town hall, 1 at other resource cells and 0 elsewhere; gold and wood grids, unit classification and stockpiles are as above; the cached heuristic is the computed one and the cost is 0 |
| Ordering.Compare | P4agents/GameState.java:284-297 | `compareTo` returns only −1, 0 or 1, with 0 exactly when cost + heuristics agree and 1 exactly when this state's is larger |
| Ordering.CompareAntisymmetric | P4agents/GameState.java:284-297 | compare(a, b) = −compare(b, a) |
| Ordering.CompareTotalPreorder | P4agents/GameState.java:284-297 | "compare ≤ 0" is reflexive, transitive and total |
| Ordering.CompareStrictTransitive | P4agents/GameState.java:284-297 | "compare < 0" is transitive, and passes through ties |
| Ordering.ConsistentStatesOrderedByHeuristic | P4agents/GameState.java:271-274 | since `getCost` is 0, constructed states have f = h and are ordered by heuristic alone |
| Equality.EqualStatesHashAlike | P4agents/GameState.java:326-330 | equal states have equal hashes, because the hash is constantly 0 |
| Equality.EqualsNeedsSameEconomy | P4agents/GameState.java:306-318 | states that differ in gold, wood, unit list or resource list are never equal |
| Equality.EqualsIsEquivalence | P4agents/GameState.java:306-318 | on states whose cached heuristic is the computed one, `equals` is reflexive, symmetric and transitive |
| Equality.EqualStatesTie | P4agents/GameState.java:306-318 | equal constructed states compare as 0 in the priority queue |
| Equality.EqualsIgnoresTargetsWithSameHeuristic | P4agents/GameState.java:308-312 | targets are not compared directly: changing them keeps a state equal as long as the recomputed heuristic is unchanged |

## Findings

| source | as written | input that shows it | evidently intended | confidence | as-written member | corrected member |
|---|---|---|---|---|---|---|
| P4agents/GameState.java:201 | `isGoal` holds only when `currentGold == requiredGold && currentWood == requiredWood` | 210 gold collected towards a target of 200, no wood required: not a goal | a goal as soon as both requirements are met (`>=`), as the method's documentation at lines 193-195 says | medium, not executed | PlanState.OvershootCounterexample | PlanState.GoalMetExtendsIsGoal |

`PlanState.IsGoal` is the test as written. `PlanState.GoalMet` is the corrected test. No other part of the model calls either test.

## Left out

- `generateChildren` (P4agents/GameState.java:215-218) returns `null`. There is no action model to verify.
- `getCost` (P4agents/GameState.java:271-274) returns 0. It is modelled as `PlanState.Cost`, a constant.
- The search engine, plan execution, action translation, rendering and scenario selection are not part of this class.
- The engine's `StateView`, `UnitView` and `ResourceView` are replaced by records. Their real behaviour cannot be seen from this class.
- The trivial getters (P4agents/GameState.java:65-127) and the stored `state` field are left out. Nothing in the modelled operations reads them.
- The template name test `getName() == "peasant"` compares string references in Java. Whether the engine's names are interned cannot be judged from this class, so it is modelled as string equality.
- The class documentation says template names are read with `getName().toLowerCase()`, but the unit loop (P4agents/GameState.java:175, 178) compares the raw name. The model compares the raw name too. If the engine's template names were capitalised, no unit would match, no town hall would be found, and the constructor would throw at line 183. The engine's names cannot be seen from this class, so this stays a possible defect, and `Construction.NewGameState` requires a unit named exactly "townhall".
- No unit is filtered by player number, because the code applies no such filter.
- `allUnits.equals` and `resourceNodes.equals` depend on the engine views' `equals`, which cannot be seen here. They are modelled as value equality of the records.
- `equals` on an object that is not a `GameState` returns false. The Dafny comparison is typed, so that case cannot arise.
- `heuristics` and `cost` are Java doubles. They are modelled as integers, which is exact for these values; no IEEE rounding is modelled.
- The grid extents are natural numbers. A negative extent from the engine would throw `NegativeArraySizeException`, and that case is not modelled.
- `getResourceAmount` for a player missing from the view is not modelled. The constructor requires the player to have both stockpiles.
- The explicit zeroing loop (P4agents/GameState.java:155-161) is modelled as zero-filled allocation. It has the same effect, because Java arrays start at 0.
- PlanState.HeuristicWhileCarrying: states the closed formula only when no `int` operation can overflow (counters below 2^30, non-negative coordinates). Outside that range `PlanState.Heuristic` follows Java's wrap-around.
- PlanState.HeuristicWhileIdle: the same range restriction as `HeuristicWhileCarrying`.
