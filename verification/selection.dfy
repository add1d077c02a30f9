/** The distance measure and the resource-node selection `getOptimalResources`.

    The distance is `max(|dx|, dy)`: the y difference is NOT passed through
    `Math.abs`, so a target in a row of larger y than the unit is measured by
    its x difference alone. The loop
    starts from a running minimum of 1000 and the first node, and replaces
    its choice whenever a node is strictly nearer than the running minimum
    OR still holds at least 100 units, whatever its distance.
 */
module Selection {
  import opened JavaInt
  import opened Sepia

  /** The running minimum the selection loop starts from. */
  const START_MIN: Int32 := 1000
  /** A node holding at least this much overrides the distance test. */
  const RICH_AMOUNT: int := 100

  /** `Math.max(Math.abs(ux - tx), uy - ty)` in Java `int` arithmetic. */
  function Distance(ux: Int32, uy: Int32, tx: Int32, ty: Int32): Int32 {
    Max(Abs(Sub(ux, tx)), Sub(uy, ty))
  }

  function NodeDistance(u: Unit, r: ResourceNode): Int32 {
    Distance(u.x, u.y, r.x, r.y)
  }

  predicate Rich(r: ResourceNode) {
    r.amountRemaining >= RICH_AMOUNT
  }

  /** max(|dx|, dy) over the integers. */
  function MathDistance(ux: int, uy: int, tx: int, ty: int): int {
    var dx := if ux >= tx then ux - tx else tx - ux;
    if dx >= uy - ty then dx else uy - ty
  }

  /** On non-negative coordinates no `int` operation of the distance
      overflows, and it is the mathematical max(|dx|, dy). */
  lemma DistanceWithoutOverflow(ux: Int32, uy: Int32, tx: Int32, ty: Int32)
    requires ux >= 0 && uy >= 0 && tx >= 0 && ty >= 0
    ensures Distance(ux, uy, tx, ty) == MathDistance(ux, uy, tx, ty)
  {
  }

  /** The y term is not an absolute value: on non-negative coordinates a
      target in a row of y at least the unit's is measured by the x
      difference alone, however many rows away it is. */
  lemma DistanceIgnoresTargetsBelow(ux: Int32, uy: Int32, tx: Int32, ty: Int32)
    requires ux >= 0 && uy >= 0 && tx >= 0 && ty >= 0
    requires uy <= ty
    ensures Distance(ux, uy, tx, ty) == (if ux >= tx then ux - tx else tx - ux)
  {
    DistanceWithoutOverflow(ux, uy, tx, ty);
  }

  /** A unit five rows above its target in the same column is at distance 0
      from it, although the target is five moves away. */
  lemma SameColumnTargetAtDistanceZero()
    ensures Distance(0, 0, 0, 5) == 0
  {
    DistanceIgnoresTargetsBelow(0, 0, 0, 5);
  }

  /** The distance measure of a unit, as a function of the node. */
  function DistanceFrom(u: Unit): ResourceNode -> Int32 {
    r => NodeDistance(u, r)
  }

  /** The loop's two variables: the running minimum and the chosen index. */
  datatype Choice = Choice(min: Int32, index: nat)

  /** Whether visiting node `r` replaces the choice `c`. */
  predicate Replaces(c: Choice, dist: ResourceNode -> Int32, r: ResourceNode) {
    dist(r) < c.min || Rich(r)
  }

  /** One iteration of the selection loop on node `k`. */
  function Step(c: Choice, dist: ResourceNode -> Int32, nodes: seq<ResourceNode>, k: nat): Choice
    requires k < |nodes|
  {
    if Replaces(c, dist, nodes[k]) then Choice(dist(nodes[k]), k) else c
  }

  /** The loop state after it has visited the first `n` nodes, measuring
      each node with `dist`. */
  function Scan(dist: ResourceNode -> Int32, nodes: seq<ResourceNode>, n: nat): (c: Choice)
    requires n <= |nodes|
    ensures n > 0 ==> c.index < n
  {
    if n == 0 then Choice(START_MIN, 0) else Step(Scan(dist, nodes, n - 1), dist, nodes, n - 1)
  }

  /** The index of the node `getOptimalResources` returns for unit `u`. */
  function OptimalIndex(u: Unit, nodes: seq<ResourceNode>): (k: nat)
    requires |nodes| > 0
    ensures k < |nodes|
  {
    Scan(DistanceFrom(u), nodes, |nodes|).index
  }

  /** The selection loop as the source writes it. */
  method GetOptimalResources(u: Unit, nodes: seq<ResourceNode>) returns (r: ResourceNode, k: nat)
    requires |nodes| > 0
    ensures k < |nodes| && r == nodes[k]
    ensures k == OptimalIndex(u, nodes)
  {
    var min: Int32 := START_MIN;
    k := 0;
    r := nodes[0];
    var i := 0;
    while i < |nodes|
      invariant 0 <= i <= |nodes|
      invariant Scan(DistanceFrom(u), nodes, i) == Choice(min, k)
      invariant k < |nodes| && r == nodes[k]
    {
      var node := nodes[i];
      var distance := NodeDistance(u, node);
      if distance < min || node.amountRemaining >= RICH_AMOUNT {
        min := distance;
        k := i;
        r := node;
      }
      i := i + 1;
    }
  }

  /** No node of `[a, n)` is strictly nearer than `m`. */
  predicate NoneNearer(dist: ResourceNode -> Int32, nodes: seq<ResourceNode>, a: nat, n: nat, m: int)
    requires a <= n <= |nodes|
  {
    forall k :: a <= k < n ==> dist(nodes[k]) >= m
  }

  /** Node `i` is the first node of `[a, n)` with the least distance. */
  predicate FirstNearest(dist: ResourceNode -> Int32, nodes: seq<ResourceNode>, a: nat, n: nat, i: nat)
    requires a <= n <= |nodes|
  {
    && a <= i < n
    && (forall k :: a <= k < n ==> dist(nodes[i]) <= dist(nodes[k]))
    && (forall k :: a <= k < i ==> dist(nodes[i]) < dist(nodes[k]))
  }

  /** Over a stretch `[a, n)` of nodes none of which is rich, the loop keeps
      its earlier choice unless some node there is strictly nearer than the
      running minimum; then it ends on the FIRST node of the stretch with the
      least distance, and that distance becomes the running minimum. */
  lemma {:induction false} ScanOverPoorNodes(dist: ResourceNode -> Int32, nodes: seq<ResourceNode>, a: nat, n: nat)
    requires a <= n <= |nodes|
    requires forall k :: a <= k < n ==> !Rich(nodes[k])
    ensures NoneNearer(dist, nodes, a, n, Scan(dist, nodes, a).min) ==> Scan(dist, nodes, n) == Scan(dist, nodes, a)
    ensures !NoneNearer(dist, nodes, a, n, Scan(dist, nodes, a).min) ==>
              && FirstNearest(dist, nodes, a, n, Scan(dist, nodes, n).index)
              && Scan(dist, nodes, n).min == dist(nodes[Scan(dist, nodes, n).index])
              && Scan(dist, nodes, n).min < Scan(dist, nodes, a).min
  {
    if n > a {
      ScanOverPoorNodes(dist, nodes, a, n - 1);
      var m := Scan(dist, nodes, a).min;
      var p := Scan(dist, nodes, n - 1);
      var d := dist(nodes[n - 1]);
      assert !Rich(nodes[n - 1]);
      if NoneNearer(dist, nodes, a, n - 1, m) {
        if d < m {
          assert Scan(dist, nodes, n) == Choice(d, n - 1);
          assert FirstNearest(dist, nodes, a, n, n - 1);
        } else {
          assert Scan(dist, nodes, n) == p;
          assert NoneNearer(dist, nodes, a, n, m);
        }
      } else {
        if d < p.min {
          assert Scan(dist, nodes, n) == Choice(d, n - 1);
          assert FirstNearest(dist, nodes, a, n, n - 1);
        } else {
          assert Scan(dist, nodes, n) == p;
          assert FirstNearest(dist, nodes, a, n, p.index);
        }
      }
    }
  }

  /** Without any rich node the selection returns the first nearest node
      among those nearer than 1000, and the first node when there is none. */
  lemma FirstNearestWhenNoneRich(u: Unit, nodes: seq<ResourceNode>)
    requires |nodes| > 0
    requires forall k :: 0 <= k < |nodes| ==> !Rich(nodes[k])
    ensures var i := OptimalIndex(u, nodes);
            (forall k :: 0 <= k < |nodes| ==> NodeDistance(u, nodes[k]) >= START_MIN) ==> i == 0
    ensures var i := OptimalIndex(u, nodes);
            (exists k :: 0 <= k < |nodes| && NodeDistance(u, nodes[k]) < START_MIN) ==>
              && NodeDistance(u, nodes[i]) < START_MIN
              && (forall k :: 0 <= k < |nodes| ==> NodeDistance(u, nodes[i]) <= NodeDistance(u, nodes[k]))
              && (forall k :: 0 <= k < i ==> NodeDistance(u, nodes[i]) < NodeDistance(u, nodes[k]))
  {
    ScanOverPoorNodes(DistanceFrom(u), nodes, 0, |nodes|);
  }

  /** When node `last` is the last rich node, the selection ends on it unless
      some later node is strictly nearer than it; then it ends on the first
      nearest of those later nodes. Either way nothing before `last` wins. */
  lemma LastRichNodeOverrides(u: Unit, nodes: seq<ResourceNode>, last: nat)
    requires last < |nodes| && Rich(nodes[last])
    requires forall k :: last < k < |nodes| ==> !Rich(nodes[k])
    ensures last <= OptimalIndex(u, nodes)
    ensures var d := NodeDistance(u, nodes[last]);
            (forall k :: last < k < |nodes| ==> NodeDistance(u, nodes[k]) >= d) ==>
              OptimalIndex(u, nodes) == last
    ensures var d, i := NodeDistance(u, nodes[last]), OptimalIndex(u, nodes);
            (exists k :: last < k < |nodes| && NodeDistance(u, nodes[k]) < d) ==>
              && last < i
              && NodeDistance(u, nodes[i]) < d
              && (forall k :: last < k < |nodes| ==> NodeDistance(u, nodes[i]) <= NodeDistance(u, nodes[k]))
              && (forall k :: last < k < i ==> NodeDistance(u, nodes[i]) < NodeDistance(u, nodes[k]))
  {
    var dist := DistanceFrom(u);
    assert Scan(dist, nodes, last + 1) == Choice(NodeDistance(u, nodes[last]), last);
    ScanOverPoorNodes(dist, nodes, last + 1, |nodes|);
  }

  /** If no node is rich and none is nearer than 1000, nothing qualifies in
      the loop and the first node is returned. */
  lemma NothingQualifiesGivesFirst(u: Unit, nodes: seq<ResourceNode>)
    requires |nodes| > 0
    requires forall k :: 0 <= k < |nodes| ==> !Rich(nodes[k]) && NodeDistance(u, nodes[k]) >= START_MIN
    ensures OptimalIndex(u, nodes) == 0
  {
    FirstNearestWhenNoneRich(u, nodes);
  }
}
