/** The constructor `GameState(StateView, playernum, requiredGold,
    requiredWood, buildPeasants)` that builds the root search node.

    It allocates three `xExtent x yExtent` grids. Every resource node marks
    its cell 1 in the occupancy grid and writes its amount into the gold grid
    (gold mines) or the wood grid (trees); a later node on the same cell
    overwrites an earlier one. It then sorts the units: every unit whose
    template is named "peasant" joins the player's units, in order, and the
    LAST unit named "townhall" becomes the town hall, whose cell is then
    marked -1. Finally it reads the player's two stockpiles and caches the
    heuristic and the cost.
 */
module Construction {
  import opened JavaInt
  import opened Sepia
  import opened PlanState

  /** `g` has the shape of `new int[xExtent][yExtent]`. */
  predicate IsGrid(g: Grid, xExtent: nat, yExtent: nat) {
    |g| == xExtent && forall x :: 0 <= x < xExtent ==> |g[x]| == yExtent
  }

  /** `g[x][y] = v`. */
  function SetCell(g: Grid, xExtent: nat, yExtent: nat, x: int, y: int, v: int): (g': Grid)
    requires IsGrid(g, xExtent, yExtent) && InGrid(xExtent, yExtent, x, y)
    ensures IsGrid(g', xExtent, yExtent)
    ensures g'[x][y] == v
    ensures forall i, j :: InGrid(xExtent, yExtent, i, j) && (i != x || j != y) ==> g'[i][j] == g[i][j]
  {
    g[x := g[x][y := v]]
  }

  /** Some node among the first `n` lies on cell (x, y). */
  predicate NodeAt(nodes: seq<ResourceNode>, n: nat, x: int, y: int)
    requires n <= |nodes|
  {
    exists k :: 0 <= k < n && nodes[k].x == x && nodes[k].y == y
  }

  predicate KindAt(r: ResourceNode, kind: ResourceKind, x: int, y: int) {
    r.kind == kind && r.x == x && r.y == y
  }

  /** What the grid for `kind` holds at (x, y) once the first `n` nodes have
      been written, told from the end: the last node's amount when it is of
      that kind on that cell, else what the nodes before it left there. */
  function LastAmount(nodes: seq<ResourceNode>, kind: ResourceKind, n: nat, x: int, y: int): int
    requires n <= |nodes|
  {
    if n == 0 then 0
    else if KindAt(nodes[n - 1], kind, x, y) then nodes[n - 1].amountRemaining
    else LastAmount(nodes, kind, n - 1, x, y)
  }

  /** The grid value is that of the last node of the kind on the cell, and 0
      when the cell has no node of that kind. */
  lemma {:induction false} LastAmountIsLastWriter(nodes: seq<ResourceNode>, kind: ResourceKind, n: nat, x: int, y: int)
    requires n <= |nodes|
    ensures (forall k :: 0 <= k < n ==> !KindAt(nodes[k], kind, x, y)) ==> LastAmount(nodes, kind, n, x, y) == 0
    ensures (exists k :: 0 <= k < n && KindAt(nodes[k], kind, x, y)) ==>
              exists k :: && 0 <= k < n && KindAt(nodes[k], kind, x, y)
                          && LastAmount(nodes, kind, n, x, y) == nodes[k].amountRemaining
                          && forall j :: k < j < n ==> !KindAt(nodes[j], kind, x, y)
  {
    if n > 0 && !KindAt(nodes[n - 1], kind, x, y) {
      LastAmountIsLastWriter(nodes, kind, n - 1, x, y);
    }
  }

  /** The peasants among `units`, in their order. */
  function Peasants(units: seq<Unit>): seq<Unit>
  {
    if units == [] then []
    else Peasants(units[..|units| - 1]) + (if IsPeasant(units[|units| - 1]) then [units[|units| - 1]] else [])
  }

  /** The player's units are exactly the peasants, and the first of them,
      the one the heuristic looks at, is the first peasant in unit order. */
  lemma {:induction false} PeasantsAreThePeasants(units: seq<Unit>)
    ensures forall u :: u in Peasants(units) <==> u in units && IsPeasant(u)
    ensures Peasants(units) != [] ==>
              exists k :: && 0 <= k < |units| && units[k] == Peasants(units)[0]
                          && forall j :: 0 <= j < k ==> !IsPeasant(units[j])
  {
    if units != [] {
      var init, last := units[..|units| - 1], units[|units| - 1];
      assert units == init + [last];
      PeasantsAreThePeasants(init);
    }
  }

  /** The last unit of `units` named "townhall", if any. */
  function LastTownHall(units: seq<Unit>): Option<Unit>
  {
    if units == [] then None
    else if IsTownHall(units[|units| - 1]) then Some(units[|units| - 1])
    else LastTownHall(units[..|units| - 1])
  }

  /** A town hall is found exactly when some unit is one, and it is the last
      such unit. */
  lemma {:induction false} LastTownHallIsLast(units: seq<Unit>)
    ensures LastTownHall(units).None? <==> forall k :: 0 <= k < |units| ==> !IsTownHall(units[k])
    ensures LastTownHall(units).Some? ==>
              exists k :: && 0 <= k < |units| && units[k] == LastTownHall(units).value && IsTownHall(units[k])
                          && forall j :: k < j < |units| ==> !IsTownHall(units[j])
  {
    if units != [] && !IsTownHall(units[|units| - 1]) {
      var init := units[..|units| - 1];
      LastTownHallIsLast(init);
      assert forall k :: 0 <= k < |init| ==> init[k] == units[k];
    }
  }

  /** The occupancy grid once the first `n` nodes have marked their cells:
      1 on every cell some of them lie on, 0 elsewhere. */
  function OccupancyGrid(nodes: seq<ResourceNode>, n: nat, X: nat, Y: nat): (g: Grid)
    requires n <= |nodes|
    ensures IsGrid(g, X, Y)
  {
    seq(X, x => seq(Y, y => if NodeAt(nodes, n, x, y) then 1 else 0))
  }

  /** The grid of `kind` once the first `n` nodes have written their
      amounts: on each cell, what `LastAmount` says the last writer left. */
  function KindGrid(nodes: seq<ResourceNode>, kind: ResourceKind, n: nat, X: nat, Y: nat): (g: Grid)
    requires n <= |nodes|
    ensures IsGrid(g, X, Y)
  {
    seq(X, x => seq(Y, y => LastAmount(nodes, kind, n, x, y)))
  }

  /** The two loops over the resource nodes: allocate three zeroed grids,
      then let every node mark its cell in the occupancy grid and write its
      amount into the grid of its kind. */
  method FillResourceGrids(nodes: seq<ResourceNode>, X: nat, Y: nat)
    returns (occupancy: Grid, goldMap: Grid, woodMap: Grid)
    requires forall r :: r in nodes ==> InGrid(X, Y, r.x, r.y)
    ensures occupancy == OccupancyGrid(nodes, |nodes|, X, Y)
    ensures goldMap == KindGrid(nodes, GoldMine, |nodes|, X, Y)
    ensures woodMap == KindGrid(nodes, Tree, |nodes|, X, Y)
  {
    var blank: Grid := seq(X, _ => seq(Y, _ => 0));
    occupancy, goldMap, woodMap := blank, blank, blank;
    GridsEqual(blank, OccupancyGrid(nodes, 0, X, Y), X, Y);
    GridsEqual(blank, KindGrid(nodes, GoldMine, 0, X, Y), X, Y);
    GridsEqual(blank, KindGrid(nodes, Tree, 0, X, Y), X, Y);
    var n := 0;
    while n < |nodes|
      invariant n <= |nodes|
      invariant occupancy == OccupancyGrid(nodes, n, X, Y)
      invariant goldMap == KindGrid(nodes, GoldMine, n, X, Y)
      invariant woodMap == KindGrid(nodes, Tree, n, X, Y)
    {
      var r := nodes[n];
      assert r in nodes;
      OccupancyStep(nodes, n, X, Y);
      occupancy := SetCell(occupancy, X, Y, r.x, r.y, 1);
      if r.kind == GoldMine {
        KindGridWrite(nodes, GoldMine, n, X, Y);
        KindGridSkip(nodes, Tree, n, X, Y);
        goldMap := SetCell(goldMap, X, Y, r.x, r.y, r.amountRemaining);
      } else if r.kind == Tree {
        KindGridSkip(nodes, GoldMine, n, X, Y);
        KindGridWrite(nodes, Tree, n, X, Y);
        woodMap := SetCell(woodMap, X, Y, r.x, r.y, r.amountRemaining);
      }
      n := n + 1;
    }
  }

  /** Marking node `n`'s cell turns the occupancy grid of `n` nodes into that
      of `n + 1` nodes. */
  lemma OccupancyStep(nodes: seq<ResourceNode>, n: nat, X: nat, Y: nat)
    requires n < |nodes| && InGrid(X, Y, nodes[n].x, nodes[n].y)
    ensures SetCell(OccupancyGrid(nodes, n, X, Y), X, Y, nodes[n].x, nodes[n].y, 1) == OccupancyGrid(nodes, n + 1, X, Y)
  {
    var g, g' := OccupancyGrid(nodes, n, X, Y), OccupancyGrid(nodes, n + 1, X, Y);
    var h := SetCell(g, X, Y, nodes[n].x, nodes[n].y, 1);
    forall x, y | InGrid(X, Y, x, y)
      ensures h[x][y] == g'[x][y]
    {
      if x == nodes[n].x && y == nodes[n].y {
        assert NodeAt(nodes, n + 1, x, y);
      } else {
        assert NodeAt(nodes, n + 1, x, y) <==> NodeAt(nodes, n, x, y);
      }
    }
    GridsEqual(h, g', X, Y);
  }

  /** Writing node `n` of `kind` turns the grid of `kind` for `n` nodes into
      that for `n + 1` nodes. */
  lemma KindGridWrite(nodes: seq<ResourceNode>, kind: ResourceKind, n: nat, X: nat, Y: nat)
    requires n < |nodes| && InGrid(X, Y, nodes[n].x, nodes[n].y) && nodes[n].kind == kind
    ensures SetCell(KindGrid(nodes, kind, n, X, Y), X, Y, nodes[n].x, nodes[n].y, nodes[n].amountRemaining)
            == KindGrid(nodes, kind, n + 1, X, Y)
  {
    var h := SetCell(KindGrid(nodes, kind, n, X, Y), X, Y, nodes[n].x, nodes[n].y, nodes[n].amountRemaining);
    GridsEqual(h, KindGrid(nodes, kind, n + 1, X, Y), X, Y);
  }

  /** A node of another kind leaves the grid of `kind` as it was. */
  lemma KindGridSkip(nodes: seq<ResourceNode>, kind: ResourceKind, n: nat, X: nat, Y: nat)
    requires n < |nodes| && nodes[n].kind != kind
    ensures KindGrid(nodes, kind, n, X, Y) == KindGrid(nodes, kind, n + 1, X, Y)
  {
    GridsEqual(KindGrid(nodes, kind, n, X, Y), KindGrid(nodes, kind, n + 1, X, Y), X, Y);
  }

  /** Two grids of one shape that agree on every cell are equal. */
  lemma GridsEqual(g: Grid, h: Grid, X: nat, Y: nat)
    requires IsGrid(g, X, Y) && IsGrid(h, X, Y)
    requires forall x, y :: InGrid(X, Y, x, y) ==> g[x][y] == h[x][y]
    ensures g == h
  {
    forall x | 0 <= x < X
      ensures g[x] == h[x]
    {
      assert forall y :: 0 <= y < Y ==> g[x][y] == h[x][y];
    }
  }

  /** The loop over all units: peasants are collected in order, and every
      town hall met replaces the one seen before. */
  method ClassifyUnits(units: seq<Unit>) returns (playerUnits: seq<Unit>, townHall: Option<Unit>)
    ensures playerUnits == Peasants(units)
    ensures townHall == LastTownHall(units)
  {
    playerUnits, townHall := [], None;
    var i := 0;
    while i < |units|
      invariant i <= |units|
      invariant playerUnits == Peasants(units[..i])
      invariant townHall == LastTownHall(units[..i])
    {
      var u := units[i];
      assert units[..i + 1][..i] == units[..i];
      if u.templateName == PEASANT {
        playerUnits := playerUnits + [u];
      }
      if u.templateName == TOWNHALL {
        townHall := Some(u);
      }
      i := i + 1;
    }
    assert units[..|units|] == units;
  }

  /** Builds the root planning state from the engine's view. The requires
      clauses are the places where the constructor would throw: a resource
      node or the town hall outside the grids, no town hall at all, a player
      without stockpiles, and the two crash points of the heuristic it calls
      (no peasant; no resource node for an empty-handed first peasant). */
  method NewGameState(view: StateView, playernum: int, requiredGold: Int32, requiredWood: Int32, buildPeasants: bool)
    returns (s: GameState)
    requires forall r :: r in view.resourceNodes ==> InGrid(view.xExtent, view.yExtent, r.x, r.y)
    requires LastTownHall(view.units).Some?
    requires InGrid(view.xExtent, view.yExtent, LastTownHall(view.units).value.x, LastTownHall(view.units).value.y)
    requires playernum in view.gold && playernum in view.wood
    requires |Peasants(view.units)| > 0
    requires Peasants(view.units)[0].cargoAmount <= 0 ==> |view.resourceNodes| > 0
    ensures s.playernum == playernum && s.buildPeasants == buildPeasants
    ensures s.xExtent == view.xExtent && s.yExtent == view.yExtent
    ensures s.resourceNodes == view.resourceNodes && s.allUnits == view.units
    ensures s.playerUnits == Peasants(view.units)
    ensures s.townHall == LastTownHall(view.units).value
    ensures s.requiredGold == requiredGold && s.requiredWood == requiredWood
    ensures s.currentGold == view.gold[playernum] && s.currentWood == view.wood[playernum]
    ensures IsGrid(s.occupancy, s.xExtent, s.yExtent)
    ensures IsGrid(s.goldMap, s.xExtent, s.yExtent) && IsGrid(s.woodMap, s.xExtent, s.yExtent)
    ensures forall x, y :: InGrid(s.xExtent, s.yExtent, x, y) ==>
              s.occupancy[x][y] ==
                if x == s.townHall.x && y == s.townHall.y then -1
                else if NodeAt(s.resourceNodes, |s.resourceNodes|, x, y) then 1
                else 0
    ensures forall x, y :: InGrid(s.xExtent, s.yExtent, x, y) ==>
              s.goldMap[x][y] == LastAmount(s.resourceNodes, GoldMine, |s.resourceNodes|, x, y)
    ensures forall x, y :: InGrid(s.xExtent, s.yExtent, x, y) ==>
              s.woodMap[x][y] == LastAmount(s.resourceNodes, Tree, |s.resourceNodes|, x, y)
    ensures Consistent(s)
  {
    var X, Y := view.xExtent, view.yExtent;
    var occupancy, goldMap, woodMap := FillResourceGrids(view.resourceNodes, X, Y);
    var playerUnits, townHall := ClassifyUnits(view.units);
    var hall := townHall.value;
    occupancy := SetCell(occupancy, X, Y, hall.x, hall.y, -1);
    var start := GameState(playernum, X, Y, view.resourceNodes, buildPeasants, occupancy, goldMap, woodMap,
                           view.units, playerUnits, hall, requiredGold, requiredWood,
                           view.gold[playernum], view.wood[playernum], 0, 0);
    s := start.(heuristics := Heuristic(start), cost := Cost(start));
  }
}
