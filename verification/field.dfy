/** Generation of the playing field from a Voronoi diagram: the neighbour and
    border pass over the diagram's edges, the choice of each faction's start
    cell, and the initial armies. The diagram itself (sites, edges, and the
    edge indices around each cell) is an input. */
module Field {
  import opened Arena

  /** Squared Euclidean distance from `p` to the anchor `a`. */
  function SqDist(p: Point, a: Point): (d: real)
    ensures d >= 0.0
  {
    (p.x - a.x) * (p.x - a.x) + (p.y - a.y) * (p.y - a.y)
  }

  /** The squared distance of every cell's site from the anchor, in arena order. */
  function Distances(cells: seq<Cell>, a: Point): seq<real>
  {
    seq(|cells|, i requires 0 <= i < |cells| => SqDist(cells[i].location, a))
  }

  /** The index of the last distance that is exactly zero, or -1 if none is. */
  function LastZero(ds: seq<real>): (j: int)
    ensures -1 <= j < |ds|
    ensures 0 <= j ==> ds[j] == 0.0
    ensures forall t :: j < t < |ds| ==> ds[t] != 0.0
  {
    if |ds| == 0 then -1
    else if ds[|ds| - 1] == 0.0 then |ds| - 1
    else LastZero(ds[..|ds| - 1])
  }

  /** `k` is the first position from `lo` on whose distance is minimal among
      the positions from `lo` on. */
  ghost predicate IsFirstMin(ds: seq<real>, lo: nat, k: nat)
  {
    && lo <= k < |ds|
    && (forall t :: lo <= t < |ds| ==> ds[k] <= ds[t])
    && (forall t :: lo <= t < k ==> ds[k] < ds[t])
  }

  /** The cell the closest-cell scan ends on. The scan treats a running minimum
      of exactly zero like no minimum at all, so the next cell always displaces
      a cell that sits exactly on the anchor: the result is the first nearest
      cell after the last exact hit, the exact hit itself only when it is the
      last cell, and the first nearest cell overall when there is no exact hit. */
  ghost predicate Picks(ds: seq<real>, k: nat)
  {
    var j := LastZero(ds);
    if j < 0 then IsFirstMin(ds, 0, k)
    else if j == |ds| - 1 then k == j
    else IsFirstMin(ds, j + 1, k)
  }

  /** The linear scan for the cell whose site is nearest to (x, y). */
  method FindClosest(cells: seq<Cell>, x: real, y: real) returns (closest: Option<nat>)
    ensures closest.None? <==> |cells| == 0
    ensures closest.Some? ==> closest.value < |cells| && Picks(Distances(cells, Point(x, y)), closest.value)
  {
    ghost var ds := Distances(cells, Point(x, y));
    var minDistance: Option<real> := None;
    closest := None;
    for i := 0 to |cells|
      invariant closest.None? <==> i == 0
      invariant closest.None? <==> minDistance.None?
      invariant closest.Some? ==> closest.value < i && minDistance.value == ds[closest.value]
      invariant closest.Some? ==> Picks(ds[..i], closest.value)
    {
      var distance := SqDist(cells[i].location, Point(x, y));
      if closest.Some? {
        ScanStep(ds, i, closest.value);
      } else {
        assert Picks(ds[..1], 0);
      }
      if minDistance.None? || minDistance.value == 0.0 || distance < minDistance.value {
        minDistance := Some(distance);
        closest := Some(i);
      }
    }
    assert ds[..|cells|] == ds;
  }

  /** One step of the scan: cell `i` displaces the running choice `k` when the
      running minimum is zero or cell `i` is strictly nearer. */
  lemma ScanStep(ds: seq<real>, i: nat, k: nat)
    requires k < i < |ds| && ds[k] >= 0.0
    requires Picks(ds[..i], k)
    ensures ds[k] == 0.0 || ds[i] < ds[k] ==> Picks(ds[..i + 1], i)
    ensures !(ds[k] == 0.0 || ds[i] < ds[k]) ==> Picks(ds[..i + 1], k)
  {
    var pre, next := ds[..i], ds[..i + 1];
    assert next[..i] == pre;
    assert LastZero(next) == if ds[i] == 0.0 then i else LastZero(pre);
  }

  /** Without an exact hit the scan is a plain arg-min: it ends on the first
      cell of least distance. */
  lemma PicksWithoutExactHit(ds: seq<real>, k: nat)
    requires forall t :: 0 <= t < |ds| ==> ds[t] != 0.0
    ensures Picks(ds, k) <==> IsFirstMin(ds, 0, k)
  {
  }

  /** A cell exactly on the anchor is kept only when no cell follows it. */
  lemma ExactHitKeptOnlyIfLast(ds: seq<real>, k: nat)
    requires Picks(ds, k)
    requires k < |ds| && ds[k] == 0.0
    ensures k == |ds| - 1
  {
  }

  /** The scan's result is determined by the distances alone. */
  lemma PicksUnique(ds: seq<real>, k1: nat, k2: nat)
    requires Picks(ds, k1) && Picks(ds, k2)
    ensures k1 == k2
  {
  }

  lemma DistancesOfLocations(a: seq<Cell>, b: seq<Cell>, p: Point)
    requires |a| == |b|
    requires forall i :: 0 <= i < |a| ==> a[i].location == b[i].location
    ensures Distances(a, p) == Distances(b, p)
  {
  }

  /** The edge `e` has cell `j` on one of its sides. */
  predicate Touches(e: Edge, j: nat)
  {
    e.left == Some(j) || e.right == Some(j)
  }

  /** Every entry of `hs` is the index of an edge. */
  predicate EdgeIndices(hs: seq<nat>, edges: seq<Edge>)
  {
    forall k :: 0 <= k < |hs| ==> hs[k] < |edges|
  }

  /** The diagram gives each of the `n` cells a list of edge indices, all valid. */
  ghost predicate DiagramOk(n: nat, edges: seq<Edge>, halfedges: seq<seq<nat>>)
  {
    && |halfedges| == n
    && forall i :: 0 <= i < n ==> EdgeIndices(halfedges[i], edges)
  }

  /** What one edge adds to the neighbour list of cell `i`: its left side, then
      its right side, each only when present and other than `i`. */
  function EdgeSides(i: nat, e: Edge): seq<nat>
  {
    (if e.left.Some? && e.left.value != i then [e.left.value] else [])
    + (if e.right.Some? && e.right.value != i then [e.right.value] else [])
  }

  /** The neighbour list of cell `i` whose edges are `hs`, in the order the
      edges and their sides are visited. A cell never lists itself. */
  function NeighbourList(i: nat, hs: seq<nat>, edges: seq<Edge>): (r: seq<nat>)
    requires EdgeIndices(hs, edges)
    ensures i !in r
  {
    if hs == [] then []
    else NeighbourList(i, hs[..|hs| - 1], edges) + EdgeSides(i, edges[hs[|hs| - 1]])
  }

  /** Some edge of the cell lacks a left or a right side. */
  ghost predicate HasOpenEdge(hs: seq<nat>, edges: seq<Edge>)
    requires EdgeIndices(hs, edges)
  {
    exists k :: 0 <= k < |hs| && (edges[hs[k]].left.None? || edges[hs[k]].right.None?)
  }

  /** Some edge of `hs` has `j` on one of its sides. */
  ghost predicate Mentions(hs: seq<nat>, edges: seq<Edge>, j: nat)
    requires EdgeIndices(hs, edges)
  {
    exists k :: 0 <= k < |hs| && Touches(edges[hs[k]], j)
  }

  /** `j` is a neighbour of `i` exactly when it is another cell on one side of
      one of `i`'s edges. */
  lemma {:induction false} NeighbourMembers(i: nat, hs: seq<nat>, edges: seq<Edge>, j: nat)
    requires EdgeIndices(hs, edges)
    ensures j in NeighbourList(i, hs, edges) <==> j != i && Mentions(hs, edges, j)
  {
    if hs != [] {
      var last := |hs| - 1;
      var init := hs[..last];
      NeighbourMembers(i, init, edges, j);
      MentionsSnoc(hs, edges, j);
      var sides := EdgeSides(i, edges[hs[last]]);
      assert NeighbourList(i, hs, edges) == NeighbourList(i, init, edges) + sides;
      assert j in sides <==> j != i && Touches(edges[hs[last]], j);
    }
  }

  lemma MentionsSnoc(hs: seq<nat>, edges: seq<Edge>, j: nat)
    requires EdgeIndices(hs, edges) && hs != []
    ensures Mentions(hs, edges, j) <==>
      Mentions(hs[..|hs| - 1], edges, j) || Touches(edges[hs[|hs| - 1]], j)
  {
    var init := hs[..|hs| - 1];
    if Mentions(init, edges, j) {
      var k :| 0 <= k < |init| && Touches(edges[init[k]], j);
      assert hs[k] == init[k];
    }
    if Mentions(hs, edges, j) {
      var k :| 0 <= k < |hs| && Touches(edges[hs[k]], j);
      if k < |init| {
        assert hs[k] == init[k];
      }
    }
  }

  /** The diagram lists every edge around both of the cells it separates, and
      only around those. */
  ghost predicate Incidence(edges: seq<Edge>, halfedges: seq<seq<nat>>)
    requires DiagramOk(|halfedges|, edges, halfedges)
  {
    && (forall i, k :: 0 <= i < |halfedges| && 0 <= k < |halfedges[i]| ==>
          Touches(edges[halfedges[i][k]], i))
    && (forall e, j :: 0 <= e < |edges| && 0 <= j < |halfedges| && Touches(edges[e], j) ==>
          e in halfedges[j])
  }

  /** On a diagram whose edges are listed around the cells they separate, the
      neighbour relation is symmetric. */
  lemma NeighboursSymmetric(edges: seq<Edge>, halfedges: seq<seq<nat>>, i: nat, j: nat)
    requires DiagramOk(|halfedges|, edges, halfedges)
    requires Incidence(edges, halfedges)
    requires i < |halfedges| && j < |halfedges|
    ensures j in NeighbourList(i, halfedges[i], edges) <==> i in NeighbourList(j, halfedges[j], edges)
  {
    NeighbourAcross(edges, halfedges, i, j);
    NeighbourAcross(edges, halfedges, j, i);
  }

  lemma NeighbourAcross(edges: seq<Edge>, halfedges: seq<seq<nat>>, i: nat, j: nat)
    requires DiagramOk(|halfedges|, edges, halfedges)
    requires Incidence(edges, halfedges)
    requires i < |halfedges| && j < |halfedges|
    ensures j in NeighbourList(i, halfedges[i], edges) ==> i in NeighbourList(j, halfedges[j], edges)
  {
    NeighbourMembers(i, halfedges[i], edges, j);
    NeighbourMembers(j, halfedges[j], edges, i);
    if j in NeighbourList(i, halfedges[i], edges) {
      var k :| 0 <= k < |halfedges[i]| && Touches(edges[halfedges[i][k]], j);
      var e := halfedges[i][k];
      assert Touches(edges[e], i);
      assert e in halfedges[j];
      var k' :| 0 <= k' < |halfedges[j]| && halfedges[j][k'] == e;
      assert Touches(edges[halfedges[j][k']], i);
    }
  }

  /** The walk over one cell's edges: it collects the other cell on each side
      of each edge, and raises the border flag on an edge with a missing side. */
  method EdgeWalk(i: nat, hs: seq<nat>, edges: seq<Edge>) returns (neighbours: seq<nat>, border: bool)
    requires EdgeIndices(hs, edges)
    ensures neighbours == NeighbourList(i, hs, edges)
    ensures border == HasOpenEdge(hs, edges)
  {
    neighbours := [];
    border := false;
    for k := 0 to |hs|
      invariant neighbours == NeighbourList(i, hs[..k], edges)
      invariant border == HasOpenEdge(hs[..k], edges)
    {
      assert hs[..k + 1][..k] == hs[..k];
      OpenEdgeSnoc(hs[..k + 1], edges);
      neighbours, border := VisitEdge(i, edges[hs[k]], neighbours, border);
    }
    assert hs[..|hs|] == hs;
  }

  /** The visit of one edge of cell `i`: each present side other than `i` is
      appended, left before right, and a missing side raises the border flag. */
  method VisitEdge(i: nat, edge: Edge, neighbours: seq<nat>, border: bool)
    returns (neighbours': seq<nat>, border': bool)
    ensures neighbours' == neighbours + EdgeSides(i, edge)
    ensures border' <==> border || edge.left.None? || edge.right.None?
  {
    neighbours', border' := neighbours, border;
    if edge.left.Some? && edge.left.value != i {
      neighbours' := neighbours' + [edge.left.value];
    }
    if edge.right.Some? && edge.right.value != i {
      neighbours' := neighbours' + [edge.right.value];
    }
    if edge.right.None? || edge.left.None? {
      border' := true;
    }
  }

  lemma OpenEdgeSnoc(hs: seq<nat>, edges: seq<Edge>)
    requires EdgeIndices(hs, edges) && hs != []
    ensures HasOpenEdge(hs, edges) <==>
      HasOpenEdge(hs[..|hs| - 1], edges) || edges[hs[|hs| - 1]].left.None? || edges[hs[|hs| - 1]].right.None?
  {
    var init := hs[..|hs| - 1];
    if HasOpenEdge(init, edges) {
      var k :| 0 <= k < |init| && (edges[init[k]].left.None? || edges[init[k]].right.None?);
      assert hs[k] == init[k];
    }
    if HasOpenEdge(hs, edges) {
      var k :| 0 <= k < |hs| && (edges[hs[k]].left.None? || edges[hs[k]].right.None?);
      if k < |init| {
        assert hs[k] == init[k];
      }
    }
  }

  /** The neighbour and border pass: every cell gets the neighbour list and the
      border flag its edges determine, and nothing else about it changes. */
  method LinkNeighbours(cells: array<Cell>, edges: seq<Edge>, halfedges: seq<seq<nat>>)
    requires DiagramOk(cells.Length, edges, halfedges)
    modifies cells
    ensures forall i :: 0 <= i < cells.Length ==>
      cells[i] == old(cells[i]).(neighbours := NeighbourList(i, halfedges[i], edges),
                                 border := HasOpenEdge(halfedges[i], edges))
  {
    for i := 0 to cells.Length
      invariant forall t :: 0 <= t < i ==>
        cells[t] == old(cells[t]).(neighbours := NeighbourList(t, halfedges[t], edges),
                                   border := HasOpenEdge(halfedges[t], edges))
      invariant forall t :: i <= t < cells.Length ==> cells[t] == old(cells[t])
    {
      var neighbours, border := EdgeWalk(i, halfedges[i], edges);
      cells[i] := cells[i].(neighbours := neighbours, border := border);
    }
  }

  /** A cell after the neighbour pass: neutral, with the base armies. */
  ghost function LinkedCell(sites: seq<Point>, edges: seq<Edge>, halfedges: seq<seq<nat>>, i: nat): Cell
    requires i < |sites| && DiagramOk(|sites|, edges, halfedges)
  {
    Cell(i, sites[i], Neutral, BaseArmies, NeighbourList(i, halfedges[i], edges), HasOpenEdge(halfedges[i], edges))
  }

  /** A cell as generation leaves it: the two start cells get their owner and
      the start armies; player 2's assignment comes second and wins when both
      anchors pick the same cell. */
  ghost function StartingCell(sites: seq<Point>, edges: seq<Edge>, halfedges: seq<seq<nat>>,
                              i: nat, player1Start: nat, player2Start: nat): Cell
    requires i < |sites| && DiagramOk(|sites|, edges, halfedges)
  {
    var c := LinkedCell(sites, edges, halfedges, i);
    if i == player2Start then c.(control := Player2, armies := StartArmies)
    else if i == player1Start then c.(control := Player1, armies := StartArmies)
    else c
  }

  /** One neutral cell of 50 armies per site, then the neighbour pass. */
  method LinkedField(sites: seq<Point>, edges: seq<Edge>, halfedges: seq<seq<nat>>) returns (cells: array<Cell>)
    requires DiagramOk(|sites|, edges, halfedges)
    ensures fresh(cells) && cells.Length == |sites|
    ensures forall i :: 0 <= i < |sites| ==> cells[i] == LinkedCell(sites, edges, halfedges, i)
  {
    cells := new Cell[|sites|](i requires 0 <= i < |sites| =>
      Cell(i, sites[i], Neutral, BaseArmies, [], false));
    LinkNeighbours(cells, edges, halfedges);
  }

  /** Builds the arena: the linked cells, then player 1's start cell nearest the
      top anchor and player 2's nearest the bottom anchor, each with 200
      armies. */
  method CreateField(sites: seq<Point>, edges: seq<Edge>, halfedges: seq<seq<nat>>)
    returns (cells: array<Cell>, player1Start: nat, player2Start: nat)
    requires |sites| > 0
    requires DiagramOk(|sites|, edges, halfedges)
    ensures fresh(cells) && cells.Length == |sites|
    ensures player1Start < |sites| && player2Start < |sites|
    ensures Picks(Distances(cells[..], Player1Anchor), player1Start)
    ensures Picks(Distances(cells[..], Player2Anchor), player2Start)
    ensures forall i :: 0 <= i < |sites| ==>
      cells[i] == StartingCell(sites, edges, halfedges, i, player1Start, player2Start)
  {
    cells := LinkedField(sites, edges, halfedges);
    player1Start := ClaimStart(cells, Player1Anchor, Player1);
    ghost var claimed := cells[..];
    player2Start := ClaimStart(cells, Player2Anchor, Player2);
    DistancesOfLocations(cells[..], claimed, Player1Anchor);
  }

  /** Gives the cell the scan picks for `anchor` to `owner`, with the start
      armies, and returns its index. */
  method ClaimStart(cells: array<Cell>, anchor: Point, owner: Control) returns (start: nat)
    requires cells.Length > 0
    modifies cells
    ensures start < cells.Length
    ensures Picks(Distances(cells[..], anchor), start)
    ensures cells[..] == old(cells[..])[start := old(cells[start]).(control := owner, armies := StartArmies)]
  {
    var closest := FindClosest(cells[..], anchor.x, anchor.y);
    start := closest.value;
    ghost var before := cells[..];
    cells[start] := cells[start].(control := owner, armies := StartArmies);
    DistancesOfLocations(cells[..], before, anchor);
  }
}
