/** Grid geometry: the square grid of `GRID_SIZE` cells per side, its boundary,
    `random_edge_position`, and the clamped one-cell moves of a roaming creature. */
module Grid {
  import opened Seqs

  /** `GRID_SIZE`: cells per side of the square grid. */
  const GridSize: int := 50

  /** A cell `(x, y)`, as the tuples the source keeps in `foods`. */
  type Pos = (int, int)

  predicate InRange(v: int) {
    0 <= v < GridSize
  }

  predicate InGrid(p: Pos) {
    InRange(p.0) && InRange(p.1)
  }

  predicate AllInGrid(s: seq<Pos>) {
    forall i :: 0 <= i < |s| ==> InGrid(s[i])
  }

  /** A list whose elements all occur in an in-grid list is in the grid. */
  lemma InGridSubset(s: seq<Pos>, t: seq<Pos>)
    requires Elems(s) <= Elems(t) && AllInGrid(t)
    ensures AllInGrid(s)
  {
    forall i | 0 <= i < |s|
      ensures InGrid(s[i])
    {
      assert s[i] in Elems(s);
    }
  }

  /** At least one coordinate lies on the first or last row or column. */
  predicate OnBoundary(p: Pos) {
    p.0 == 0 || p.0 == GridSize - 1 || p.1 == 0 || p.1 == GridSize - 1
  }

  /** The four sides `random_edge_position` chooses from. */
  datatype Edge = Top | Bottom | Left | Right

  /** What `random_edge_position` draws: a side, then the free coordinate along it
      (`random.randint(0, GRID_SIZE - 1)`). */
  datatype EdgeDraw = EdgeDraw(edge: Edge, along: int)

  predicate ValidEdgeDraw(d: EdgeDraw) {
    InRange(d.along)
  }

  predicate ValidEdgeDraws(ds: seq<EdgeDraw>) {
    forall i :: 0 <= i < |ds| ==> ValidEdgeDraw(ds[i])
  }

  /** The cell lies on the named side of the grid. */
  predicate OnEdge(p: Pos, e: Edge) {
    match e
    case Top => p.1 == 0
    case Bottom => p.1 == GridSize - 1
    case Left => p.0 == 0
    case Right => p.0 == GridSize - 1
  }

  /** `random_edge_position` for the given draw. */
  function EdgePosition(d: EdgeDraw): (p: Pos)
    requires ValidEdgeDraw(d)
    ensures InGrid(p) && OnBoundary(p)
    ensures OnEdge(p, d.edge)
  {
    match d.edge
    case Top => (d.along, 0)
    case Bottom => (d.along, GridSize - 1)
    case Left => (0, d.along)
    case Right => (GridSize - 1, d.along)
  }

  /** Every boundary cell is the outcome of some edge draw. */
  lemma BoundaryCellReachable(p: Pos)
    requires InGrid(p) && OnBoundary(p)
    ensures exists d :: ValidEdgeDraw(d) && EdgePosition(d) == p
  {
    if p.1 == 0 {
      assert EdgePosition(EdgeDraw(Top, p.0)) == p;
    } else if p.1 == GridSize - 1 {
      assert EdgePosition(EdgeDraw(Bottom, p.0)) == p;
    } else if p.0 == 0 {
      assert EdgePosition(EdgeDraw(Left, p.1)) == p;
    } else {
      assert EdgePosition(EdgeDraw(Right, p.1)) == p;
    }
  }

  /** The five deltas a roaming creature draws from, in the source's order:
      right, left, down, up, stay. */
  const Moves: seq<(int, int)> := [(1, 0), (-1, 0), (0, 1), (0, -1), (0, 0)]

  /** Applies `delta` axis by axis; on an axis where the new coordinate would
      leave the grid that coordinate is kept. */
  function Move(p: Pos, delta: (int, int)): (q: Pos)
    ensures InGrid(p) ==> InGrid(q)
    ensures InGrid(p) ==> (q.0 == p.0 + delta.0 <==> InRange(p.0 + delta.0))
    ensures InGrid(p) ==> (q.1 == p.1 + delta.1 <==> InRange(p.1 + delta.1))
    ensures q.0 == p.0 || q.0 == p.0 + delta.0
    ensures q.1 == p.1 || q.1 == p.1 + delta.1
  {
    var newX := p.0 + delta.0;
    var newY := p.1 + delta.1;
    (if InRange(newX) then newX else p.0, if InRange(newY) then newY else p.1)
  }

  /** A drawn move changes the position by at most one cell along one axis. */
  lemma MoveIsUnitStep(p: Pos, m: nat)
    requires m < |Moves|
    ensures var q := Move(p, Moves[m]);
      (q.0 == p.0 || q.1 == p.1) && -1 <= q.0 - p.0 <= 1 && -1 <= q.1 - p.1 <= 1
  {
  }

  /** Row-major number of a cell. */
  function CellIndex(p: Pos): int {
    p.1 * GridSize + p.0
  }

  lemma CellIndexInjective(p: Pos, q: Pos)
    requires InGrid(p) && InGrid(q) && CellIndex(p) == CellIndex(q)
    ensures p == q
  {
    assert CellIndex(p) / GridSize == p.1 && CellIndex(p) % GridSize == p.0;
    assert CellIndex(q) / GridSize == q.1 && CellIndex(q) % GridSize == q.0;
  }

  /** The grid holds at most `GridSize * GridSize` distinct cells. */
  lemma DistinctCellsFitGrid(cells: seq<Pos>)
    requires AllInGrid(cells) && Distinct(cells)
    ensures |cells| <= GridSize * GridSize
  {
    var codes := seq(|cells|, k requires 0 <= k < |cells| => CellIndex(cells[k]));
    forall i, j | 0 <= i < j < |codes|
      ensures codes[i] != codes[j]
    {
      if codes[i] == codes[j] {
        CellIndexInjective(cells[i], cells[j]);
      }
    }
    DistinctCardinality(codes);
    forall v | v in Elems(codes)
      ensures 0 <= v < GridSize * GridSize
    {
      var k :| 0 <= k < |codes| && codes[k] == v;
      assert InGrid(cells[k]);
    }
    BoundedIntSet(Elems(codes), GridSize * GridSize);
  }

  /** The first `n` cells in row-major order. */
  function Enumerate(n: nat): (cells: seq<Pos>)
    requires n <= GridSize * GridSize
    ensures |cells| == n && AllInGrid(cells) && Distinct(cells)
  {
    seq(n, k => (k % GridSize, k / GridSize))
  }
}
