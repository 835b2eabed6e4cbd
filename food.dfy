/** The food field: `init_foods` draws cells until `NUM_FOODS` distinct ones are
    placed. Each draw of `random.randint` is an explicit input; `Place` is the
    result of consuming a given sequence of drawn cells. */
module Food {
  import opened Seqs
  import opened Grid

  /** The food list that results from starting with `placed` and consuming
      `draws` one at a time, appending each cell that is not yet present, until
      `target` cells are placed or the draws run out. */
  function Place(placed: seq<Pos>, draws: seq<Pos>, target: nat): (r: seq<Pos>)
    decreases |draws|
    ensures |placed| <= |r|
    ensures |placed| <= target ==> |r| <= target
  {
    if |placed| >= target || draws == [] then placed
    else
      var pos := draws[0];
      Place(if pos in placed then placed else placed + [pos], draws[1..], target)
  }

  /** Placing keeps the list duplicate-free, never exceeds the target, only appends,
      only places drawn cells, and stops short of the target only once every drawn
      cell has been placed. */
  lemma {:induction false} PlaceFacts(placed: seq<Pos>, draws: seq<Pos>, target: nat)
    requires Distinct(placed) && |placed| <= target
    decreases |draws|
    ensures var r := Place(placed, draws, target);
      Distinct(r) && |r| <= target && |placed| <= |r| && r[..|placed|] == placed
      && Elems(r) <= Elems(placed) + Elems(draws)
      && (|r| == target || Elems(r) == Elems(placed) + Elems(draws))
  {
    if |placed| < target && draws != [] {
      var pos := draws[0];
      var next := if pos in placed then placed else placed + [pos];
      assert Distinct(next);
      assert Elems(next) == Elems(placed) + {pos};
      assert draws == [pos] + draws[1..];
      assert Elems(draws) == {pos} + Elems(draws[1..]);
      PlaceFacts(next, draws[1..], target);
      var r := Place(next, draws[1..], target);
      assert r[..|placed|] == next[..|placed|];
    }
  }

  /** Drawn cells that include `target` distinct ones fill the list to exactly
      `target` cells. */
  lemma PlaceReachesTarget(placed: seq<Pos>, draws: seq<Pos>, target: nat)
    requires Distinct(placed) && |placed| <= target
    requires target <= |Elems(placed) + Elems(draws)|
    ensures |Place(placed, draws, target)| == target
  {
    var r := Place(placed, draws, target);
    PlaceFacts(placed, draws, target);
    DistinctCardinality(r);
  }

  /** A food list built from in-grid draws lies in the grid. */
  lemma PlacedInGrid(placed: seq<Pos>, draws: seq<Pos>, target: nat)
    requires Distinct(placed) && |placed| <= target
    requires AllInGrid(placed) && AllInGrid(draws)
    ensures AllInGrid(Place(placed, draws, target))
  {
    PlaceFacts(placed, draws, target);
    InGridSubset(Place(placed, draws, target), placed + draws);
  }

  /** With more food than grid cells, no sequence of in-grid draws ever completes
      the placement: the source's loop keeps drawing forever. */
  lemma PlacementBeyondCapacity(draws: seq<Pos>, target: nat)
    requires AllInGrid(draws) && target > GridSize * GridSize
    ensures |Place([], draws, target)| < target
  {
    PlacedInGrid([], draws, target);
    PlaceFacts([], draws, target);
    DistinctCellsFitGrid(Place([], draws, target));
  }

  /** With at most one food per cell, some sequence of in-grid draws completes the
      placement. */
  lemma PlacementFeasible(target: nat)
    requires target <= GridSize * GridSize
    ensures AllInGrid(Enumerate(target)) && target <= |Elems(Enumerate(target))|
    ensures |Place([], Enumerate(target), target)| == target
  {
    var cells := Enumerate(target);
    DistinctCardinality(cells);
    var none: seq<Pos> := [];
    assert Elems(none) + Elems(cells) == Elems(cells);
    PlaceReachesTarget([], cells, target);
  }
}
