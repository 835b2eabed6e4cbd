/** The creature population: one step of a roaming creature (`update_creatures`'
    loop body), a whole pass over the population, and the end-of-day cull and
    reset. Every random draw is an explicit input. */
module Creatures {
  import opened Seqs
  import opened Grid

  /** The `'state'` field: `'roaming'` or `'waiting'`. */
  datatype State = Roaming | Waiting

  /** A creature record: its cell, its state, and whether it ate this day. */
  datatype Creature = Creature(x: int, y: int, state: State, ate: bool)
  {
    function At(): Pos {
      (x, y)
    }
  }

  /** In the grid, and waiting exactly when it has eaten. */
  predicate WellFormed(c: Creature) {
    InGrid(c.At()) && (c.state == Waiting <==> c.ate)
  }

  predicate AllWellFormed(cs: seq<Creature>) {
    forall i :: 0 <= i < |cs| ==> WellFormed(cs[i])
  }

  /** Number of creatures that ate this day. */
  function FedCount(cs: seq<Creature>): nat {
    if cs == [] then 0 else (if cs[0].ate then 1 else 0) + FedCount(cs[1..])
  }

  /** Number of creatures still roaming. */
  function RoamingCount(cs: seq<Creature>): nat {
    if cs == [] then 0 else (if cs[0].state == Roaming then 1 else 0) + RoamingCount(cs[1..])
  }

  /** The draws one creature may make in a tick: an index into `Moves`, and the
      edge cell it is sent to if it eats. */
  datatype StepDraw = StepDraw(move: nat, relocate: EdgeDraw)

  predicate ValidStepDraw(d: StepDraw) {
    d.move < |Moves| && ValidEdgeDraw(d.relocate)
  }

  predicate ValidStepDraws(ds: seq<StepDraw>) {
    forall i :: 0 <= i < |ds| ==> ValidStepDraw(ds[i])
  }

  /** The body of `update_creatures`' loop for one creature: the new creature
      and the new food list. */
  function Step(c: Creature, foods: seq<Pos>, d: StepDraw): (r: (Creature, seq<Pos>))
    requires ValidStepDraw(d)
    ensures c.state != Roaming ==> r == (c, foods)
    ensures c.state == Roaming && Move(c.At(), Moves[d.move]) in foods ==>
      |r.1| == |foods| - 1 && r.0.ate && r.0.state == Waiting && OnBoundary(r.0.At())
    ensures c.state == Roaming && Move(c.At(), Moves[d.move]) !in foods ==>
      r.1 == foods && r.0.At() == Move(c.At(), Moves[d.move]) && r.0.state == c.state
  {
    if c.state != Roaming then (c, foods)
    else
      var pos := Move(c.At(), Moves[d.move]);
      if pos in foods then
        var edge := EdgePosition(d.relocate);
        (c.(ate := true, state := Waiting, x := edge.0, y := edge.1), RemoveFirst(foods, pos))
      else
        (c.(x := pos.0, y := pos.1), foods)
  }

  /** Creatures and food after a pass over the population. */
  datatype Board = Board(creatures: seq<Creature>, foods: seq<Pos>)

  /** `update_creatures`: each creature in list order takes its step against
      the food left by the creatures before it. */
  function Update(cs: seq<Creature>, foods: seq<Pos>, ds: seq<StepDraw>): (b: Board)
    requires |ds| == |cs| && ValidStepDraws(ds)
    decreases |cs|
    ensures |b.creatures| == |cs|
  {
    if cs == [] then Board([], foods)
    else
      var first := Step(cs[0], foods, ds[0]);
      var rest := Update(cs[1..], first.1, ds[1..]);
      Board([first.0] + rest.creatures, rest.foods)
  }

  /** The pass from position `i` on is the step of creature `i` followed by the
      pass from position `i + 1` on. */
  lemma UpdateFrom(cs: seq<Creature>, foods: seq<Pos>, ds: seq<StepDraw>, i: nat)
    requires |ds| == |cs| && ValidStepDraws(ds) && i < |cs|
    ensures var first := Step(cs[i], foods, ds[i]);
      var rest := Update(cs[i + 1..], first.1, ds[i + 1..]);
      Update(cs[i..], foods, ds[i..]) == Board([first.0] + rest.creatures, rest.foods)
  {
    assert cs[i..][1..] == cs[i + 1..];
    assert ds[i..][1..] == ds[i + 1..];
  }

  /** A roaming creature that lands on food eats exactly that cell: the food list
      loses that cell and nothing else, and the creature is fed, waiting, and on
      the boundary. */
  lemma EatingRemovesThatFood(c: Creature, foods: seq<Pos>, d: StepDraw)
    requires WellFormed(c) && Distinct(foods) && ValidStepDraw(d)
    requires c.state == Roaming && Move(c.At(), Moves[d.move]) in foods
    ensures var pos, r := Move(c.At(), Moves[d.move]), Step(c, foods, d);
      |r.1| == |foods| - 1 && Elems(r.1) == Elems(foods) - {pos} && Distinct(r.1)
      && r.0.ate && r.0.state == Waiting && WellFormed(r.0) && OnBoundary(r.0.At())
  {
    RemoveFromDistinct(foods, Move(c.At(), Moves[d.move]));
  }

  /** One step keeps the creature well-formed and the food duplicate-free and
      shrinking; a creature that is not roaming is left as it was; the food eaten
      is one item exactly when the creature becomes fed. */
  lemma StepKeepsInvariants(c: Creature, foods: seq<Pos>, d: StepDraw)
    requires WellFormed(c) && Distinct(foods) && ValidStepDraw(d)
    ensures var r := Step(c, foods, d);
      WellFormed(r.0) && Distinct(r.1) && Elems(r.1) <= Elems(foods)
      && (c.state != Roaming ==> r.0 == c && r.1 == foods)
      && (c.state == Roaming && Move(c.At(), Moves[d.move]) !in foods ==>
            r.1 == foods && r.0.At() == Move(c.At(), Moves[d.move]) && r.0.state == Roaming)
      && |foods| - |r.1| == (if r.0.ate then 1 else 0) - (if c.ate then 1 else 0)
      && |foods| - |r.1| <= (if c.state == Roaming then 1 else 0)
  {
    if c.state == Roaming && Move(c.At(), Moves[d.move]) in foods {
      EatingRemovesThatFood(c, foods, d);
    }
  }

  /** A pass over the population keeps every creature well-formed, leaves waiting
      creatures untouched, only removes food, keeps it duplicate-free, and removes
      exactly as many items as creatures it feeds. */
  lemma {:induction false} UpdateKeepsInvariants(cs: seq<Creature>, foods: seq<Pos>, ds: seq<StepDraw>)
    requires AllWellFormed(cs) && Distinct(foods) && |ds| == |cs| && ValidStepDraws(ds)
    decreases |cs|
    ensures var b := Update(cs, foods, ds);
      |b.creatures| == |cs| && AllWellFormed(b.creatures)
      && Distinct(b.foods) && Elems(b.foods) <= Elems(foods) && |b.foods| <= |foods|
      && (forall i :: 0 <= i < |cs| && cs[i].state != Roaming ==> b.creatures[i] == cs[i])
      && |foods| - |b.foods| == FedCount(b.creatures) - FedCount(cs)
  {
    if cs != [] {
      var first := Step(cs[0], foods, ds[0]);
      StepKeepsInvariants(cs[0], foods, ds[0]);
      UpdateKeepsInvariants(cs[1..], first.1, ds[1..]);
      var rest := Update(cs[1..], first.1, ds[1..]);
      var all := [first.0] + rest.creatures;
      assert Update(cs, foods, ds) == Board(all, rest.foods);
      assert all[1..] == rest.creatures;
      forall i | 0 <= i < |cs| && cs[i].state != Roaming
        ensures all[i] == cs[i]
      {
        if i > 0 {
          assert cs[1..][i - 1] == cs[i];
        }
      }
    }
  }

  /** At most one food item per roaming creature is eaten in a tick. Together with
      the second conjunct, which only records that a list cannot lose more items
      than it has, this is the bound min(F, r) for F food items and r roaming
      creatures. */
  lemma {:induction false} UpdateEatsAtMostRoaming(cs: seq<Creature>, foods: seq<Pos>, ds: seq<StepDraw>)
    requires AllWellFormed(cs) && Distinct(foods) && |ds| == |cs| && ValidStepDraws(ds)
    decreases |cs|
    ensures var b := Update(cs, foods, ds);
      |foods| - |b.foods| <= RoamingCount(cs) && |foods| - |b.foods| <= |foods|
  {
    if cs != [] {
      var first := Step(cs[0], foods, ds[0]);
      StepKeepsInvariants(cs[0], foods, ds[0]);
      UpdateEatsAtMostRoaming(cs[1..], first.1, ds[1..]);
    }
  }

  /** With no food on the grid a pass feeds nobody. */
  lemma StarvationWithoutFood(cs: seq<Creature>, ds: seq<StepDraw>)
    requires AllWellFormed(cs) && |ds| == |cs| && ValidStepDraws(ds)
    ensures FedCount(Update(cs, [], ds).creatures) == FedCount(cs)
  {
    UpdateKeepsInvariants(cs, [], ds);
  }

  /** The creatures that ate (the list comprehension in `end_of_day`). */
  function Survivors(cs: seq<Creature>): (ss: seq<Creature>)
    ensures |ss| <= |cs|
  {
    if cs == [] then [] else (if cs[0].ate then [cs[0]] else []) + Survivors(cs[1..])
  }

  /** The survivors are exactly the fed creatures, so there are no more of them
      than there were creatures. */
  lemma {:induction false} SurvivorsFacts(cs: seq<Creature>)
    ensures |Survivors(cs)| == FedCount(cs) <= |cs|
    ensures forall c :: c in Survivors(cs) ==> c in cs && c.ate
    ensures forall i :: 0 <= i < |cs| && cs[i].ate ==> cs[i] in Survivors(cs)
  {
    if cs != [] {
      SurvivorsFacts(cs[1..]);
      assert cs == [cs[0]] + cs[1..];
      forall i | 0 <= i < |cs| && cs[i].ate
        ensures cs[i] in Survivors(cs)
      {
        if i > 0 {
          assert cs[1..][i - 1] == cs[i];
        }
      }
    }
  }

  /** A survivor reset for the next day: roaming, unfed, at a drawn edge cell. */
  function Reset(c: Creature, d: EdgeDraw): (r: Creature)
    requires ValidEdgeDraw(d)
    ensures WellFormed(r) && r.state == Roaming && !r.ate
    ensures r.At() == EdgePosition(d) && OnBoundary(r.At())
  {
    var edge := EdgePosition(d);
    c.(state := Roaming, ate := false, x := edge.0, y := edge.1)
  }

  /** Each survivor reset with the edge draw of its place in the list. */
  function Respawn(ss: seq<Creature>, ds: seq<EdgeDraw>): (r: seq<Creature>)
    requires |ss| <= |ds| && ValidEdgeDraws(ds)
    ensures |r| == |ss| && AllWellFormed(r)
    ensures forall k :: 0 <= k < |r| ==>
      r[k].state == Roaming && !r[k].ate && r[k].At() == EdgePosition(ds[k])
  {
    seq(|ss|, k requires 0 <= k < |ss| => Reset(ss[k], ds[k]))
  }

  /** The next day's population: one creature per fed creature, no more than
      before, each roaming, unfed and on the boundary at its drawn edge cell. It
      depends on the old population only through the number that ate. */
  lemma NextDayPopulation(cs: seq<Creature>, ds: seq<EdgeDraw>)
    requires FedCount(cs) <= |ds| && ValidEdgeDraws(ds)
    ensures |Survivors(cs)| == FedCount(cs)
    ensures var r := Respawn(Survivors(cs), ds);
      |r| == FedCount(cs) <= |cs| && AllWellFormed(r)
      && forall k :: 0 <= k < |r| ==>
           r[k] == Creature(EdgePosition(ds[k]).0, EdgePosition(ds[k]).1, Roaming, false)
           && OnBoundary(r[k].At())
  {
    SurvivorsFacts(cs);
  }
}
