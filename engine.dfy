/** The simulation state the source keeps in module globals (`foods`, `creatures`,
    `frame_counter`, `day_count`) as one object, with `init_foods`,
    `init_creatures`, `update_creatures`, `end_of_day` and one pass of the main
    loop as its methods. */
module Engine {
  import opened Seqs
  import opened Grid
  import opened Food
  import opened Creatures

  /** `NUM_FOODS`: food items placed at the start of every day. */
  const NumFoods: nat := 10
  /** `NUM_CREATURES`: size of the initial population. */
  const NumCreatures: nat := 10
  /** `DAY_LENGTH_FRAMES`: ticks per day. */
  const DayLengthFrames: int := 300

  /** `frame_counter` and `day_count` after one pass of the main loop: the frame
      advances, and on reaching the day length a new day begins at frame 0. */
  function NextCounters(frame: int, day: int): (r: (int, int))
    requires 0 <= frame < DayLengthFrames
    ensures 0 <= r.0 < DayLengthFrames
    ensures r.0 == (frame + 1) % DayLengthFrames
    ensures r.1 == day || r.1 == day + 1
    ensures r.1 == day + 1 <==> r.0 == 0
  {
    if frame + 1 >= DayLengthFrames then (0, day + 1) else (frame + 1, day)
  }

  /** The counters after `n` passes of the main loop from the initial `(0, 1)`. */
  function CountersAfter(n: nat): (r: (int, int))
    ensures 0 <= r.0 < DayLengthFrames
  {
    if n == 0 then (0, 1)
    else
      var prev := CountersAfter(n - 1);
      NextCounters(prev.0, prev.1)
  }

  /** The counters cycle: after `n` ticks the frame is `n` modulo the day length
      and the day is one more than the number of completed days. */
  lemma {:induction false} CountersCycle(n: nat)
    ensures CountersAfter(n) == (n % DayLengthFrames, 1 + n / DayLengthFrames)
  {
    if n > 0 {
      CountersCycle(n - 1);
      var q, rem := (n - 1) / DayLengthFrames, (n - 1) % DayLengthFrames;
      DivModOf(n - 1, q, rem);
      NextCountersOfDivMod(n - 1, q, rem);
    }
  }

  /** A tick from frame `rem` of day `1 + q` is tick `m + 1` when `m` is `q` whole
      days plus `rem` frames. */
  lemma NextCountersOfDivMod(m: int, q: int, rem: int)
    requires m == DayLengthFrames * q + rem && 0 <= rem < DayLengthFrames
    ensures NextCounters(rem, 1 + q) == ((m + 1) % DayLengthFrames, 1 + (m + 1) / DayLengthFrames)
  {
    if rem == DayLengthFrames - 1 {
      DivModOf(m + 1, q + 1, 0);
    } else {
      DivModOf(m + 1, q, rem + 1);
    }
  }

  /** Quotient and remainder by the day length: `n` decomposes into them, and
      any decomposition with a remainder inside the day is that one. */
  lemma DivModOf(n: int, q: int, rem: int)
    ensures n == DayLengthFrames * (n / DayLengthFrames) + n % DayLengthFrames
    ensures 0 <= n % DayLengthFrames < DayLengthFrames
    ensures n == DayLengthFrames * q + rem && 0 <= rem < DayLengthFrames ==>
      n / DayLengthFrames == q && n % DayLengthFrames == rem
  {
  }

  /** The bookkeeping of `update_creatures`' loop: once creature `i` has taken its
      step, the pass over the whole population is the creatures done so far, that
      creature, and the pass over the rest against the food it left. */
  lemma UpdateAdvance(cs: seq<Creature>, fs: seq<Pos>, ds: seq<StepDraw>, i: nat,
                      prefix: seq<Creature>, before: seq<Pos>, c: Creature, after: seq<Pos>)
    requires |ds| == |cs| && ValidStepDraws(ds) && i < |cs|
    requires (c, after) == Step(cs[i], before, ds[i])
    requires var b := Update(cs[i..], before, ds[i..]);
      Update(cs, fs, ds) == Board(prefix + b.creatures, b.foods)
    ensures var b := Update(cs[i + 1..], after, ds[i + 1..]);
      Update(cs, fs, ds) == Board(prefix + [c] + b.creatures, b.foods)
  {
    UpdateFrom(cs, before, ds, i);
    var b := Update(cs[i + 1..], after, ds[i + 1..]);
    assert prefix + ([c] + b.creatures) == prefix + [c] + b.creatures;
  }

  /** What a finished pass leaves: the facts `update_creatures` promises about its
      result, for any creatures and food equal to `Update` of the old ones. */
  lemma UpdateOutcome(cs: seq<Creature>, fs: seq<Pos>, ds: seq<StepDraw>,
                      creatures: seq<Creature>, foods: seq<Pos>)
    requires AllWellFormed(cs) && AllInGrid(fs) && Distinct(fs)
    requires |ds| == |cs| && ValidStepDraws(ds)
    requires Board(creatures, foods) == Update(cs, fs, ds)
    ensures |creatures| == |cs| && AllWellFormed(creatures)
    ensures AllInGrid(foods) && Distinct(foods) && |foods| <= |fs| && Elems(foods) <= Elems(fs)
    ensures forall i :: 0 <= i < |creatures| && cs[i].state != Roaming ==> creatures[i] == cs[i]
    ensures |fs| - |foods| == FedCount(creatures) - FedCount(cs)
    ensures |fs| - |foods| <= RoamingCount(cs)
  {
    UpdateKeepsInvariants(cs, fs, ds);
    UpdateEatsAtMostRoaming(cs, fs, ds);
    InGridSubset(foods, fs);
  }

  class Simulation {
    var foods: seq<Pos>
    var creatures: seq<Creature>
    var frameCounter: int
    var dayCount: int

    /** What holds at every point of a day: food in the grid, duplicate-free and
        never more than `NumFoods`; creatures well-formed and never more than
        `NumCreatures`; days counted from 1. */
    ghost predicate Consistent()
      reads this
    {
      AllInGrid(foods) && Distinct(foods) && |foods| <= NumFoods
      && AllWellFormed(creatures) && |creatures| <= NumCreatures
      && 1 <= dayCount
    }

    /** What holds between ticks: additionally the frame is inside the day. */
    ghost predicate Valid()
      reads this
    {
      Consistent() && 0 <= frameCounter < DayLengthFrames
    }

    /** The module-level initial values, then `init_foods()` and
        `init_creatures()` as `main` calls them. */
    constructor (foodDraws: seq<Pos>, creatureDraws: seq<Pos>)
      requires AllInGrid(foodDraws) && NumFoods <= |Elems(foodDraws)|
      requires |creatureDraws| == NumCreatures && AllInGrid(creatureDraws)
      ensures Valid()
      ensures frameCounter == 0 && dayCount == 1
      ensures foods == Place([], foodDraws, NumFoods) && |foods| == NumFoods
      ensures |creatures| == NumCreatures
      ensures forall i :: 0 <= i < NumCreatures ==>
        creatures[i] == Creature(creatureDraws[i].0, creatureDraws[i].1, Roaming, false)
    {
      foods := [];
      creatures := [];
      frameCounter := 0;
      dayCount := 1;
      new;
      InitFoods(foodDraws);
      InitCreatures(creatureDraws);
    }

    /** `init_foods`: consumes drawn cells, appending each one not yet present,
        until `NumFoods` are placed. The draws must contain that many distinct
        cells, which is exactly when the source's loop finishes. */
    method InitFoods(draws: seq<Pos>)
      requires AllInGrid(draws) && NumFoods <= |Elems(draws)|
      modifies this`foods
      ensures foods == Place([], draws, NumFoods)
      ensures |foods| == NumFoods && Distinct(foods) && AllInGrid(foods)
    {
      foods := [];
      var i := 0;
      while |foods| < NumFoods && i < |draws|
        invariant 0 <= i <= |draws|
        invariant Place(foods, draws[i..], NumFoods) == Place([], draws, NumFoods)
      {
        var pos := draws[i];
        assert draws[i..] == [pos] + draws[i + 1..];
        if pos !in foods {
          foods := foods + [pos];
        }
        i := i + 1;
      }
      var none: seq<Pos> := [];
      assert Elems(none) + Elems(draws) == Elems(draws);
      PlaceReachesTarget([], draws, NumFoods);
      PlaceFacts([], draws, NumFoods);
      PlacedInGrid([], draws, NumFoods);
    }

    /** `init_creatures`: `NumCreatures` roaming, unfed creatures at the drawn
        cells, in draw order. */
    method InitCreatures(draws: seq<Pos>)
      requires |draws| == NumCreatures && AllInGrid(draws)
      modifies this`creatures
      ensures |creatures| == NumCreatures && AllWellFormed(creatures)
      ensures forall i :: 0 <= i < NumCreatures ==>
        creatures[i] == Creature(draws[i].0, draws[i].1, Roaming, false)
    {
      creatures := [];
      for i := 0 to NumCreatures
        invariant |creatures| == i
        invariant forall j :: 0 <= j < i ==>
          creatures[j] == Creature(draws[j].0, draws[j].1, Roaming, false)
      {
        var pos := draws[i];
        creatures := creatures + [Creature(pos.0, pos.1, Roaming, false)];
      }
    }

    /** The body of `update_creatures`' loop for creature `i`: a roaming creature
        takes its drawn step, clamped to the grid; if it lands on food it eats it
        and waits at its drawn edge cell. Any other creature is skipped. */
    method StepCreature(i: nat, d: StepDraw)
      requires i < |creatures| && ValidStepDraw(d)
      modifies this`creatures, this`foods
      ensures var r := Step(old(creatures)[i], old(foods), d);
        creatures == old(creatures)[i := r.0] && foods == r.1
    {
      var creature := creatures[i];
      if creature.state != Roaming {
        return;
      }
      var (dx, dy) := Moves[d.move];
      var newX, newY := creature.x + dx, creature.y + dy;
      if 0 <= newX < GridSize {
        creature := creature.(x := newX);
      }
      if 0 <= newY < GridSize {
        creature := creature.(y := newY);
      }
      var pos := (creature.x, creature.y);
      assert pos == Move(creatures[i].At(), Moves[d.move]);
      if pos in foods {
        foods := RemoveFirst(foods, pos);
        var edge := EdgePosition(d.relocate);
        creature := creature.(ate := true, state := Waiting, x := edge.0, y := edge.1);
      }
      assert (creature, foods) == Step(creatures[i], old(foods), d);
      creatures := creatures[i := creature];
    }

    /** `update_creatures`: every creature in list order takes its step against
        the food the creatures before it left. Draws are given per creature;
        those of waiting creatures go unused. */
    method UpdateCreatures(draws: seq<StepDraw>)
      requires Consistent() && |draws| == |creatures| && ValidStepDraws(draws)
      modifies this`creatures, this`foods
      ensures Consistent()
      ensures Board(creatures, foods) == Update(old(creatures), old(foods), draws)
      ensures |creatures| == |old(creatures)| && |foods| <= |old(foods)|
      ensures Elems(foods) <= Elems(old(foods))
      ensures forall i :: 0 <= i < |creatures| && old(creatures)[i].state != Roaming ==>
        creatures[i] == old(creatures)[i]
      ensures |old(foods)| - |foods| == FedCount(creatures) - FedCount(old(creatures))
      ensures |old(foods)| - |foods| <= RoamingCount(old(creatures))
    {
      ghost var cs0, fs0 := creatures, foods;
      var i := 0;
      while i < |creatures|
        invariant 0 <= i <= |creatures| == |cs0|
        invariant creatures[i..] == cs0[i..]
        invariant var b := Update(cs0[i..], foods, draws[i..]);
          Update(cs0, fs0, draws) == Board(creatures[..i] + b.creatures, b.foods)
      {
        ghost var before, prefix := foods, creatures[..i];
        assert creatures[i] == cs0[i];
        StepCreature(i, draws[i]);
        UpdateAdvance(cs0, fs0, draws, i, prefix, before, creatures[i], foods);
        assert creatures[..i + 1] == prefix + [creatures[i]];
        assert creatures[i + 1..] == cs0[i + 1..];
        i := i + 1;
      }
      assert creatures[..i] == creatures;
      UpdateOutcome(cs0, fs0, draws, creatures, foods);
    }

    /** `end_of_day`: keeps the creatures that ate, resets each to roaming and
        unfed at its drawn edge cell, places a fresh day's food, resets the frame
        counter and advances the day. */
    method EndOfDay(edgeDraws: seq<EdgeDraw>, foodDraws: seq<Pos>)
      requires Consistent()
      requires FedCount(creatures) <= |edgeDraws| && ValidEdgeDraws(edgeDraws)
      requires AllInGrid(foodDraws) && NumFoods <= |Elems(foodDraws)|
      modifies this
      ensures Consistent()
      ensures |Survivors(old(creatures))| == FedCount(old(creatures))
      ensures creatures == Respawn(Survivors(old(creatures)), edgeDraws)
      ensures |creatures| == FedCount(old(creatures)) <= |old(creatures)|
      ensures foods == Place([], foodDraws, NumFoods) && |foods| == NumFoods
      ensures frameCounter == 0 && dayCount == old(dayCount) + 1
    {
      var survivors := Survivors(creatures);
      ghost var fed := survivors;
      NextDayPopulation(creatures, edgeDraws);
      for k := 0 to |survivors|
        invariant |survivors| == |fed|
        invariant forall j :: 0 <= j < k ==> survivors[j] == Reset(fed[j], edgeDraws[j])
        invariant forall j :: k <= j < |survivors| ==> survivors[j] == fed[j]
      {
        var edge := EdgePosition(edgeDraws[k]);
        survivors := survivors[k := survivors[k].(state := Roaming, ate := false, x := edge.0, y := edge.1)];
      }
      creatures := survivors;
      InitFoods(foodDraws);
      frameCounter := 0;
      dayCount := dayCount + 1;
    }

    /** One pass of the main loop: advance the frame, update the creatures, and
        end the day once the frame reaches the day length. The end-of-day draws
        are used only when the day ends. */
    method Tick(stepDraws: seq<StepDraw>, edgeDraws: seq<EdgeDraw>, foodDraws: seq<Pos>)
      requires Valid()
      requires |stepDraws| == |creatures| && ValidStepDraws(stepDraws)
      requires |creatures| <= |edgeDraws| && ValidEdgeDraws(edgeDraws)
      requires frameCounter + 1 >= DayLengthFrames ==>
        AllInGrid(foodDraws) && NumFoods <= |Elems(foodDraws)|
      modifies this
      ensures Valid()
      ensures (frameCounter, dayCount) == NextCounters(old(frameCounter), old(dayCount))
      ensures |creatures| <= |old(creatures)|
      ensures var b := Update(old(creatures), old(foods), stepDraws);
        if old(frameCounter) + 1 >= DayLengthFrames
        then creatures == Respawn(Survivors(b.creatures), edgeDraws)
             && foods == Place([], foodDraws, NumFoods)
        else creatures == b.creatures && foods == b.foods
    {
      frameCounter := frameCounter + 1;
      UpdateCreatures(stepDraws);
      if frameCounter >= DayLengthFrames {
        SurvivorsFacts(creatures);
        EndOfDay(edgeDraws, foodDraws);
      }
    }
  }
}
