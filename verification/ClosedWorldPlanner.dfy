/** The goal planner of the closed world and its termination. */
module ClosedWorldPlanner {
  import opened Multiples
  import opened Options
  import opened WorldGraph
  import opened ClosedWorld
  import opened ClosedWorldRuns

  datatype Kind = VisitGoal | CollectGoal | CraftGoal

  datatype Goal = Goal(kind: Kind, target: string, quantity: nat)

  datatype Decision = Finish | Do(action: Action) | NoRoute | UnknownTarget

  /** What the goal asks for next: nothing, or an action at a place (for a visit, just
      being there). */
  datatype Need = Complete | At(place: Place, action: Action) | Unknown

  ghost function MissingFirst(w: World, s: State, recipe: Recipe, item: string, k: nat): Need
    requires k <= |recipe.ingredients|
    decreases |recipe.ingredients| - k
  {
    if k == |recipe.ingredients| then At(recipe.station, Craft(item))
    else
      var name := recipe.ingredients[k].0;
      if Count(s.inventory, name) >= recipe.ingredients[k].1 then MissingFirst(w, s, recipe, item, k + 1)
      else if name in w.resources then At(w.resources[name], Collect(name))
      else Unknown
  }

  ghost function NextNeed(w: World, goal: Goal, s: State): Need {
    match goal.kind
    case VisitGoal => if s.location == goal.target then Complete else At(goal.target, Move(goal.target))
    case CollectGoal =>
      if Count(s.inventory, goal.target) >= goal.quantity then Complete
      else if goal.target in w.resources then At(w.resources[goal.target], Collect(goal.target))
      else Unknown
    case CraftGoal =>
      if Count(s.inventory, goal.target) >= goal.quantity then Complete
      else if goal.target in w.recipes then MissingFirst(w, s, w.recipes[goal.target], goal.target, 0)
      else Unknown
  }

  /** The planner's decision: finish, act where the need is, or take the first step of
      a shortest path there. */
  ghost predicate Decides(w: World, s: State, need: Need, d: Decision) {
    match need
    case Complete => d == Finish
    case Unknown => d == UnknownTarget
    case At(place, action) =>
      if s.location == place then d == Do(action)
      else if Reaches(w.edges, s.location, place)
      then d.Do? && d.action.Move? && FirstHop(w.edges, s.location, place, d.action.target)
      else d == NoRoute
  }

  /** The completion check of the environment. */
  predicate IsComplete(goal: Goal, s: State) {
    match goal.kind
    case VisitGoal => s.location == goal.target
    case _ => Count(s.inventory, goal.target) >= goal.quantity
  }

  method GoTo(w: World, s: State, place: Place) returns (d: Decision)
    requires s.location != place
    ensures forall action :: Decides(w, s, At(place, action), d)
  {
    var next := ShortestNext(w.edges, s.location, place);
    match next {
      case None => d := NoRoute;
      case Some(hop) =>
        HopIsCloser(w.edges, s.location, place, hop);
        d := Do(Move(hop));
    }
  }

  method Decide(w: World, goal: Goal, s: State) returns (d: Decision)
    ensures Decides(w, s, NextNeed(w, goal, s), d)
  {
    match goal.kind {
      case VisitGoal =>
        if s.location == goal.target { return Finish; }
        d := GoTo(w, s, goal.target);
      case CollectGoal =>
        if Count(s.inventory, goal.target) >= goal.quantity { return Finish; }
        if goal.target !in w.resources { return UnknownTarget; }
        if s.location != w.resources[goal.target] {
          d := GoTo(w, s, w.resources[goal.target]);
        } else {
          d := Do(Collect(goal.target));
        }
      case CraftGoal =>
        if Count(s.inventory, goal.target) >= goal.quantity { return Finish; }
        if goal.target !in w.recipes { return UnknownTarget; }
        var recipe := w.recipes[goal.target];
        for k := 0 to |recipe.ingredients|
          invariant NextNeed(w, goal, s) == MissingFirst(w, s, recipe, goal.target, k)
        {
          var name := recipe.ingredients[k].0;
          if Count(s.inventory, name) >= recipe.ingredients[k].1 { continue; }
          if name !in w.resources { return UnknownTarget; }
          if s.location != w.resources[name] {
            d := GoTo(w, s, w.resources[name]);
          } else {
            d := Do(Collect(name));
          }
          return;
        }
        if s.location != recipe.station {
          d := GoTo(w, s, recipe.station);
        } else {
          d := Do(Craft(goal.target));
        }
    }
  }

  // ---- Realizable goals ----

  /** The places a goal may need. */
  ghost function Stops(w: World, goal: Goal): set<Place> {
    match goal.kind
    case VisitGoal => {goal.target}
    case CollectGoal => if goal.target in w.resources then {w.resources[goal.target]} else {}
    case CraftGoal =>
      if goal.target !in w.recipes then {}
      else
        var recipe := w.recipes[goal.target];
        {recipe.station} + set i | 0 <= i < |recipe.ingredients| && recipe.ingredients[i].0 in w.resources ::
                             w.resources[recipe.ingredients[i].0]
  }

  /** The goal's target is known, every ingredient of it can be collected and is not
      the target itself, and each place it needs can be reached from here and from
      every other such place. */
  ghost predicate Realizable(w: World, goal: Goal, s: State) {
    && (goal.kind == CollectGoal ==> goal.target in w.resources)
    && (goal.kind == CraftGoal ==>
          && goal.target in w.recipes
          && forall i | 0 <= i < |w.recipes[goal.target].ingredients| ::
               var name := w.recipes[goal.target].ingredients[i].0;
               name in w.resources && name != goal.target)
    && (forall a | a in Stops(w, goal) :: Reaches(w.edges, s.location, a))
    && (forall a, b | a in Stops(w, goal) && b in Stops(w, goal) :: Reaches(w.edges, a, b))
  }

  // ---- Progress ----

  function Positive(x: int): nat { if x > 0 then x else 0 }

  /** Ingredient units still to collect for the next craft. */
  ghost function Missing(inventory: map<string, int>, ingredients: seq<(string, nat)>): nat {
    if ingredients == [] then 0
    else
      var last := ingredients[|ingredients| - 1];
      Missing(inventory, ingredients[..|ingredients| - 1]) + Positive(last.1 - Count(inventory, last.0))
  }

  ghost function Units(goal: Goal, s: State): nat {
    if goal.kind == VisitGoal then 0 else Positive(goal.quantity - Count(s.inventory, goal.target))
  }

  ghost function MissingFor(w: World, goal: Goal, s: State): nat {
    if goal.kind == CraftGoal && goal.target in w.recipes && !IsComplete(goal, s)
    then Missing(s.inventory, w.recipes[goal.target].ingredients) else 0
  }

  ghost function DistanceLeft(w: World, goal: Goal, s: State): nat {
    match NextNeed(w, goal, s)
    case At(place, _) => if Reaches(w.edges, s.location, place) then Distance(w.edges, s.location, place) else 0
    case _ => 0
  }

  lemma {:induction false} MissingFirstIs(w: World, s: State, recipe: Recipe, item: string, k: nat)
    returns (j: nat)
    requires k <= |recipe.ingredients|
    requires forall i | 0 <= i < |recipe.ingredients| :: recipe.ingredients[i].0 in w.resources
    ensures k <= j <= |recipe.ingredients|
    ensures forall i | k <= i < j :: Count(s.inventory, recipe.ingredients[i].0) >= recipe.ingredients[i].1
    ensures j < |recipe.ingredients| ==>
              Count(s.inventory, recipe.ingredients[j].0) < recipe.ingredients[j].1
    ensures MissingFirst(w, s, recipe, item, k) ==
            if j == |recipe.ingredients| then At(recipe.station, Craft(item))
            else At(w.resources[recipe.ingredients[j].0], Collect(recipe.ingredients[j].0))
    decreases |recipe.ingredients| - k
  {
    if k == |recipe.ingredients| || Count(s.inventory, recipe.ingredients[k].0) < recipe.ingredients[k].1 {
      j := k;
    } else {
      j := MissingFirstIs(w, s, recipe, item, k + 1);
    }
  }

  /** A realizable goal that is not complete needs an action at one of its stops. */
  lemma NeedIsAStop(w: World, goal: Goal, s: State)
    requires Realizable(w, goal, s)
    ensures NextNeed(w, goal, s) == Complete <==> IsComplete(goal, s)
    ensures !IsComplete(goal, s) ==> NextNeed(w, goal, s).At? && NextNeed(w, goal, s).place in Stops(w, goal)
  {
    if goal.kind == CraftGoal && !IsComplete(goal, s) {
      var j := MissingFirstIs(w, s, w.recipes[goal.target], goal.target, 0);
    }
  }

  /** Moving toward a stop keeps the goal realizable and, since needs depend on the
      inventory alone, brings the needed place one step closer. */
  lemma MoveProgress(w: World, goal: Goal, s: State, h: Place)
    requires Sound(w) && Realizable(w, goal, s) && !IsComplete(goal, s)
    requires var need := NextNeed(w, goal, s); need.At? && FirstHop(w.edges, s.location, need.place, h)
    ensures Accepted(w, s, Move(h))
    ensures var after := Step(w, s, Move(h));
            && Realizable(w, goal, after)
            && (IsComplete(goal, after) || DistanceLeft(w, goal, after) < DistanceLeft(w, goal, s))
            && Units(goal, after) == Units(goal, s) && MissingFor(w, goal, after) == MissingFor(w, goal, s)
  {
    var place := NextNeed(w, goal, s).place;
    NeedIsAStop(w, goal, s);
    HopIsCloser(w.edges, s.location, place, h);
    var after := Step(w, s, Move(h));
    forall a | a in Stops(w, goal) ensures Reaches(w.edges, h, a) {
      ReachesTransitive(w.edges, h, place, a);
    }
    if goal.kind == CraftGoal { SameNeed(w, s, after, w.recipes[goal.target], goal.target, 0); }
  }

  lemma {:induction false} SameNeed(w: World, s: State, t: State, recipe: Recipe, item: string, k: nat)
    requires k <= |recipe.ingredients| && s.inventory == t.inventory
    ensures MissingFirst(w, s, recipe, item, k) == MissingFirst(w, t, recipe, item, k)
    decreases |recipe.ingredients| - k
  {
    if k < |recipe.ingredients| { SameNeed(w, s, t, recipe, item, k + 1); }
  }

  lemma {:induction false} MissingAfterGain(inventory: map<string, int>, ingredients: seq<(string, nat)>, name: string)
    requires ClosedWorld.Distinct(ingredients)
    ensures (forall i | 0 <= i < |ingredients| :: ingredients[i].0 != name) ==>
              Missing(Gain(inventory, name), ingredients) == Missing(inventory, ingredients)
    ensures forall i |
              0 <= i < |ingredients| && ingredients[i].0 == name && Count(inventory, name) < ingredients[i].1 ::
              Missing(Gain(inventory, name), ingredients) + 1 == Missing(inventory, ingredients)
  {
    if ingredients != [] {
      var front, last := ingredients[..|ingredients| - 1], ingredients[|ingredients| - 1];
      MissingAfterGain(inventory, front, name);
      assert forall i | 0 <= i < |front| :: front[i] == ingredients[i] && front[i].0 != last.0;
    }
  }

  lemma {:induction false} MissingAtMost(inventory: map<string, int>, ingredients: seq<(string, nat)>)
    requires forall i | 0 <= i < |ingredients| :: Count(inventory, ingredients[i].0) >= 0
    ensures Missing(inventory, ingredients) <= Total(ingredients)
  {
    if ingredients != [] { MissingAtMost(inventory, ingredients[..|ingredients| - 1]); }
  }

  ghost function Total(ingredients: seq<(string, nat)>): nat {
    if ingredients == [] then 0 else Total(ingredients[..|ingredients| - 1]) + ingredients[|ingredients| - 1].1
  }

  /** Acting where the need is: a collect takes a unit off the goal or off the missing
      ingredients, a craft takes a unit off the goal. */
  lemma ActProgress(w: World, goal: Goal, s: State)
    requires Sound(w) && Realizable(w, goal, s) && !IsComplete(goal, s)
    requires NextNeed(w, goal, s).At? && NextNeed(w, goal, s).place == s.location
    ensures var action := NextNeed(w, goal, s).action; var after := Step(w, s, action);
            && Accepted(w, s, action)
            && Realizable(w, goal, after)
            && (|| Units(goal, after) < Units(goal, s)
                || (Units(goal, after) == Units(goal, s) && MissingFor(w, goal, after) < MissingFor(w, goal, s)))
  {
    if goal.kind == CraftGoal {
      var recipe := w.recipes[goal.target];
      var j := MissingFirstIs(w, s, recipe, goal.target, 0);
      if j < |recipe.ingredients| {
        MissingAfterGain(s.inventory, recipe.ingredients, recipe.ingredients[j].0);
      } else {
        ConsumeTakes(s.inventory, recipe.ingredients, goal.target);
        TakesListed(recipe.ingredients, goal.target);
      }
    }
  }

  // ---- The closed loop ----

  /** One lap of the loop: the decision is accepted by the dynamics and strictly
      decreases (units left, ingredients missing, distance); it is to finish exactly
      when the completion check holds. */
  lemma DecisionProgress(w: World, goal: Goal, s: State, d: Decision)
    requires Sound(w) && Realizable(w, goal, s) && Decides(w, s, NextNeed(w, goal, s), d)
    ensures d == Finish <==> IsComplete(goal, s)
    ensures d != Finish ==>
              var after := Step(w, s, if d.Do? then d.action else Other(""));
              && d.Do? && Accepted(w, s, d.action)
              && Realizable(w, goal, after)
              && (|| IsComplete(goal, after)
                  || Units(goal, after) < Units(goal, s)
                  || (Units(goal, after) == Units(goal, s) && MissingFor(w, goal, after) < MissingFor(w, goal, s))
                  || (Units(goal, after) == Units(goal, s) && MissingFor(w, goal, after) == MissingFor(w, goal, s)
                      && DistanceLeft(w, goal, after) < DistanceLeft(w, goal, s)))
  {
    NeedIsAStop(w, goal, s);
    if !IsComplete(goal, s) {
      var need := NextNeed(w, goal, s);
      if s.location == need.place {
        ActProgress(w, goal, s);
      } else {
        MoveProgress(w, goal, s, d.action.target);
      }
    }
  }

  /** One more than the number of places on the map. */
  ghost function MapSize(w: World): nat {
    |OnMap(w.edges)| + 1
  }

  lemma DistanceBelowMapSize(w: World, goal: Goal, s: State)
    ensures DistanceLeft(w, goal, s) < MapSize(w)
  {
    var need := NextNeed(w, goal, s);
    if need.At? && Reaches(w.edges, s.location, need.place) {
      DistanceBelowPlaces(w.edges, s.location, need.place);
      PlacesAtMost(w.edges, s.location);
    }
  }

  ghost function RecipeSize(w: World, goal: Goal): nat {
    if goal.kind == CraftGoal && goal.target in w.recipes then Total(w.recipes[goal.target].ingredients) else 0
  }

  /** How many collects and crafts are left at most. */
  ghost function Actions(w: World, goal: Goal, s: State): nat {
    Scale(Units(goal, s), RecipeSize(w, goal) + 1) + MissingFor(w, goal, s)
  }

  /** A bound on the laps left: each collect or craft, and the arrival for a visit,
      takes at most one trip across the map. */
  ghost function Laps(w: World, goal: Goal, s: State): nat {
    if IsComplete(goal, s) then 0 else Scale(Actions(w, goal, s), MapSize(w)) + DistanceLeft(w, goal, s)
  }

  /** The bound in the numbers it is made of. */
  lemma LapsAtMost(w: World, goal: Goal, s: State)
    ensures Laps(w, goal, s) <=
            (Units(goal, s) * (RecipeSize(w, goal) + 1) + MissingFor(w, goal, s)) * MapSize(w)
            + DistanceLeft(w, goal, s)
  {
    ScaleIsProduct(Units(goal, s), RecipeSize(w, goal) + 1);
    ScaleIsProduct(Actions(w, goal, s), MapSize(w));
  }

  lemma ActionsDrop(w: World, goal: Goal, s: State, t: State)
    requires Coherent(w, t) && !IsComplete(goal, t)
    requires || Units(goal, t) < Units(goal, s)
             || (Units(goal, t) == Units(goal, s) && MissingFor(w, goal, t) < MissingFor(w, goal, s))
    ensures Actions(w, goal, t) < Actions(w, goal, s)
  {
    if Units(goal, t) < Units(goal, s) {
      if goal.kind == CraftGoal && goal.target in w.recipes {
        MissingAtMost(t.inventory, w.recipes[goal.target].ingredients);
      }
      ScaleDrop(Units(goal, t), Units(goal, s), RecipeSize(w, goal) + 1, MissingFor(w, goal, t));
    }
  }

  lemma StillAway(g: Graph, x: Place, y: Place)
    requires Reaches(g, x, y) && x != y
    ensures Distance(g, x, y) > 0
  {
    var p := ShortestWalk(g, x, y);
  }

  lemma IncompleteNeedsALap(w: World, goal: Goal, s: State)
    requires Realizable(w, goal, s) && !IsComplete(goal, s)
    ensures Laps(w, goal, s) > 0
  {
    if goal.kind == VisitGoal {
      assert goal.target in Stops(w, goal);
      StillAway(w.edges, s.location, goal.target);
    } else {
      ScaleDrop(0, Units(goal, s), RecipeSize(w, goal) + 1, 0);
      ScaleDrop(0, Actions(w, goal, s), MapSize(w), 0);
    }
  }

  /** Progress in the order of units, ingredients and distance brings the bound down. */
  lemma LapsDrop(w: World, goal: Goal, s: State, after: State)
    requires Coherent(w, after) && !IsComplete(goal, s) && Laps(w, goal, s) > 0
    requires || IsComplete(goal, after)
             || Units(goal, after) < Units(goal, s)
             || (Units(goal, after) == Units(goal, s) && MissingFor(w, goal, after) < MissingFor(w, goal, s))
             || (Units(goal, after) == Units(goal, s) && MissingFor(w, goal, after) == MissingFor(w, goal, s)
                 && DistanceLeft(w, goal, after) < DistanceLeft(w, goal, s))
    ensures Laps(w, goal, after) < Laps(w, goal, s)
  {
    if !IsComplete(goal, after) {
      if Units(goal, after) == Units(goal, s) && MissingFor(w, goal, after) == MissingFor(w, goal, s) {
        assert Actions(w, goal, after) == Actions(w, goal, s);
      } else {
        DistanceBelowMapSize(w, goal, after);
        ActionsDrop(w, goal, s, after);
        ScaleDrop(Actions(w, goal, after), Actions(w, goal, s), MapSize(w), DistanceLeft(w, goal, after));
      }
    }
  }

  /** Every lap brings the bound down. */
  lemma LapsDecrease(w: World, goal: Goal, s: State, d: Decision)
    requires Sound(w) && Coherent(w, s) && Realizable(w, goal, s) && !IsComplete(goal, s)
    requires Decides(w, s, NextNeed(w, goal, s), d)
    ensures d.Do? && Laps(w, goal, Step(w, s, d.action)) < Laps(w, goal, s)
  {
    DecisionProgress(w, goal, s, d);
    IncompleteNeedsALap(w, goal, s);
    StepCoherent(w, s, d.action);
    LapsDrop(w, goal, s, Step(w, s, d.action));
  }

  /** At the target, or with the quantity and not a unit more than that or than there was
      at the start. */
  predicate Reached(goal: Goal, start: State, s: State) {
    match goal.kind
    case VisitGoal => s.location == goal.target
    case _ =>
      var had := if goal.target in start.inventory then start.inventory[goal.target] else 0;
      var has := if goal.target in s.inventory then s.inventory[goal.target] else 0;
      has == if had > goal.quantity then had else goal.quantity
  }

  predicate NotPast(goal: Goal, start: State, s: State) {
    s == start || goal.kind == VisitGoal || Count(s.inventory, goal.target) <= goal.quantity
  }

  lemma LapNotPast(w: World, goal: Goal, start: State, s: State, a: Action)
    requires Sound(w) && NotPast(goal, start, s) && !IsComplete(goal, s)
    ensures NotPast(goal, start, Step(w, s, a))
  {
    var after := Count(Step(w, s, a).inventory, goal.target);
    if after > Count(s.inventory, goal.target) { CountRises(w, s, a, goal.target); }
  }

  /** A loop that has come from `start` to `s` by these actions, all accepted, within the
      bound. */
  ghost predicate OnTheWay(w: World, goal: Goal, start: State, s: State, actions: seq<Action>) {
    && Coherent(w, s) && Realizable(w, goal, s) && NotPast(goal, start, s)
    && s == Play(w, start, actions) && AcceptedCount(w, start, actions) == |actions|
    && |actions| + Laps(w, goal, s) <= Laps(w, goal, start)
  }

  lemma PlaySnoc(w: World, start: State, actions: seq<Action>, a: Action)
    ensures Play(w, start, actions + [a]) == Step(w, Play(w, start, actions), a)
    ensures AcceptedCount(w, start, actions + [a]) ==
            AcceptedCount(w, start, actions) + if Accepted(w, Play(w, start, actions), a) then 1 else 0
  {
    assert (actions + [a])[..|actions|] == actions;
  }

  /** One lap. */
  lemma Lap(w: World, goal: Goal, start: State, s: State, actions: seq<Action>, d: Decision)
    requires Sound(w) && OnTheWay(w, goal, start, s, actions) && d != Finish
    requires Decides(w, s, NextNeed(w, goal, s), d)
    ensures d.Do? && Accepted(w, s, d.action)
    ensures OnTheWay(w, goal, start, Step(w, s, d.action), actions + [d.action])
    ensures Laps(w, goal, Step(w, s, d.action)) < Laps(w, goal, s)
  {
    DecisionProgress(w, goal, s, d);
    LapsDecrease(w, goal, s, d);
    LapNotPast(w, goal, start, s, d.action);
    StepCoherent(w, s, d.action);
    PlaySnoc(w, start, actions, d.action);
  }

  /** Planning and acting in a loop completes every realizable goal, of any quantity,
      within the bound; every action on the way is accepted. */
  method Pursue(w: World, goal: Goal, start: State) returns (s: State, ghost actions: seq<Action>)
    requires Sound(w) && Coherent(w, start) && Realizable(w, goal, start)
    ensures IsComplete(goal, s) && Reached(goal, start, s)
    ensures s == Play(w, start, actions) && AcceptedCount(w, start, actions) == |actions|
    ensures |actions| <= Laps(w, goal, start)
  {
    s, actions := start, [];
    var d := Decide(w, goal, s);
    while d != Finish
      invariant OnTheWay(w, goal, start, s, actions) && Decides(w, s, NextNeed(w, goal, s), d)
      decreases Laps(w, goal, s)
    {
      Lap(w, goal, start, s, actions, d);
      var r := Transit(w, s, d.action);
      actions := actions + [d.action];
      s := r.state;
      d := Decide(w, goal, s);
    }
    DecisionProgress(w, goal, s, d);
  }
}
