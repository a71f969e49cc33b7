/** What runs of the closed world may reach and gain. */
module ClosedWorldRuns {
  import opened WorldGraph
  import opened ClosedWorld

  // ---- What is accepted ----

  /** The action can happen here: along an edge of the map, at the resource's place, or at
      the recipe's station with every ingredient there. */
  predicate Possible(w: World, s: State, a: Action) {
    match a
    case Move(target) => s.location in w.edges && target in w.edges[s.location]
    case Collect(resource) => resource in w.resources && s.location == w.resources[resource]
    case Craft(item) =>
      && item in w.recipes && s.location == w.recipes[item].station
      && HasAll(s.inventory, w.recipes[item].ingredients)
    case Other(_) => false
  }

  predicate HasAll(inventory: map<string, int>, ingredients: seq<(string, nat)>) {
    forall i | 0 <= i < |ingredients| ::
      if ingredients[i].0 in inventory then inventory[ingredients[i].0] >= ingredients[i].1 else ingredients[i].1 == 0
  }

  lemma EnoughIsAll(inventory: map<string, int>, ingredients: seq<(string, nat)>)
    ensures Enough(inventory, ingredients) <==> HasAll(inventory, ingredients)
  {
    if Enough(inventory, ingredients) {
      forall i | 0 <= i < |ingredients|
        ensures if ingredients[i].0 in inventory then inventory[ingredients[i].0] >= ingredients[i].1
                else ingredients[i].1 == 0
      {
        assert Count(inventory, ingredients[i].0) >= ingredients[i].1;
      }
    }
  }

  /** Exactly the possible actions are accepted, and a rejection names what is wrong. */
  lemma AcceptedExactly(w: World, s: State, a: Action)
    requires Sound(w)
    ensures Accepted(w, s, a) <==> Possible(w, s, a)
    ensures !Possible(w, s, a) ==>
              Result(w, s, a) ==
              match a
              case Move(_) => Rejected("not_adjacent")
              case Collect(_) => Rejected("resource_not_present")
              case Craft(item) =>
                if item !in w.recipes then Rejected("unknown_recipe")
                else if s.location != w.recipes[item].station then Rejected("wrong_station")
                else Rejected("missing_ingredient")
              case Other(_) => Unsupported
  {
    match a
    case Move(target) =>
      if Possible(w, s, a) { assert target in Neighbours(w.edges, s.location); }
    case Craft(item) =>
      if item in w.recipes { EnoughIsAll(s.inventory, w.recipes[item].ingredients); }
    case _ =>
  }

  /** A count rises by one at most, and only by collecting at the resource's place or by
      crafting at the recipe's station with every ingredient there. */
  lemma CountRises(w: World, s: State, a: Action, name: string)
    requires Sound(w) && Count(Step(w, s, a).inventory, name) > Count(s.inventory, name)
    ensures Possible(w, s, a) && (a == Collect(name) || a == Craft(name))
    ensures Count(Step(w, s, a).inventory, name) <= Count(s.inventory, name) + 1
  {
    AcceptedExactly(w, s, a);
    if a.Craft? && a.item in w.recipes {
      ConsumeTakes(s.inventory, w.recipes[a.item].ingredients, name);
      ConsumeTakes(s.inventory, w.recipes[a.item].ingredients, a.item);
    }
  }

  // ---- Where a run goes ----

  /** The places passed through, in order. */
  function Trail(w: World, s: State, actions: seq<Action>): seq<Place> {
    if actions == [] then [s.location]
    else
      var front, a := actions[..|actions| - 1], actions[|actions| - 1];
      Trail(w, s, front) + if a.Move? && Accepted(w, Play(w, s, front), a) then [a.target] else []
  }

  lemma WalkSnoc(g: Graph, s: Place, t: Place, p: seq<Place>, x: Place)
    requires WalkBetween(g, s, t, p) && x in Neighbours(g, t)
    ensures WalkBetween(g, s, x, p + [x])
  {
    forall i | 0 < i < |p + [x]| ensures (p + [x])[i] in Neighbours(g, (p + [x])[i - 1]) {
      if i < |p| { assert p[i] in Neighbours(g, p[i - 1]); }
    }
  }

  lemma StepMoves(w: World, s: State, a: Action)
    requires Sound(w)
    ensures if a.Move? && Accepted(w, s, a)
            then Step(w, s, a).location == a.target && a.target in Neighbours(w.edges, s.location)
            else Step(w, s, a).location == s.location
  {
    AcceptedExactly(w, s, a);
  }

  /** Over any actions the places passed through are a walk of the map, from the start to
      where the run is. */
  lemma {:induction false} TrailIsWalk(w: World, s: State, actions: seq<Action>)
    requires Sound(w)
    ensures WalkBetween(w.edges, s.location, Play(w, s, actions).location, Trail(w, s, actions))
  {
    if actions != [] {
      var front, a := actions[..|actions| - 1], actions[|actions| - 1];
      TrailIsWalk(w, s, front);
      var before := Play(w, s, front);
      StepMoves(w, before, a);
      if a.Move? && Accepted(w, before, a) {
        WalkSnoc(w.edges, s.location, before.location, Trail(w, s, front), a.target);
      }
    }
  }

  /** Nothing is reached that the map does not connect. */
  lemma OnlyReachable(w: World, s: State, actions: seq<Action>)
    requires Sound(w)
    ensures Reaches(w.edges, s.location, Play(w, s, actions).location)
  {
    TrailIsWalk(w, s, actions);
  }

  // ---- What a run remembers ----

  /** `v` lists the places of `h`, each once, in the order of their first visits. */
  ghost predicate FirstVisits(v: seq<Place>, h: seq<Place>) {
    && (forall x :: x in v <==> x in h)
    && (forall i, j | 0 <= i < j < |v| :: v[i] != v[j] && SeenBefore(h, v[i], v[j]))
  }

  /** `x` occurs in `h` before any `y`. */
  ghost predicate SeenBefore(h: seq<Place>, x: Place, y: Place) {
    exists a :: 0 <= a < |h| && h[a] == x && y !in h[..a]
  }

  lemma SeenBeforeGrows(h: seq<Place>, x: Place, y: Place, z: Place)
    requires SeenBefore(h, x, y)
    ensures SeenBefore(h + [z], x, y)
  {
    var a :| 0 <= a < |h| && h[a] == x && y !in h[..a];
    assert (h + [z])[a] == x && (h + [z])[..a] == h[..a];
  }

  lemma VisitsGrow(v: seq<Place>, h: seq<Place>, x: Place)
    requires FirstVisits(v, h)
    ensures FirstVisits(if x in v then v else v + [x], h + [x])
  {
    var after := if x in v then v else v + [x];
    forall i, j | 0 <= i < j < |after| ensures after[i] != after[j] && SeenBefore(h + [x], after[i], after[j]) {
      if j < |v| {
        SeenBeforeGrows(h, v[i], v[j], x);
      } else {
        assert v[i] in h;
        var a :| 0 <= a < |h| && h[a] == v[i];
        assert (h + [x])[a] == v[i] && (h + [x])[..a] == h[..a] && x !in h;
      }
    }
  }

  lemma OnePlace(x: Place)
    ensures FirstVisits([x], [x])
  {
  }

  lemma StepVisits(w: World, s: State, a: Action)
    ensures Step(w, s, a).visited ==
            if a.Move? && Accepted(w, s, a) && a.target !in s.visited then s.visited + [a.target] else s.visited
  {
  }

  /** A run that starts with only its own place visited has visited exactly the places it
      passed through, listed once each in the order of their first visits. */
  lemma {:induction false} VisitedIsTrail(w: World, s: State, actions: seq<Action>)
    requires s.visited == [s.location]
    ensures FirstVisits(Play(w, s, actions).visited, Trail(w, s, actions))
  {
    if actions == [] {
      OnePlace(s.location);
    } else {
      var front, a := actions[..|actions| - 1], actions[|actions| - 1];
      VisitedIsTrail(w, s, front);
      StepVisits(w, Play(w, s, front), a);
      if a.Move? && Accepted(w, Play(w, s, front), a) {
        VisitsGrow(Play(w, s, front).visited, Trail(w, s, front), a.target);
        assert Trail(w, s, actions) == Trail(w, s, front) + [a.target];
      } else {
        assert Trail(w, s, actions) == Trail(w, s, front);
      }
    }
  }

  /** The items of the accepted crafts, in order. */
  function Crafts(w: World, s: State, actions: seq<Action>): seq<string> {
    if actions == [] then []
    else
      var front, a := actions[..|actions| - 1], actions[|actions| - 1];
      Crafts(w, s, front) + if a.Craft? && Accepted(w, Play(w, s, front), a) then [a.item] else []
  }

  lemma {:induction false} CraftedAreCrafts(w: World, s: State, actions: seq<Action>)
    ensures Play(w, s, actions).crafted == s.crafted + Crafts(w, s, actions)
  {
    if actions != [] { CraftedAreCrafts(w, s, actions[..|actions| - 1]); }
  }
}
