/** The closed-world environment and its dynamics, over any map, resource sites and
    recipes. */
module ClosedWorld {
  import opened WorldGraph

  datatype Recipe = Recipe(station: Place, ingredients: seq<(string, nat)>)

  datatype Position = Position(x: real, y: real, z: real)

  datatype World = World(
    edges: Graph,
    positions: map<Place, Position>,
    resources: map<string, Place>,
    recipes: map<string, Recipe>)

  datatype State = State(
    location: Place,
    position: Position,
    inventory: map<string, int>,
    crafted: seq<string>,
    visited: seq<Place>,
    transitions: int)

  datatype Action = Move(target: Place) | Collect(resource: string) | Craft(item: string) | Other(name: string)

  datatype Transition = Applied(state: State) | Rejected(code: string) | Unsupported

  function Count(inventory: map<string, int>, name: string): int {
    if name in inventory then inventory[name] else 0
  }

  /** What makes the world's tables usable: every place with a way in has a position,
      and each recipe names distinct ingredients, each in a positive amount. */
  ghost predicate Sound(w: World) {
    && (forall x, y | y in Neighbours(w.edges, x) :: y in w.positions)
    && (forall item | item in w.recipes :: Distinct(w.recipes[item].ingredients))
    && (forall item, i | item in w.recipes && 0 <= i < |w.recipes[item].ingredients| ::
          w.recipes[item].ingredients[i].1 > 0)
  }

  ghost predicate Distinct(ingredients: seq<(string, nat)>) {
    forall i, j | 0 <= i < j < |ingredients| :: ingredients[i].0 != ingredients[j].0
  }

  // ---- Dynamics ----

  predicate Enough(inventory: map<string, int>, ingredients: seq<(string, nat)>) {
    forall i | 0 <= i < |ingredients| :: Count(inventory, ingredients[i].0) >= ingredients[i].1
  }

  function Consume(inventory: map<string, int>, ingredients: seq<(string, nat)>): map<string, int> {
    if ingredients == [] then inventory
    else
      var before, last := Consume(inventory, ingredients[..|ingredients| - 1]), ingredients[|ingredients| - 1];
      before[last.0 := Count(before, last.0) - last.1]
  }

  function Gain(inventory: map<string, int>, name: string): map<string, int> {
    inventory[name := Count(inventory, name) + 1]
  }

  function Visit(visited: seq<Place>, x: Place): seq<Place> {
    if x in visited then visited else visited + [x]
  }

  /** The state after an accepted action. */
  function Result(w: World, s: State, a: Action): Transition {
    match a
    case Move(target) =>
      if target !in Neighbours(w.edges, s.location) || target !in w.positions then Rejected("not_adjacent")
      else Applied(s.(location := target, position := w.positions[target],
                      visited := Visit(s.visited, target), transitions := s.transitions + 1))
    case Collect(resource) =>
      if resource !in w.resources || w.resources[resource] != s.location then Rejected("resource_not_present")
      else Applied(s.(inventory := Gain(s.inventory, resource), transitions := s.transitions + 1))
    case Craft(item) =>
      if item !in w.recipes then Rejected("unknown_recipe")
      else if s.location != w.recipes[item].station then Rejected("wrong_station")
      else if !Enough(s.inventory, w.recipes[item].ingredients) then Rejected("missing_ingredient")
      else Applied(s.(inventory := Gain(Consume(s.inventory, w.recipes[item].ingredients), item),
                      crafted := s.crafted + [item], transitions := s.transitions + 1))
    case Other(_) => Unsupported
  }

  method HasIngredients(inventory: map<string, int>, ingredients: seq<(string, nat)>) returns (enough: bool)
    ensures enough <==> Enough(inventory, ingredients)
  {
    for i := 0 to |ingredients|
      invariant Enough(inventory, ingredients[..i])
    {
      if Count(inventory, ingredients[i].0) < ingredients[i].1 { return false; }
    }
    assert ingredients[..|ingredients|] == ingredients;
    return true;
  }

  method TakeIngredients(inventory: map<string, int>, ingredients: seq<(string, nat)>) returns (left: map<string, int>)
    ensures left == Consume(inventory, ingredients)
  {
    left := inventory;
    for i := 0 to |ingredients|
      invariant left == Consume(inventory, ingredients[..i])
    {
      var name, count := ingredients[i].0, ingredients[i].1;
      assert ingredients[..i + 1][..i] == ingredients[..i];
      left := left[name := Count(left, name) - count];
    }
    assert ingredients[..|ingredients|] == ingredients;
  }

  /** The transition function of the environment, editing a copy of the state. */
  method Transit(w: World, s: State, a: Action) returns (r: Transition)
    requires Sound(w)
    ensures r == Result(w, s, a)
  {
    var current := s;
    match a {
      case Move(target) =>
        if target !in Neighbours(w.edges, s.location) { return Rejected("not_adjacent"); }
        current := current.(location := target);
        current := current.(position := w.positions[target]);
        if target !in current.visited {
          current := current.(visited := current.visited + [target]);
        }
      case Collect(resource) =>
        if resource !in w.resources || w.resources[resource] != s.location { return Rejected("resource_not_present"); }
        current := current.(inventory := s.inventory[resource := Count(s.inventory, resource) + 1]);
      case Craft(item) =>
        if item !in w.recipes { return Rejected("unknown_recipe"); }
        var recipe := w.recipes[item];
        if s.location != recipe.station { return Rejected("wrong_station"); }
        var enough := HasIngredients(s.inventory, recipe.ingredients);
        if !enough { return Rejected("missing_ingredient"); }
        var inventory := TakeIngredients(s.inventory, recipe.ingredients);
        current := current.(inventory := inventory[item := Count(inventory, item) + 1]);
        current := current.(crafted := current.crafted + [item]);
      case Other(_) => return Unsupported;
    }
    return Applied(current.(transitions := current.transitions + 1));
  }

  /** One step of a run: a rejected action changes nothing. */
  function Step(w: World, s: State, a: Action): State {
    match Result(w, s, a)
    case Applied(next) => next
    case _ => s
  }

  function Play(w: World, s: State, actions: seq<Action>): State {
    if actions == [] then s
    else Step(w, Play(w, s, actions[..|actions| - 1]), actions[|actions| - 1])
  }

  // ---- What every run keeps ----

  ghost predicate Coherent(w: World, s: State) {
    && s.location in w.positions && s.position == w.positions[s.location]
    && s.location in s.visited
    && (forall i, j | 0 <= i < j < |s.visited| :: s.visited[i] != s.visited[j])
    && (forall name | name in s.inventory :: s.inventory[name] >= 0)
  }

  /** What an ingredient list takes of `name`. */
  function Takes(ingredients: seq<(string, nat)>, name: string): nat {
    if ingredients == [] then 0
    else
      var last := ingredients[|ingredients| - 1];
      Takes(ingredients[..|ingredients| - 1], name) + if last.0 == name then last.1 else 0
  }

  predicate Accepted(w: World, s: State, a: Action) {
    Result(w, s, a).Applied?
  }

  /** The books over a run: units of `name` collected or crafted so far ... */
  ghost function Produced(w: World, s: State, actions: seq<Action>, name: string): nat {
    if actions == [] then 0
    else
      var front, a := actions[..|actions| - 1], actions[|actions| - 1];
      Produced(w, s, front, name) +
      if Accepted(w, Play(w, s, front), a) && (a == Collect(name) || a == Craft(name)) then 1 else 0
  }

  /** ... and units of it used up as an ingredient. */
  ghost function Used(w: World, s: State, actions: seq<Action>, name: string): nat {
    if actions == [] then 0
    else
      var front, a := actions[..|actions| - 1], actions[|actions| - 1];
      Used(w, s, front, name) +
      if a.Craft? && Accepted(w, Play(w, s, front), a) then Takes(w.recipes[a.item].ingredients, name) else 0
  }

  ghost function AcceptedCount(w: World, s: State, actions: seq<Action>): nat {
    if actions == [] then 0
    else
      var front := actions[..|actions| - 1];
      AcceptedCount(w, s, front) + if Accepted(w, Play(w, s, front), actions[|actions| - 1]) then 1 else 0
  }

  lemma {:induction false} ConsumeTakes(inventory: map<string, int>, ingredients: seq<(string, nat)>, name: string)
    ensures Count(Consume(inventory, ingredients), name) == Count(inventory, name) - Takes(ingredients, name)
  {
    if ingredients != [] {
      ConsumeTakes(inventory, ingredients[..|ingredients| - 1], name);
      ConsumeTakes(inventory, ingredients[..|ingredients| - 1], ingredients[|ingredients| - 1].0);
    }
  }

  lemma {:induction false} TakesListed(ingredients: seq<(string, nat)>, name: string)
    requires Distinct(ingredients)
    ensures forall i | 0 <= i < |ingredients| && ingredients[i].0 == name ::
              Takes(ingredients, name) == ingredients[i].1
    ensures (forall i | 0 <= i < |ingredients| :: ingredients[i].0 != name) ==> Takes(ingredients, name) == 0
  {
    if ingredients != [] {
      var front, last := ingredients[..|ingredients| - 1], ingredients[|ingredients| - 1];
      TakesListed(front, name);
      assert forall i | 0 <= i < |front| :: front[i] == ingredients[i] && front[i].0 != last.0;
    }
  }

  /** Conservation: after any actions, accepted or not, the count of every item is what
      it was at the start, plus what was collected and crafted, minus what was used. */
  lemma {:induction false} Conservation(w: World, s: State, actions: seq<Action>, name: string)
    ensures Count(Play(w, s, actions).inventory, name) ==
            Count(s.inventory, name) + Produced(w, s, actions, name) - Used(w, s, actions, name)
    ensures Play(w, s, actions).transitions == s.transitions + AcceptedCount(w, s, actions)
  {
    if actions != [] {
      var front, a := actions[..|actions| - 1], actions[|actions| - 1];
      Conservation(w, s, front, name);
      if a.Craft? && a.item in w.recipes {
        ConsumeTakes(Play(w, s, front).inventory, w.recipes[a.item].ingredients, name);
        ConsumeTakes(Play(w, s, front).inventory, w.recipes[a.item].ingredients, a.item);
      }
    }
  }

  lemma ConsumeNonNegative(inventory: map<string, int>, ingredients: seq<(string, nat)>, name: string)
    requires Distinct(ingredients) && Enough(inventory, ingredients)
    requires forall n | n in inventory :: inventory[n] >= 0
    ensures Count(Consume(inventory, ingredients), name) >= 0
  {
    ConsumeTakes(inventory, ingredients, name);
    TakesListed(ingredients, name);
  }

  lemma StepCoherent(w: World, s: State, a: Action)
    requires Sound(w) && Coherent(w, s)
    ensures Coherent(w, Step(w, s, a))
  {
    if a.Craft? && Accepted(w, s, a) {
      var left := Consume(s.inventory, w.recipes[a.item].ingredients);
      forall name | name in Gain(left, a.item) ensures Gain(left, a.item)[name] >= 0 {
        ConsumeNonNegative(s.inventory, w.recipes[a.item].ingredients, name);
        assert name in left ==> Count(left, name) == left[name];
      }
    }
  }

  /** Coherence: after any actions the position is the location's, the location has
      been visited, no visit is listed twice and no count is negative. */
  lemma {:induction false} PlayCoherent(w: World, s: State, actions: seq<Action>)
    requires Sound(w) && Coherent(w, s)
    ensures Coherent(w, Play(w, s, actions))
  {
    if actions != [] {
      PlayCoherent(w, s, actions[..|actions| - 1]);
      StepCoherent(w, Play(w, s, actions[..|actions| - 1]), actions[|actions| - 1]);
    }
  }
}
