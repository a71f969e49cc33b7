/** The reference world of the experiments as an instance of the closed world: its
    tables are sound, and every goal it knows can be realized from every one of its
    places. */
module ReferenceWorld {
  import opened WorldGraph
  import opened ClosedWorld
  import opened ClosedWorldPlanner

  const EDGES: Graph := map[
    "hub" := ["forest", "quarry"],
    "forest" := ["hub", "workshop"],
    "quarry" := ["hub", "workshop"],
    "workshop" := ["forest", "quarry", "shelter"],
    "shelter" := ["workshop"]
  ]

  const REFERENCE: World := World(
    EDGES,
    map[
      "hub" := Position(0.0, 0.0, 0.0),
      "forest" := Position(1.0, 0.0, 0.0),
      "quarry" := Position(0.0, 0.0, 1.0),
      "workshop" := Position(1.0, 0.0, 1.0),
      "shelter" := Position(2.0, 0.0, 1.0)
    ],
    map["wood" := "forest", "stone" := "quarry"],
    map[
      "planks" := Recipe("workshop", [("wood", 1)]),
      "marker" := Recipe("workshop", [("wood", 1), ("stone", 1)])
    ])

  const INITIAL: State := State("hub", Position(0.0, 0.0, 0.0), map[], [], ["hub"], 0)

  lemma EdgesHavePositions()
    ensures forall x, y | y in Neighbours(REFERENCE.edges, x) :: y in REFERENCE.positions
  {
    forall x, y | y in Neighbours(REFERENCE.edges, x) ensures y in REFERENCE.positions {
      assert x in EDGES;
    }
  }

  lemma RecipesSound()
    ensures forall item | item in REFERENCE.recipes :: Distinct(REFERENCE.recipes[item].ingredients)
    ensures forall item, i | item in REFERENCE.recipes && 0 <= i < |REFERENCE.recipes[item].ingredients| ::
              REFERENCE.recipes[item].ingredients[i].1 > 0
  {
  }

  lemma InitialCoherent()
    ensures Coherent(REFERENCE, INITIAL)
  {
  }

  lemma ReferenceSound()
    ensures Sound(REFERENCE) && Coherent(REFERENCE, INITIAL)
  {
    EdgesHavePositions();
    RecipesSound();
    InitialCoherent();
  }

  lemma Link(x: Place, y: Place)
    requires y in Neighbours(EDGES, x)
    ensures Reaches(EDGES, x, y)
  {
    assert WalkBetween(EDGES, x, y, [x, y]);
  }

  lemma HubLinks(x: Place)
    requires x in EDGES
    ensures Reaches(EDGES, x, "hub") && Reaches(EDGES, "hub", x)
  {
    ReachesSelf(EDGES, "hub");
    assert EDGES["hub"][0] == "forest" && EDGES["hub"][1] == "quarry";
    assert EDGES["forest"][0] == "hub" && EDGES["forest"][1] == "workshop";
    assert EDGES["quarry"][0] == "hub";
    assert EDGES["workshop"][0] == "forest" && EDGES["workshop"][2] == "shelter";
    assert EDGES["shelter"][0] == "workshop";
    Link("hub", "forest"); Link("hub", "quarry"); Link("forest", "hub"); Link("quarry", "hub");
    Link("forest", "workshop"); Link("workshop", "forest"); Link("workshop", "shelter"); Link("shelter", "workshop");
    ReachesTransitive(EDGES, "hub", "forest", "workshop");
    ReachesTransitive(EDGES, "workshop", "forest", "hub");
    ReachesTransitive(EDGES, "hub", "workshop", "shelter");
    ReachesTransitive(EDGES, "shelter", "workshop", "hub");
  }

  lemma Connected(x: Place, y: Place)
    requires x in EDGES && y in EDGES
    ensures Reaches(EDGES, x, y)
  {
    HubLinks(x);
    HubLinks(y);
    ReachesTransitive(EDGES, x, "hub", y);
  }

  /** The goals of the reference world: any of its places, resources or recipes. */
  predicate Known(goal: Goal) {
    match goal.kind
    case VisitGoal => goal.target in EDGES
    case CollectGoal => goal.target in REFERENCE.resources
    case CraftGoal => goal.target in REFERENCE.recipes
  }

  /** In the reference world every known goal, of any quantity and from any place, is
      realizable, so that planning and acting in a loop completes it. */
  lemma EveryKnownGoalRealizable(goal: Goal, s: State)
    requires Known(goal) && s.location in EDGES
    ensures Realizable(REFERENCE, goal, s)
  {
    forall a, b | a in EDGES && b in EDGES ensures Reaches(EDGES, a, b) { Connected(a, b); }
    forall a | a in Stops(REFERENCE, goal) ensures a in EDGES {
    }
  }
}
