/** Planning a route: search, then either a plan or a diagnosis. */
module RoutePlanner {
  import opened Basics
  import opened Workspace
  import opened EdgePolicy
  import opened IndexBuild
  import opened RouteSearch
  import opened RouteLaws
  import opened RoutePlans
  import opened RouteDiagnosis

  datatype PlanningResult = PlanningResult(search: SearchState, plan: Option<RoutePlan>, failure: Option<RouteFailure>)

  predicate SameEnds(e: GraphEdge, f: GraphEdge) {
    Joins(e, f.source, f.target) || Joins(e, f.target, f.source)
  }

  /** At most one edge joins any two nodes. */
  ghost predicate SingleEdges(ix: Index) {
    forall e, f {:trigger SameEnds(e, f)} | e in ix.graph && f in ix.graph && SameEnds(e, f) :: e == f
  }

  lemma EdgeOfStep(ix: Index, u: Id, a: Adjacency) returns (e: GraphEdge)
    requires AdjacencyMatches(ix) && a in StepsOf(ix.adjacency, u)
    ensures e in ix.graph && OffersStep(e, u, a)
  {
    e :| e in ix.graph && OffersStep(e, u, a);
  }

  /** The lookup by endpoints finds an edge for every step ... */
  lemma StepIsFound(ix: Index, u: Id, a: Adjacency, e: GraphEdge)
    requires GraphIndexed(ix) && e in ix.graph && OffersStep(e, u, a)
    ensures u in ix.nodes && a.node in ix.nodes && EdgeBetween(ix, u, a.node).Some?
    ensures var found := EdgeBetween(ix, u, a.node).value; found in ix.graph && SameEnds(e, found)
  {
    EdgeBetweenFinds(ix, u, a.node);
  }

  /** The lookup charges a step what the search paid for it ... */
  predicate StepPaid(ix: Index, model: CostModel, u: Id, a: Adjacency) {
    PairCost(ix, model, u, a.node) == Ok(StepCost(RulesOf(ix, model), a))
  }

  /** ... and names the very edge of the step. */
  predicate StepNamed(ix: Index, u: Id, a: Adjacency) {
    EdgeBetween(ix, u, a.node).Some? && EdgeBetween(ix, u, a.node).value.id == a.edge
  }

  ghost predicate AllStepsPaid(ix: Index, model: CostModel) {
    forall u, a :: Usable(ix, RulesOf(ix, model), u, a) ==> StepPaid(ix, model, u, a)
  }

  ghost predicate AllStepsNamed(ix: Index, model: CostModel) {
    forall u, a :: Usable(ix, RulesOf(ix, model), u, a) ==> StepNamed(ix, u, a)
  }

  /** With at most one edge between any two nodes every step is charged and named
      rightly. */
  lemma SingleEdgesAreLookedUpRightly(ix: Index, model: CostModel)
    requires Consistent(ix) && SingleEdges(ix)
    ensures AllStepsPaid(ix, model) && AllStepsNamed(ix, model)
  {
    forall u, a | Usable(ix, RulesOf(ix, model), u, a) ensures StepPaid(ix, model, u, a) && StepNamed(ix, u, a) {
      SingleStepIsLookedUpRightly(ix, model, u, a);
    }
  }

  lemma SingleStepIsLookedUpRightly(ix: Index, model: CostModel, u: Id, a: Adjacency)
    requires Consistent(ix) && SingleEdges(ix) && a in StepsOf(ix.adjacency, u)
    ensures StepPaid(ix, model, u, a) && StepNamed(ix, u, a)
  {
    var e := SingleStepFindsItsEdge(ix, u, a);
    FoundStepIsRight(ix, model, u, a, e);
  }

  lemma SingleStepFindsItsEdge(ix: Index, u: Id, a: Adjacency) returns (e: GraphEdge)
    requires Consistent(ix) && SingleEdges(ix) && a in StepsOf(ix.adjacency, u)
    ensures OffersStep(e, u, a) && u in ix.nodes && a.node in ix.nodes && EdgeBetween(ix, u, a.node) == Some(e)
  {
    e := EdgeOfStep(ix, u, a);
    StepIsFound(ix, u, a, e);
    assert SameEnds(e, EdgeBetween(ix, u, a.node).value);
  }

  lemma FoundStepIsRight(ix: Index, model: CostModel, u: Id, a: Adjacency, e: GraphEdge)
    requires OffersStep(e, u, a) && u in ix.nodes && a.node in ix.nodes && EdgeBetween(ix, u, a.node) == Some(e)
    ensures StepPaid(ix, model, u, a) && StepNamed(ix, u, a)
  {
  }

  lemma {:induction false} StepsAreUsable(ix: Index, r: Rules, start: Id, w: seq<Adjacency>, nodes: seq<Id>, i: nat)
    requires IsWalk(ix, r, start, w) && Visits(w, nodes) && nodes[0] == start
    requires i < |w|
    ensures Usable(ix, r, nodes[i], w[i])
    decreases |w|
  {
    var front := w[..|w| - 1];
    assert EndOf(start, front) == nodes[|w| - 1];
    if i < |w| - 1 {
      assert front[i] == w[i];
      StepsAreUsable(ix, r, start, front, nodes[..|w|], i);
    }
  }

  lemma VisitedIsJoined(ix: Index, r: Rules, start: Id, w: seq<Adjacency>, nodes: seq<Id>)
    requires Consistent(ix) && IsWalk(ix, r, start, w) && Visits(w, nodes) && nodes[0] == start
    ensures Joined(ix, nodes)
  {
    forall i | 1 <= i < |nodes| ensures EdgeBetween(ix, nodes[i - 1], nodes[i]).Some? {
      StepsAreUsable(ix, r, start, w, nodes, i - 1);
      var e := EdgeOfStep(ix, nodes[i - 1], w[i - 1]);
      StepIsFound(ix, nodes[i - 1], w[i - 1], e);
    }
  }

  predicate WalkPaid(ix: Index, model: CostModel, w: seq<Adjacency>, nodes: seq<Id>) {
    Visits(w, nodes) && forall i | 0 <= i < |w| :: StepPaid(ix, model, nodes[i], w[i])
  }

  /** A plan whose lookups charge each step rightly charges what the walk costs. */
  lemma {:induction false} PlanChargesTheWalk(ix: Index, model: CostModel, w: seq<Adjacency>, nodes: seq<Id>, k: nat)
    requires WalkPaid(ix, model, w, nodes) && k <= |w|
    ensures CostTo(ix, model, nodes, k) == Ok(WalkCost(RulesOf(ix, model), w[..k]))
  {
    if k > 0 {
      PlanChargesTheWalk(ix, model, w, nodes, k - 1);
      assert w[..k][..k - 1] == w[..k - 1];
      assert StepPaid(ix, model, nodes[k - 1], w[k - 1]);
    }
  }

  // ---------------------------------------------------------------------------
  // when looking edges up by their ends is right
  // ---------------------------------------------------------------------------

  function EdgesOf(w: seq<Adjacency>): (edges: seq<Id>) {
    Map(w, (a: Adjacency) => a.edge)
  }

  ghost predicate WalkThrough(ix: Index, model: CostModel, start: Id, w: seq<Adjacency>, nodes: seq<Id>) {
    IsWalk(ix, RulesOf(ix, model), start, w) && Visits(w, nodes) && nodes[0] == start
  }

  ghost predicate WalkAgrees(ix: Index, model: CostModel, start: Id, w: seq<Adjacency>, nodes: seq<Id>) {
    WalkThrough(ix, model, start, w, nodes) ==> RouteCost(ix, model, nodes) == Ok(WalkCost(RulesOf(ix, model), w))
  }

  ghost predicate WalkIsNamed(ix: Index, model: CostModel, start: Id, w: seq<Adjacency>, nodes: seq<Id>) {
    WalkThrough(ix, model, start, w, nodes) ==> EdgesMatch(ix, nodes, EdgesOf(w))
  }

  lemma PaidStepsAddUp(ix: Index, model: CostModel, start: Id, w: seq<Adjacency>, nodes: seq<Id>)
    requires AllStepsPaid(ix, model)
    ensures WalkAgrees(ix, model, start, w, nodes)
  {
    if WalkThrough(ix, model, start, w, nodes) {
      forall i | 0 <= i < |w| ensures StepPaid(ix, model, nodes[i], w[i]) {
        StepsAreUsable(ix, RulesOf(ix, model), start, w, nodes, i);
      }
      PlanChargesTheWalk(ix, model, w, nodes, |w|);
      assert w[..|w|] == w;
    }
  }

  lemma WalkedStepIsNamed(ix: Index, r: Rules, start: Id, w: seq<Adjacency>, nodes: seq<Id>, i: nat)
    requires forall u, a :: Usable(ix, r, u, a) ==> StepNamed(ix, u, a)
    requires IsWalk(ix, r, start, w) && Visits(w, nodes) && nodes[0] == start && i < |w|
    ensures StepNamed(ix, nodes[i], w[i]) && w[i].node == nodes[i + 1] && EdgesOf(w)[i] == w[i].edge
  {
    StepsAreUsable(ix, r, start, w, nodes, i);
  }

  lemma NamedStepsMatch(ix: Index, model: CostModel, start: Id, w: seq<Adjacency>, nodes: seq<Id>)
    requires AllStepsNamed(ix, model)
    ensures WalkIsNamed(ix, model, start, w, nodes)
  {
    if WalkThrough(ix, model, start, w, nodes) {
      forall i | 0 <= i < |w|
        ensures EdgeBetween(ix, nodes[i], nodes[i + 1]).Some? && EdgesOf(w)[i] == EdgeBetween(ix, nodes[i], nodes[i + 1]).value.id
      {
        WalkedStepIsNamed(ix, RulesOf(ix, model), start, w, nodes, i);
      }
    }
  }

  lemma OneStepIsAWalk(ix: Index, r: Rules, u: Id, a: Adjacency)
    requires Usable(ix, r, u, a)
    ensures IsWalk(ix, r, u, [a]) && WalkCost(r, [a]) == StepCost(r, a)
  {
    WalkExtends(ix, r, u, [], a);
    assert [] + [a] == [a];
  }

  lemma OneStepWalk(ix: Index, model: CostModel, u: Id, a: Adjacency)
    requires Usable(ix, RulesOf(ix, model), u, a)
    ensures WalkThrough(ix, model, u, [a], [u, a.node])
    ensures WalkCost(RulesOf(ix, model), [a]) == StepCost(RulesOf(ix, model), a)
  {
    OneStepIsAWalk(ix, RulesOf(ix, model), u, a);
  }

  lemma AgreeingWalksPayTheirSteps(ix: Index, model: CostModel, u: Id, a: Adjacency)
    requires WalkAgrees(ix, model, u, [a], [u, a.node]) && Usable(ix, RulesOf(ix, model), u, a)
    ensures StepPaid(ix, model, u, a)
  {
    OneStepWalk(ix, model, u, a);
    PairIsARoute(ix, model, u, a.node);
  }

  lemma NamedWalksNameTheirSteps(ix: Index, model: CostModel, u: Id, a: Adjacency)
    requires WalkIsNamed(ix, model, u, [a], [u, a.node]) && Usable(ix, RulesOf(ix, model), u, a)
    ensures StepNamed(ix, u, a)
  {
    OneStepWalk(ix, model, u, a);
    assert EdgesOf([a])[0] == a.edge;
  }

  /** Costing a route by its nodes agrees with the search on every walk exactly
      when the lookup charges every usable step rightly. */
  lemma CostsAgreeExactly(ix: Index, model: CostModel)
    ensures (forall start, w, nodes :: WalkAgrees(ix, model, start, w, nodes)) <==> AllStepsPaid(ix, model)
  {
    if AllStepsPaid(ix, model) {
      forall start, w, nodes ensures WalkAgrees(ix, model, start, w, nodes) {
        PaidStepsAddUp(ix, model, start, w, nodes);
      }
    }
    if forall start, w, nodes :: WalkAgrees(ix, model, start, w, nodes) {
      AgreementPaysEveryStep(ix, model);
    }
  }

  lemma AgreementPaysEveryStep(ix: Index, model: CostModel)
    requires forall start, w, nodes :: WalkAgrees(ix, model, start, w, nodes)
    ensures AllStepsPaid(ix, model)
  {
    forall u, a | Usable(ix, RulesOf(ix, model), u, a) ensures StepPaid(ix, model, u, a) {
      AgreeingWalksPayTheirSteps(ix, model, u, a);
    }
  }

  /** Listing a route's edges by its nodes gives the edges walked, on every walk,
      exactly when the lookup names every usable step rightly. */
  lemma NamesAgreeExactly(ix: Index, model: CostModel)
    ensures (forall start, w, nodes :: WalkIsNamed(ix, model, start, w, nodes)) <==> AllStepsNamed(ix, model)
  {
    if AllStepsNamed(ix, model) {
      forall start, w, nodes ensures WalkIsNamed(ix, model, start, w, nodes) {
        NamedStepsMatch(ix, model, start, w, nodes);
      }
    }
    if forall start, w, nodes :: WalkIsNamed(ix, model, start, w, nodes) {
      AgreementNamesEveryStep(ix, model);
    }
  }

  lemma AgreementNamesEveryStep(ix: Index, model: CostModel)
    requires forall start, w, nodes :: WalkIsNamed(ix, model, start, w, nodes)
    ensures AllStepsNamed(ix, model)
  {
    forall u, a | Usable(ix, RulesOf(ix, model), u, a) ensures StepNamed(ix, u, a) {
      NamedWalksNameTheirSteps(ix, model, u, a);
    }
  }

  // ---------------------------------------------------------------------------
  // planning
  // ---------------------------------------------------------------------------

  /** Each step drives an open edge of the graph from one node of the route to the
      next, the way the edge allows. */
  ghost predicate DrivesRoads(ix: Index, nodes: seq<Id>, w: seq<Adjacency>)
    requires Visits(w, nodes)
  {
    forall i | 0 <= i < |w| :: DrivesRoad(ix, nodes[i], w[i])
  }

  ghost predicate DrivesRoad(ix: Index, u: Id, a: Adjacency) {
    exists e | e in ix.graph :: e.id == a.edge && MayDrive(ix, e, u, a.node) && IsOpen(ix, e.id)
  }

  lemma WalksDriveRoads(ix: Index, model: CostModel, start: Id, w: seq<Adjacency>, nodes: seq<Id>)
    requires AdjacencyMatches(ix) && WalkThrough(ix, model, start, w, nodes)
    ensures DrivesRoads(ix, nodes, w)
  {
    forall i | 0 <= i < |w| ensures DrivesRoad(ix, nodes[i], w[i]) {
      StepsAreUsable(ix, RulesOf(ix, model), start, w, nodes, i);
      StepIsDriven(ix, model, nodes[i], w[i]);
    }
  }

  lemma StepIsDriven(ix: Index, model: CostModel, u: Id, a: Adjacency)
    requires AdjacencyMatches(ix) && Usable(ix, RulesOf(ix, model), u, a)
    ensures DrivesRoad(ix, u, a)
  {
    assert Usable(ix, Blocking(ix), u, a);
    var e := StepsDriveRoads(ix, true, u, a);
  }

  /** The plan is the search's own route: a simple path of usable steps over open
      roads, whose edges it lists when the lookup names every step rightly. */
  ghost predicate FollowsSearch(ix: Index, model: CostModel, start: Id, goal: Id, s: SearchState, p: RoutePlan) {
    && IsChain(s.predecessors, start, goal, p.nodes) && NoDuplicates(p.nodes)
    && exists w ::
         && Visits(w, p.nodes) && WalkTo(ix, RulesOf(ix, model), start, w, goal) && Some(WalkCost(RulesOf(ix, model), w)) == s.distance
         && (AllStepsNamed(ix, model) ==> p.edges == EdgesOf(w))
         && (AdjacencyMatches(ix) ==> DrivesRoads(ix, p.nodes, w))
  }

  ghost predicate Succeeds(ix: Index, model: CostModel, start: Id, goal: Id, s: SearchState, p: RoutePlan) {
    && WellShaped(p) && p.start == start && p.goal == goal
    && FollowsSearch(ix, model, start, goal, s, p)
    && Describes(ix, model, p.nodes, p)
    && p.steps != [] && p.steps[|p.steps| - 1].cumulative == p.totalCost
    && (AllStepsPaid(ix, model) ==> Some(p.totalCost) == s.distance)
  }

  lemma LastStepIsTheTotal(ix: Index, model: CostModel, p: RoutePlan)
    requires Describes(ix, model, p.nodes, p) && p.nodes != []
    ensures p.steps != [] && p.steps[|p.steps| - 1].cumulative == p.totalCost
  {
    assert StepPriced(ix, model, p.nodes, p.edges, |p.steps| - 1, p.steps[|p.steps| - 1]);
  }

  lemma PlanSucceeds(ix: Index, model: CostModel, start: Id, goal: Id, s: SearchState, p: RoutePlan, w: seq<Adjacency>)
    requires WellShaped(p) && p.start == start && p.goal == goal && Describes(ix, model, p.nodes, p)
    requires IsChain(s.predecessors, start, goal, p.nodes) && NoDuplicates(p.nodes)
    requires Visits(w, p.nodes) && WalkTo(ix, RulesOf(ix, model), start, w, goal) && Some(WalkCost(RulesOf(ix, model), w)) == s.distance
    ensures Succeeds(ix, model, start, goal, s, p)
  {
    LastStepIsTheTotal(ix, model, p);
    if AllStepsPaid(ix, model) {
      PaidStepsAddUp(ix, model, start, w, p.nodes);
    }
    if AdjacencyMatches(ix) {
      WalksDriveRoads(ix, model, start, w, p.nodes);
    }
    if AllStepsNamed(ix, model) {
      NamedStepsMatch(ix, model, start, w, p.nodes);
      MatchedOnce(ix, p.nodes, p.edges, EdgesOf(w));
    }
  }

  /** The failure of a failed plan: of the right kind, and with its cut. */
  ghost predicate Explained(ix: Index, start: Id, goal: Id, f: RouteFailure) {
    && f.kind == KindOf(ix, start, goal)
    && (f.kind == PolicyBlocked ==> f.blockedEdges != [] && CutsLegalWalks(ix, start, goal, f.blockedEdges)
                                    && forall e | e in f.blockedEdges :: IsEdgeHardBlocked(ix, e))
    && (f.kind == Unreachable ==> CutsLooseWalks(ix, start, goal, f.lockedEdges))
  }

  lemma FailureIsExplained(ix: Index, start: Id, goal: Id, model: CostModel, f: RouteFailure)
    requires start in ix.nodes && goal in ix.nodes ==> !Reachable(ix, RulesOf(ix, model), start, goal)
    requires f.kind == KindOf(ix, start, goal)
    requires f.kind == PolicyBlocked ==> ExplainsBlocking(ix, start, goal, f)
    requires f.kind == Unreachable ==> ExplainsDisconnection(ix, start, goal, f)
    ensures Explained(ix, start, goal, f)
  {
    PenaltiesKeepReachability(ix, start, goal);
  }

  /** The plan along a found route, which on a built index never fails; the empty
      plan for a search that found nothing. */
  method BuildRoutePlanFromSearch(ix: Index, s: SearchState, start: Id, goal: Id, model: CostModel, ghost rank: map<Id, nat>)
    returns (built: Result<RoutePlan, RouteError>)
    requires s.found ==> Settled(ix, RulesOf(ix, model), start, goal, s, rank)
    ensures !s.found ==> built.Ok? && built.value.nodes == []
    ensures s.found && Consistent(ix) ==> built.Ok?
    ensures s.found && built.Ok? ==> Succeeds(ix, model, start, goal, s, built.value)
  {
    SettledIsRanked(ix, RulesOf(ix, model), start, goal, s, rank);
    var nodes := ReconstructRouteNodes(s, start, goal, rank);
    built := BuildRoutePlan(ix, start, goal, nodes, model);
    if s.found {
      ghost var w := ChainIsSimplePath(ix, RulesOf(ix, model), start, goal, s, rank, nodes);
      if Consistent(ix) {
        VisitedIsJoined(ix, RulesOf(ix, model), start, w, nodes);
      }
      if built.Ok? {
        PlanSucceeds(ix, model, start, goal, s, built.value, w);
      }
    }
  }

  /** Exactly one of a plan and a failure. A plan follows the search; on a built
      index a found route always becomes a plan; a failed search is explained. */
  method PlanRoute(ix: Index, start: Id, goal: Id, model: CostModel) returns (result: PlanningResult)
    ensures result.plan.Some? <==> result.failure.None?
    ensures result.search.found <==> start in ix.nodes && goal in ix.nodes && Reachable(ix, RulesOf(ix, model), start, goal)
    ensures result.search.found && NonNegative(ix, Unconstrained()) ==>
              result.search.distance.Some? && IsShortest(ix, RulesOf(ix, model), start, goal, result.search.distance.value)
    ensures result.plan.Some? ==> Succeeds(ix, model, start, goal, result.search, result.plan.value)
    ensures Consistent(ix) ==> (result.plan.Some? <==> result.search.found)
    ensures Consistent(ix) ==> (result.plan.Some? <==> start in ix.nodes && goal in ix.nodes && RouteExists(ix, true, start, goal))
    ensures Consistent(ix) && result.failure.Some? ==>
              result.failure.value.kind ==
                if start !in ix.nodes then MissingStartNode
                else if goal !in ix.nodes then MissingGoalNode
                else if RouteExists(ix, false, start, goal) then PolicyBlocked
                else Unreachable
    ensures result.failure.Some? && !result.search.found ==> Explained(ix, start, goal, result.failure.value)
  {
    var search, rank := Dijkstra(ix, RulesOf(ix, model), start, goal);
    RoadsDecide(ix, model, start, goal);
    if !search.found {
      var failure := DiagnoseRouteFailure(ix, start, goal);
      FailureIsExplained(ix, start, goal, model, failure);
      return PlanningResult(search, None, Some(failure));
    }
    SearchIsOptimal(ix, model, start, goal, search, rank);
    var built := BuildRoutePlanFromSearch(ix, search, start, goal, model, rank);
    if built.Err? {
      return PlanningResult(search, None, Some(RouteFailure(Unreachable, [], [], [], [])));
    }
    return PlanningResult(search, Some(built.value), None);
  }

  /** An edge is locked at some nodes when it is one-way, not reversible, and drawn
      to lead into one of them. */
  predicate LeadsInto(e: GraphEdge, s: EdgeSemantics, nodes: seq<Id>) {
    && s.reversible != Some(true)
    && (|| (s.direction == Some(Reverse) && e.source in nodes)
        || (s.direction == Some(Forward) && e.target in nodes && e.source != e.target))
  }

  lemma LockedEdgesLeadIn(ix: Index, nodes: seq<Id>, id: Id)
    requires AdjacencyMatches(ix)
    ensures LockedAt(ix, nodes, id)
       <==> id in ix.edges && exists e | e in ix.graph :: e.id == id && LeadsInto(e, ix.edges[id].semantics, nodes)
  {
    if LockedAt(ix, nodes, id) {
      var n, a :| n in nodes && a in StepsOf(ix.adjacency, n) && a.edge == id && DirectionLocked(ix, a);
      var e :| e in ix.graph && OffersStep(e, n, a);
    }
    forall e | e in ix.graph && e.id == id && id in ix.edges && LeadsInto(e, ix.edges[id].semantics, nodes) ensures LockedAt(ix, nodes, id) {
      if ix.edges[id].semantics.direction == Some(Reverse) {
        assert OffersStep(e, e.source, Adjacency(e.target, id, e.weight, true));
      } else {
        assert OffersStep(e, e.target, Adjacency(e.source, id, e.weight, false));
      }
    }
  }

  lemma RoadsDecide(ix: Index, model: CostModel, start: Id, goal: Id)
    ensures AdjacencyMatches(ix) ==>
              && (Reachable(ix, RulesOf(ix, model), start, goal) <==> RouteExists(ix, true, start, goal))
              && (Reachable(ix, Unconstrained(), start, goal) <==> RouteExists(ix, false, start, goal))
  {
    if AdjacencyMatches(ix) {
      PenaltiesKeepReachability(ix, start, goal);
      ReachableByRoad(ix, true, start, goal);
      ReachableByRoad(ix, false, start, goal);
    }
  }

  lemma SearchIsOptimal(ix: Index, model: CostModel, start: Id, goal: Id, s: SearchState, rank: map<Id, nat>)
    requires Settled(ix, RulesOf(ix, model), start, goal, s, rank)
    ensures NonNegative(ix, Unconstrained()) ==> IsShortest(ix, RulesOf(ix, model), start, goal, s.distance.value)
  {
    if NonNegative(ix, Unconstrained()) {
      WeightsDecide(ix);
    }
  }

  const PLAIN: EdgeSemantics :=
    EdgeSemantics(None, false, None, None, None, None, None, None, None, None, false, None, None, None, None, None)

  // ---------------------------------------------------------------------------
  // where it is wrong
  // ---------------------------------------------------------------------------

  /** Two nodes joined twice: by a blocked edge and by an open one of weight 5. */
  function Twin(blocked: real): Index {
    Index(map[], map[], map[], map[], map[Id(1) := [], Id(2) := []],
          map[Id(11) := EdgeRecord([], PLAIN.(blocked := Some(true))), Id(12) := EdgeRecord([], PLAIN)],
          [GraphEdge(Id(11), Id(1), Id(2), blocked), GraphEdge(Id(12), Id(1), Id(2), 5.0)],
          map[Id(1) := [Adjacency(Id(2), Id(11), blocked, true), Adjacency(Id(2), Id(12), 5.0, true)],
              Id(2) := [Adjacency(Id(1), Id(11), blocked, false), Adjacency(Id(1), Id(12), 5.0, false)]])
  }

  lemma TwinSteps(blocked: real, u: Id, a: Adjacency)
    requires Usable(Twin(blocked), Blocking(Twin(blocked)), u, a)
    ensures a.edge == Id(12) && {u, a.node} == {Id(1), Id(2)}
    ensures StepCost(Blocking(Twin(blocked)), a) == 5.0
  {
    assert IsEdgeHardBlocked(Twin(blocked), Id(11));
  }

  lemma {:induction false} TwinWalks(blocked: real, w: seq<Adjacency>)
    requires IsWalk(Twin(blocked), Blocking(Twin(blocked)), Id(1), w)
    ensures WalkCost(Blocking(Twin(blocked)), w) == 5.0 * |w| as real
  {
    if w != [] {
      TwinWalks(blocked, w[..|w| - 1]);
      TwinSteps(blocked, EndOf(Id(1), w[..|w| - 1]), w[|w| - 1]);
    }
  }

  /** With parallel edges the plan can name an edge the search refused and charge
      its price: the search goes over the open edge at 5, the plan lists the
      blocked one at 1. With equal prices every step is paid rightly and the plan
      still lists the blocked edge. */
  lemma ParallelEdgesMislead(blocked: real)
    ensures
      var ix := Twin(blocked);
      && !SingleEdges(ix) && IsEdgeHardBlocked(ix, Id(11))
      && IsShortest(ix, Blocking(ix), Id(1), Id(2), 5.0)
      && EdgesMatch(ix, [Id(1), Id(2)], [Id(11)]) && !AllStepsNamed(ix, GraphWeight)
      && RouteCost(ix, GraphWeight, [Id(1), Id(2)]) == Ok(blocked)
      && (AllStepsPaid(ix, GraphWeight) <==> blocked == 5.0)
  {
    var ix := Twin(blocked);
    assert SameEnds(ix.graph[0], ix.graph[1]);
    TwinDistance(blocked);
    TwinLookups(blocked);
    PairIsARoute(ix, GraphWeight, Id(1), Id(2));
  }

  lemma TwinLookups(blocked: real)
    ensures !AllStepsNamed(Twin(blocked), GraphWeight)
    ensures AllStepsPaid(Twin(blocked), GraphWeight) <==> blocked == 5.0
  {
    var ix, a := Twin(blocked), Adjacency(Id(2), Id(12), 5.0, true);
    FirstJoinFinds(ix.graph, Id(2), Id(1));
    assert EdgeBetween(ix, Id(1), Id(2)) == Some(ix.graph[0]) && EdgeBetween(ix, Id(2), Id(1)) == Some(ix.graph[0]);
    assert a == StepsOf(ix.adjacency, Id(1))[1];
    assert Usable(ix, Blocking(ix), Id(1), a) && !StepNamed(ix, Id(1), a);
    assert StepPaid(ix, GraphWeight, Id(1), a) <==> blocked == 5.0;
    forall u, b | blocked == 5.0 && Usable(ix, Blocking(ix), u, b) ensures StepPaid(ix, GraphWeight, u, b) {
      TwinSteps(blocked, u, b);
    }
  }

  lemma TwinDistance(blocked: real)
    ensures IsShortest(Twin(blocked), Blocking(Twin(blocked)), Id(1), Id(2), 5.0)
  {
    var ix, a := Twin(blocked), Adjacency(Id(2), Id(12), 5.0, true);
    assert a == StepsOf(ix.adjacency, Id(1))[1];
    WalkExtends(ix, Blocking(ix), Id(1), [], a);
    forall w | WalkTo(ix, Blocking(ix), Id(1), w, Id(2)) ensures 5.0 <= WalkCost(Blocking(ix), w) {
      TwinWalks(blocked, w);
    }
  }
}
