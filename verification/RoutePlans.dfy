/** From a finished search to a route plan: the predecessor chain, the edges and
    zones along it, its cost, and the shape every plan has. */
module RoutePlans {
  import opened Basics
  import opened Workspace
  import opened EdgePolicy
  import opened RouteSearch

  datatype RouteError =
    | MissingNode
    | MissingEdge
    | WrongEndpoint
    | BrokenChain
    | BadShape

  // ---------------------------------------------------------------------------
  // the predecessor chain
  // ---------------------------------------------------------------------------

  /** Predecessors lead from later settled nodes to earlier ones. */
  ghost predicate Ranked(s: SearchState, start: Id, goal: Id, rank: map<Id, nat>) {
    s.found ==>
      && goal in rank
      && forall n {:trigger s.predecessors[n]} | n in rank && n in s.predecessors && n != start ::
           s.predecessors[n] in rank && rank[s.predecessors[n]] < rank[n]
  }

  /** The nodes from `current` to `goal`, each the predecessor of the next, with
      the walk's start nowhere but at the front. */
  predicate IsTail(P: map<Id, Id>, start: Id, current: Id, goal: Id, nodes: seq<Id>) {
    && nodes != [] && nodes[0] == current && nodes[|nodes| - 1] == goal
    && forall i | 1 <= i < |nodes| :: nodes[i] != start && nodes[i] in P && P[nodes[i]] == nodes[i - 1]
  }

  predicate IsChain(P: map<Id, Id>, start: Id, goal: Id, nodes: seq<Id>) {
    IsTail(P, start, start, goal, nodes)
  }

  /** Follows predecessors back from the goal. The settle order makes it end,
      also across edges that cost nothing. */
  method ReconstructRouteNodes(s: SearchState, start: Id, goal: Id, ghost rank: map<Id, nat>) returns (nodes: seq<Id>)
    requires Ranked(s, start, goal, rank)
    ensures nodes != [] ==> s.found && IsChain(s.predecessors, start, goal, nodes)
    ensures nodes == [] ==> !s.found || exists n | n in rank :: n != start && n !in s.predecessors
  {
    if !s.found {
      return [];
    }
    var current := goal;
    nodes := [goal];
    while current != start
      invariant current in rank
      invariant IsTail(s.predecessors, start, current, goal, nodes)
      decreases rank[current]
    {
      if current !in s.predecessors {
        return [];
      }
      current := s.predecessors[current];
      nodes := [current] + nodes;
    }
  }

  lemma SettledIsRanked(ix: Index, r: Rules, start: Id, goal: Id, s: SearchState, rank: map<Id, nat>)
    requires s.found ==> Settled(ix, r, start, goal, s, rank)
    ensures Ranked(s, start, goal, rank)
    ensures s.found ==> forall n | n in rank && n != start :: n in s.predecessors
  {
    if s.found {
      forall n | n in rank && n != start ensures n in s.predecessors {
        assert Attached(ix, r, s.distances, s.predecessors, n);
      }
    }
  }

  /** Along a chain the settle order rises. */
  lemma {:induction false} RankRises(ix: Index, r: Rules, start: Id, goal: Id, s: SearchState, rank: map<Id, nat>, nodes: seq<Id>, i: nat, j: nat)
    requires Settled(ix, r, start, goal, s, rank) && IsChain(s.predecessors, start, goal, nodes)
    requires i < j < |nodes| && nodes[j] in rank
    ensures nodes[i] in rank && rank[nodes[i]] < rank[nodes[j]]
    decreases j
  {
    assert s.predecessors[nodes[j]] == nodes[j - 1];
    if i < j - 1 {
      RankRises(ix, r, start, goal, s, rank, nodes, i, j - 1);
    }
  }

  /** A walk that visits exactly these nodes. */
  predicate Visits(w: seq<Adjacency>, nodes: seq<Id>) {
    |nodes| == |w| + 1 && forall i | 0 <= i < |w| :: w[i].node == nodes[i + 1]
  }

  /** The chain is a simple path of usable steps, and their costs add up to the
      distance. */
  lemma ChainIsSimplePath(ix: Index, r: Rules, start: Id, goal: Id, s: SearchState, rank: map<Id, nat>, nodes: seq<Id>)
    returns (w: seq<Adjacency>)
    requires Settled(ix, r, start, goal, s, rank) && IsChain(s.predecessors, start, goal, nodes)
    ensures NoDuplicates(nodes)
    ensures Visits(w, nodes) && WalkTo(ix, r, start, w, goal) && Some(WalkCost(r, w)) == s.distance
  {
    forall i, j | 0 <= i < j < |nodes| ensures nodes[i] != nodes[j] {
      if j < |nodes| - 1 {
        RankRises(ix, r, start, goal, s, rank, nodes, j, |nodes| - 1);
      }
      RankRises(ix, r, start, goal, s, rank, nodes, i, j);
    }
    w := WalkAlong(ix, r, start, goal, s, rank, nodes, |nodes| - 1);
    assert nodes[..|nodes|] == nodes;
  }

  lemma {:induction false} WalkAlong(ix: Index, r: Rules, start: Id, goal: Id, s: SearchState, rank: map<Id, nat>, nodes: seq<Id>, k: nat)
    returns (w: seq<Adjacency>)
    requires Settled(ix, r, start, goal, s, rank) && IsChain(s.predecessors, start, goal, nodes)
    requires k < |nodes| && nodes[k] in rank
    ensures Visits(w, nodes[..k + 1]) && WalkTo(ix, r, start, w, nodes[k])
    ensures nodes[k] in s.distances && WalkCost(r, w) == s.distances[nodes[k]]
    decreases k
  {
    if k == 0 {
      w := [];
    } else {
      var n := nodes[k];
      assert s.predecessors[n] == nodes[k - 1];
      var front := WalkAlong(ix, r, start, goal, s, rank, nodes, k - 1);
      assert Attached(ix, r, s.distances, s.predecessors, n);
      var a :| Usable(ix, r, s.predecessors[n], a) && a.node == n && s.distances[n] == s.distances[s.predecessors[n]] + StepCost(r, a);
      WalkExtends(ix, r, start, front, a);
      w := front + [a];
    }
  }

  // ---------------------------------------------------------------------------
  // looking edges up by their ends
  // ---------------------------------------------------------------------------

  predicate Joins(e: GraphEdge, a: Id, b: Id) {
    e.source == a && e.target == b
  }

  function FirstJoin(graph: seq<GraphEdge>, a: Id, b: Id): Option<GraphEdge> {
    if graph == [] then None
    else if Joins(graph[0], a, b) then Some(graph[0])
    else FirstJoin(graph[1..], a, b)
  }

  lemma {:induction false} FirstJoinFinds(graph: seq<GraphEdge>, a: Id, b: Id)
    ensures FirstJoin(graph, a, b).None? <==> forall e | e in graph :: !Joins(e, a, b)
    ensures FirstJoin(graph, a, b).Some? ==> FirstJoin(graph, a, b).value in graph && Joins(FirstJoin(graph, a, b).value, a, b)
  {
    if graph != [] {
      FirstJoinFinds(graph[1..], a, b);
      assert forall e :: e in graph <==> e == graph[0] || e in graph[1..];
    }
  }

  /** The edge from `a` to `b`, or else the one from `b` to `a`. With parallel
      edges it is the first of them, whichever the search used. */
  function EdgeBetween(ix: Index, a: Id, b: Id): Option<GraphEdge> {
    if a !in ix.nodes || b !in ix.nodes then None
    else if FirstJoin(ix.graph, a, b).Some? then FirstJoin(ix.graph, a, b)
    else FirstJoin(ix.graph, b, a)
  }

  lemma EdgeBetweenFinds(ix: Index, a: Id, b: Id)
    ensures var found := EdgeBetween(ix, a, b);
            && (found.Some? ==> found.value in ix.graph && (Joins(found.value, a, b) || Joins(found.value, b, a)))
            && (found.None? <==> a !in ix.nodes || b !in ix.nodes || forall e | e in ix.graph :: !Joins(e, a, b) && !Joins(e, b, a))
  {
    FirstJoinFinds(ix.graph, a, b);
    FirstJoinFinds(ix.graph, b, a);
  }

  datatype CostModel = GraphWeight | WithPenalties

  function RulesOf(ix: Index, model: CostModel): Rules {
    if model == WithPenalties then Penalised(ix) else Blocking(ix)
  }

  /** What the plan charges for the edge it looked up. Every graph edge is
      indexed, so the infinite penalty of an unknown edge does not arise. */
  function EdgePrice(ix: Index, model: CostModel, e: GraphEdge): real {
    e.weight + if model == WithPenalties then EdgePenalty(ix, e.id).GetOr(0.0) else 0.0
  }

  function PairCost(ix: Index, model: CostModel, a: Id, b: Id): Result<real, RouteError> {
    if a !in ix.nodes || b !in ix.nodes then Err(MissingNode)
    else if EdgeBetween(ix, a, b).None? then Err(MissingEdge)
    else Ok(EdgePrice(ix, model, EdgeBetween(ix, a, b).value))
  }

  /** The cost of getting to node `k`; the first step that fails decides. */
  function CostTo(ix: Index, model: CostModel, nodes: seq<Id>, k: nat): Result<real, RouteError>
    requires k < |nodes|
  {
    if k == 0 then Ok(0.0)
    else
      var front, step := CostTo(ix, model, nodes, k - 1), PairCost(ix, model, nodes[k - 1], nodes[k]);
      if front.Err? then front else if step.Err? then step else Ok(front.value + step.value)
  }

  function RouteCost(ix: Index, model: CostModel, nodes: seq<Id>): Result<real, RouteError> {
    if nodes == [] then Ok(0.0) else CostTo(ix, model, nodes, |nodes| - 1)
  }

  method AccumulateRouteCost(ix: Index, nodes: seq<Id>, model: CostModel) returns (r: Result<real, RouteError>)
    ensures r == RouteCost(ix, model, nodes)
  {
    if nodes == [] {
      return Ok(0.0);
    }
    var total := 0.0;
    for i := 1 to |nodes|
      invariant CostTo(ix, model, nodes, i - 1) == Ok(total)
    {
      var step := PairCost(ix, model, nodes[i - 1], nodes[i]);
      if step.Err? {
        CostStaysFailed(ix, model, nodes, i, |nodes| - 1);
        return step;
      }
      total := total + step.value;
    }
    return Ok(total);
  }

  lemma {:induction false} CostStaysFailed(ix: Index, model: CostModel, nodes: seq<Id>, j: nat, k: nat)
    requires j <= k < |nodes| && CostTo(ix, model, nodes, j).Err?
    ensures CostTo(ix, model, nodes, k) == CostTo(ix, model, nodes, j)
  {
    if j < k {
      CostStaysFailed(ix, model, nodes, j, k - 1);
    }
  }

  /** Every two neighbours on the route are joined by an edge. */
  predicate Joined(ix: Index, nodes: seq<Id>) {
    forall i | 1 <= i < |nodes| :: EdgeBetween(ix, nodes[i - 1], nodes[i]).Some?
  }

  lemma {:induction false} JoinedRoutesHaveACost(ix: Index, model: CostModel, nodes: seq<Id>, k: nat)
    requires k < |nodes|
    ensures CostTo(ix, model, nodes, k).Ok? <==> forall i | 1 <= i <= k :: EdgeBetween(ix, nodes[i - 1], nodes[i]).Some?
  {
    if k > 0 {
      JoinedRoutesHaveACost(ix, model, nodes, k - 1);
    }
  }

  // ---------------------------------------------------------------------------
  // edges and zones along a route
  // ---------------------------------------------------------------------------

  predicate EdgesMatch(ix: Index, nodes: seq<Id>, edges: seq<Id>) {
    && |edges| == (if |nodes| < 2 then 0 else |nodes| - 1)
    && forall i | 0 <= i < |edges| ::
         EdgeBetween(ix, nodes[i], nodes[i + 1]).Some? && edges[i] == EdgeBetween(ix, nodes[i], nodes[i + 1]).value.id
  }

  lemma MatchedOnce(ix: Index, nodes: seq<Id>, a: seq<Id>, b: seq<Id>)
    requires EdgesMatch(ix, nodes, a) && EdgesMatch(ix, nodes, b)
    ensures a == b
  {
    forall i | 0 <= i < |a| ensures a[i] == b[i] {
      assert a[i] == EdgeBetween(ix, nodes[i], nodes[i + 1]).value.id;
    }
  }

  method ExtractTraversedEdgeIds(ix: Index, nodes: seq<Id>) returns (r: Result<seq<Id>, RouteError>)
    ensures r.Ok? <==> Joined(ix, nodes)
    ensures r.Ok? ==> EdgesMatch(ix, nodes, r.value)
  {
    if |nodes| < 2 {
      return Ok([]);
    }
    var out := [];
    for i := 1 to |nodes|
      invariant EdgesMatch(ix, nodes[..i], out)
    {
      var edge := EdgeBetween(ix, nodes[i - 1], nodes[i]);
      if edge.None? {
        return Err(MissingEdge);
      }
      assert nodes[..i + 1][i - 1] == nodes[i - 1] && nodes[..i + 1][i] == nodes[i];
      out := out + [edge.value.id];
    }
    assert nodes[..|nodes|] == nodes;
    return Ok(out);
  }

  method AddUnseen(traversed: seq<Id>, seen: set<Id>, zones: seq<Id>) returns (t: seq<Id>, s: set<Id>)
    requires NoDuplicates(traversed) && forall z :: z in traversed <==> z in seen
    ensures NoDuplicates(t) && forall z :: z in t <==> z in s
    ensures forall z :: z in s <==> z in seen || z in zones
  {
    t, s := traversed, seen;
    for i := 0 to |zones|
      invariant NoDuplicates(t) && forall z :: z in t <==> z in s
      invariant forall z :: z in s <==> z in seen || z in zones[..i]
    {
      if zones[i] !in s {
        s := s + {zones[i]};
        t := t + [zones[i]];
      }
    }
    assert zones[..|zones|] == zones;
  }

  ghost predicate ZonesAlong(ix: Index, nodes: seq<Id>, edges: seq<Id>, z: Id) {
    || (exists n | n in nodes :: z in ZonesOfNode(ix, n))
    || (exists e | e in edges :: z in ZonesOfEdge(ix, e))
  }

  /** Every zone around a node or an edge of the route, once. */
  method ExtractTraversedZoneIds(ix: Index, nodes: seq<Id>) returns (r: Result<seq<Id>, RouteError>)
    ensures r.Ok? <==> Joined(ix, nodes)
    ensures r.Ok? ==> NoDuplicates(r.value)
    ensures r.Ok? ==> forall edges, z :: EdgesMatch(ix, nodes, edges) ==> (z in r.value <==> ZonesAlong(ix, nodes, edges, z))
  {
    var traversed: seq<Id>, seen: set<Id> := [], {};
    for i := 0 to |nodes|
      invariant NoDuplicates(traversed) && forall z :: z in traversed <==> z in seen
      invariant forall z :: z in seen <==> ZonesAlong(ix, nodes[..i], [], z)
    {
      traversed, seen := AddUnseen(traversed, seen, ZonesOfNode(ix, nodes[i]));
    }
    assert nodes[..|nodes|] == nodes;
    var edges := ExtractTraversedEdgeIds(ix, nodes);
    if edges.Err? {
      return Err(edges.error);
    }
    for i := 0 to |edges.value|
      invariant NoDuplicates(traversed) && forall z :: z in traversed <==> z in seen
      invariant forall z :: z in seen <==> ZonesAlong(ix, nodes, edges.value[..i], z)
    {
      traversed, seen := AddUnseen(traversed, seen, ZonesOfEdge(ix, edges.value[i]));
      OneMoreEdge(ix, nodes, edges.value, i);
    }
    assert edges.value[..|edges.value|] == edges.value;
    forall es | EdgesMatch(ix, nodes, es) ensures es == edges.value {
      MatchedOnce(ix, nodes, es, edges.value);
    }
    return Ok(traversed);
  }

  lemma OneMoreEdge(ix: Index, nodes: seq<Id>, edges: seq<Id>, i: nat)
    requires i < |edges|
    ensures forall z :: ZonesAlong(ix, nodes, edges[..i + 1], z) <==> ZonesAlong(ix, nodes, edges[..i], z) || z in ZonesOfEdge(ix, edges[i])
  {
    assert edges[..i + 1] == edges[..i] + [edges[i]];
  }

  // ---------------------------------------------------------------------------
  // plans
  // ---------------------------------------------------------------------------

  datatype RouteStep = RouteStep(node: Id, incoming: Option<Id>, stepCost: real, cumulative: real)

  datatype RoutePlan = RoutePlan(
    start: Id,
    goal: Id,
    steps: seq<RouteStep>,
    nodes: seq<Id>,
    edges: seq<Id>,
    zones: seq<Id>,
    nodeZones: seq<seq<Id>>,
    edgeZones: seq<seq<Id>>,
    totalCost: real)

  predicate StepsMatch(p: RoutePlan) {
    forall i | 0 <= i < |p.steps| ::
      && i < |p.nodes| && p.steps[i].node == p.nodes[i]
      && if i == 0 then p.steps[i].incoming.None? else i - 1 < |p.edges| && p.steps[i].incoming == Some(p.edges[i - 1])
  }

  /** Nodes, edges, steps and zone lists line up, from start to goal. */
  predicate WellShaped(p: RoutePlan) {
    if p.nodes == [] then p.edges == [] && p.steps == []
    else
      && p.nodes[0] == p.start && p.nodes[|p.nodes| - 1] == p.goal
      && |p.edges| + 1 == |p.nodes|
      && (p.steps == [] || |p.steps| == |p.nodes|)
      && (p.nodeZones == [] || |p.nodeZones| == |p.nodes|)
      && (p.edgeZones == [] || |p.edgeZones| == |p.edges|)
      && StepsMatch(p)
  }

  /** The check a plan has to pass: exactly the well-shaped ones do. */
  method ValidateRoutePlanShape(p: RoutePlan) returns (r: Result<nat, RouteError>)
    ensures r.Ok? <==> WellShaped(p)
    ensures r.Ok? ==> r.value == |p.edges|
  {
    if p.nodes == [] {
      if p.edges != [] || p.steps != [] {
        return Err(BadShape);
      }
      return Ok(0);
    }
    if p.start != p.nodes[0] || p.goal != p.nodes[|p.nodes| - 1] {
      return Err(WrongEndpoint);
    }
    if |p.edges| + 1 != |p.nodes|
      || (p.steps != [] && |p.steps| != |p.nodes|)
      || (p.nodeZones != [] && |p.nodeZones| != |p.nodes|)
      || (p.edgeZones != [] && |p.edgeZones| != |p.edges|)
    {
      return Err(BadShape);
    }
    for i := 0 to |p.steps|
      invariant forall j | 0 <= j < i ::
                  && p.steps[j].node == p.nodes[j]
                  && if j == 0 then p.steps[j].incoming.None? else p.steps[j].incoming == Some(p.edges[j - 1])
    {
      var step := p.steps[i];
      if step.node != p.nodes[i] {
        return Err(BadShape);
      }
      if i == 0 {
        if step.incoming.Some? {
          return Err(BadShape);
        }
        continue;
      }
      if step.incoming != Some(p.edges[i - 1]) {
        return Err(BadShape);
      }
    }
    return Ok(|p.edges|);
  }

  predicate EndsMatch(nodes: seq<Id>, start: Id, goal: Id) {
    nodes == [] || (nodes[0] == start && nodes[|nodes| - 1] == goal)
  }

  /** Step `i` names its node and edge and carries the cost of getting there. */
  predicate StepPriced(ix: Index, model: CostModel, nodes: seq<Id>, edges: seq<Id>, i: nat, step: RouteStep) {
    && i < |nodes| && step.node == nodes[i]
    && CostTo(ix, model, nodes, i) == Ok(step.cumulative)
    && if i == 0 then step.incoming.None? && step.stepCost == 0.0
       else i - 1 < |edges| && step.incoming == Some(edges[i - 1]) && PairCost(ix, model, nodes[i - 1], nodes[i]) == Ok(step.stepCost)
  }

  predicate StepsPriced(ix: Index, model: CostModel, nodes: seq<Id>, edges: seq<Id>, steps: seq<RouteStep>) {
    forall i | 0 <= i < |steps| :: StepPriced(ix, model, nodes, edges, i, steps[i])
  }

  /** What a plan over `nodes` says. */
  ghost predicate Describes(ix: Index, model: CostModel, nodes: seq<Id>, p: RoutePlan) {
    && p.nodes == nodes && EdgesMatch(ix, nodes, p.edges)
    && NoDuplicates(p.zones) && (forall z :: z in p.zones <==> ZonesAlong(ix, nodes, p.edges, z))
    && |p.nodeZones| == |nodes| && (forall i | 0 <= i < |nodes| :: p.nodeZones[i] == ZonesOfNode(ix, nodes[i]))
    && |p.edgeZones| == |p.edges| && (forall i | 0 <= i < |p.edges| :: p.edgeZones[i] == ZonesOfEdge(ix, p.edges[i]))
    && RouteCost(ix, model, nodes) == Ok(p.totalCost)
    && |p.steps| == |nodes| && StepsPriced(ix, model, nodes, p.edges, p.steps)
  }

  method ListNodeZones(ix: Index, nodes: seq<Id>) returns (lists: seq<seq<Id>>)
    ensures |lists| == |nodes| && forall i | 0 <= i < |nodes| :: lists[i] == ZonesOfNode(ix, nodes[i])
  {
    lists := [];
    for i := 0 to |nodes|
      invariant |lists| == i && forall j | 0 <= j < i :: lists[j] == ZonesOfNode(ix, nodes[j])
    {
      lists := lists + [ZonesOfNode(ix, nodes[i])];
    }
  }

  method ListEdgeZones(ix: Index, edges: seq<Id>) returns (lists: seq<seq<Id>>)
    ensures |lists| == |edges| && forall i | 0 <= i < |edges| :: lists[i] == ZonesOfEdge(ix, edges[i])
  {
    lists := [];
    for i := 0 to |edges|
      invariant |lists| == i && forall j | 0 <= j < i :: lists[j] == ZonesOfEdge(ix, edges[j])
    {
      lists := lists + [ZonesOfEdge(ix, edges[i])];
    }
  }

  lemma NextStepPriced(ix: Index, model: CostModel, nodes: seq<Id>, edges: seq<Id>, i: nat, before: RouteStep)
    requires Joined(ix, nodes) && EdgesMatch(ix, nodes, edges)
    requires 1 <= i < |nodes| && StepPriced(ix, model, nodes, edges, i - 1, before)
    ensures RouteCost(ix, model, [nodes[i - 1], nodes[i]]).Ok?
    ensures
      var cost := RouteCost(ix, model, [nodes[i - 1], nodes[i]]).value;
      StepPriced(ix, model, nodes, edges, i, RouteStep(nodes[i], Some(edges[i - 1]), cost, before.cumulative + cost))
  {
    PairIsARoute(ix, model, nodes[i - 1], nodes[i]);
    JoinedRoutesHaveACost(ix, model, nodes, i);
  }

  method PriceSteps(ix: Index, nodes: seq<Id>, edges: seq<Id>, model: CostModel) returns (steps: seq<RouteStep>)
    requires Joined(ix, nodes) && EdgesMatch(ix, nodes, edges)
    ensures |steps| == |nodes| && StepsPriced(ix, model, nodes, edges, steps)
  {
    steps := [];
    var cumulative := 0.0;
    for i := 0 to |nodes|
      invariant |steps| == i && StepsPriced(ix, model, nodes, edges, steps)
      invariant cumulative == if i == 0 then 0.0 else steps[i - 1].cumulative
    {
      var step := RouteStep(nodes[i], None, 0.0, 0.0);
      if i > 0 {
        NextStepPriced(ix, model, nodes, edges, i, steps[i - 1]);
        var cost := AccumulateRouteCost(ix, [nodes[i - 1], nodes[i]], model);
        cumulative := cumulative + cost.value;
        step := RouteStep(nodes[i], Some(edges[i - 1]), cost.value, cumulative);
      }
      assert StepPriced(ix, model, nodes, edges, i, step);
      steps := steps + [step];
    }
  }

  lemma PairIsARoute(ix: Index, model: CostModel, a: Id, b: Id)
    ensures RouteCost(ix, model, [a, b]) == PairCost(ix, model, a, b)
  {
    assert CostTo(ix, model, [a, b], 0) == Ok(0.0);
  }

  /** Builds the plan along `nodes`: it succeeds exactly when the ends are the
      ones asked for and every two neighbours are joined by an edge. */
  method BuildRoutePlan(ix: Index, start: Id, goal: Id, nodes: seq<Id>, model: CostModel) returns (r: Result<RoutePlan, RouteError>)
    ensures r.Ok? <==> EndsMatch(nodes, start, goal) && Joined(ix, nodes)
    ensures r.Ok? ==> WellShaped(r.value) && r.value.start == start && r.value.goal == goal && Describes(ix, model, nodes, r.value)
  {
    if nodes != [] {
      if nodes[0] != start {
        return Err(WrongEndpoint);
      }
      if nodes[|nodes| - 1] != goal {
        return Err(WrongEndpoint);
      }
    }
    var edges := ExtractTraversedEdgeIds(ix, nodes);
    if edges.Err? {
      return Err(edges.error);
    }
    var zones := ExtractTraversedZoneIds(ix, nodes);
    var nodeZones := ListNodeZones(ix, nodes);
    var edgeZones := ListEdgeZones(ix, edges.value);
    var total := AccumulateRouteCost(ix, nodes, model);
    RouteHasACost(ix, model, nodes);
    var steps := PriceSteps(ix, nodes, edges.value, model);
    var plan := RoutePlan(start, goal, steps, nodes, edges.value, zones.value, nodeZones, edgeZones, total.value);
    DescribedIsWellShaped(ix, model, nodes, plan);
    var shape := ValidateRoutePlanShape(plan);
    assert shape.Ok?;
    return Ok(plan);
  }

  lemma DescribedIsWellShaped(ix: Index, model: CostModel, nodes: seq<Id>, p: RoutePlan)
    requires Describes(ix, model, nodes, p) && EndsMatch(nodes, p.start, p.goal)
    ensures WellShaped(p)
  {
    forall i | 0 <= i < |p.steps|
      ensures i < |p.nodes| && p.steps[i].node == p.nodes[i]
      ensures if i == 0 then p.steps[i].incoming.None? else i - 1 < |p.edges| && p.steps[i].incoming == Some(p.edges[i - 1])
    {
      assert StepPriced(ix, model, nodes, p.edges, i, p.steps[i]);
    }
  }

  lemma RouteHasACost(ix: Index, model: CostModel, nodes: seq<Id>)
    requires Joined(ix, nodes)
    ensures RouteCost(ix, model, nodes).Ok?
  {
    if nodes != [] {
      JoinedRoutesHaveACost(ix, model, nodes, |nodes| - 1);
    }
  }
}
