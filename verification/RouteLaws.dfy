/** Laws of the route search: how the three sets of rules compare, and what
    shortest distances obey. */
module RouteLaws {
  import opened Basics
  import opened Workspace
  import opened EdgePolicy
  import opened IndexBuild
  import opened RouteSearch

  // ---------------------------------------------------------------------------
  // comparing rules
  // ---------------------------------------------------------------------------

  /** Whatever `strict` may use, `lax` may use too, and for no more. */
  ghost predicate Laxer(ix: Index, lax: Rules, strict: Rules) {
    forall n, a | a in StepsOf(ix.adjacency, n) ::
      a.edge in ix.edges && !strict.skips(a.edge) ==> !lax.skips(a.edge) && StepCost(lax, a) <= StepCost(strict, a)
  }

  lemma {:induction false} WalkUnderLaxerRules(ix: Index, lax: Rules, strict: Rules, from: Id, w: seq<Adjacency>)
    requires Laxer(ix, lax, strict) && IsWalk(ix, strict, from, w)
    ensures IsWalk(ix, lax, from, w) && WalkCost(lax, w) <= WalkCost(strict, w)
  {
    if w != [] {
      var front, a := w[..|w| - 1], w[|w| - 1];
      WalkUnderLaxerRules(ix, lax, strict, from, front);
      assert Usable(ix, strict, EndOf(from, front), a);
    }
  }

  /** Laxer rules reach at least as much, at distances no greater. */
  lemma LaxerRulesReachFurther(ix: Index, lax: Rules, strict: Rules, from: Id, to: Id)
    requires Laxer(ix, lax, strict) && Reachable(ix, strict, from, to)
    ensures Reachable(ix, lax, from, to)
    ensures forall cheap, dear :: IsShortest(ix, lax, from, to, cheap) && IsShortest(ix, strict, from, to, dear) ==> cheap <= dear
  {
    var w :| WalkTo(ix, strict, from, w, to);
    WalkUnderLaxerRules(ix, lax, strict, from, w);
    assert WalkTo(ix, lax, from, w, to);
    forall cheap, dear | IsShortest(ix, lax, from, to, cheap) && IsShortest(ix, strict, from, to, dear) ensures cheap <= dear {
      var v :| WalkTo(ix, strict, from, v, to) && WalkCost(strict, v) == dear;
      WalkUnderLaxerRules(ix, lax, strict, from, v);
      assert WalkTo(ix, lax, from, v, to);
    }
  }

  /** Planning with and without penalties agrees on what can be reached, and
      penalised distances are never smaller. */
  lemma PenaltiesKeepReachability(ix: Index, from: Id, to: Id)
    ensures Reachable(ix, Penalised(ix), from, to) <==> Reachable(ix, Blocking(ix), from, to)
    ensures forall plain, priced :: IsShortest(ix, Blocking(ix), from, to, plain) && IsShortest(ix, Penalised(ix), from, to, priced)
                               ==> plain <= priced
  {
    if Reachable(ix, Blocking(ix), from, to) {
      var w :| WalkTo(ix, Blocking(ix), from, w, to);
      WalkIgnoresCosts(ix, Blocking(ix), Penalised(ix), from, w);
      assert WalkTo(ix, Penalised(ix), from, w, to);
    }
    assert Laxer(ix, Blocking(ix), Penalised(ix));
    if Reachable(ix, Penalised(ix), from, to) {
      LaxerRulesReachFurther(ix, Blocking(ix), Penalised(ix), from, to);
    }
  }

  lemma {:induction false} WalkIgnoresCosts(ix: Index, a: Rules, b: Rules, from: Id, w: seq<Adjacency>)
    requires forall e :: a.skips(e) == b.skips(e)
    requires IsWalk(ix, a, from, w)
    ensures IsWalk(ix, b, from, w)
  {
    if w != [] {
      WalkIgnoresCosts(ix, a, b, from, w[..|w| - 1]);
    }
  }

  /** Hard blocking only ever takes walks away. */
  lemma BlockingOnlyRemoves(ix: Index, from: Id, to: Id)
    requires Reachable(ix, Blocking(ix), from, to)
    ensures Reachable(ix, Unconstrained(), from, to)
    ensures forall open, walled :: IsShortest(ix, Unconstrained(), from, to, open) && IsShortest(ix, Blocking(ix), from, to, walled)
                              ==> open <= walled
  {
    LaxerRulesReachFurther(ix, Unconstrained(), Blocking(ix), from, to);
  }

  /** Penalties are non-negative, so non-negative weights are all the search
      needs under any of its rules. */
  lemma WeightsDecide(ix: Index)
    requires NonNegative(ix, Unconstrained())
    ensures NonNegative(ix, Blocking(ix)) && NonNegative(ix, Penalised(ix))
  {
    forall n, a | a in StepsOf(ix.adjacency, n)
      ensures StepCost(Blocking(ix), a) >= 0.0 && StepCost(Penalised(ix), a) >= 0.0
    {
      assert StepCost(Unconstrained(), a) == a.weight;
    }
  }

  // ---------------------------------------------------------------------------
  // distances
  // ---------------------------------------------------------------------------

  lemma {:induction false} JoinWalks(ix: Index, r: Rules, from: Id, v: seq<Adjacency>, w: seq<Adjacency>)
    requires IsWalk(ix, r, from, v) && IsWalk(ix, r, EndOf(from, v), w)
    ensures WalkTo(ix, r, from, v + w, EndOf(EndOf(from, v), w))
    ensures WalkCost(r, v + w) == WalkCost(r, v) + WalkCost(r, w)
  {
    if w == [] {
      assert v + w == v;
    } else {
      var front, a := w[..|w| - 1], w[|w| - 1];
      JoinWalks(ix, r, from, v, front);
      assert v + w == (v + front) + [a];
      WalkExtends(ix, r, from, v + front, a);
    }
  }

  /** Shortest distances obey the triangle inequality. */
  lemma TriangleInequality(ix: Index, r: Rules, a: Id, b: Id, c: Id, ab: real, bc: real, ac: real)
    requires IsShortest(ix, r, a, b, ab) && IsShortest(ix, r, b, c, bc) && IsShortest(ix, r, a, c, ac)
    ensures ac <= ab + bc
  {
    var v :| WalkTo(ix, r, a, v, b) && WalkCost(r, v) == ab;
    var w :| WalkTo(ix, r, b, w, c) && WalkCost(r, w) == bc;
    JoinWalks(ix, r, a, v, w);
  }

  function Reversed(from: Id, a: Adjacency): Adjacency {
    Adjacency(from, a.edge, a.weight, !a.fromSource)
  }

  /** Every step can be taken back over the same edge. */
  ghost predicate TwoWay(ix: Index) {
    forall n, a | a in StepsOf(ix.adjacency, n) && LegalStep(ix, a) ::
      if a.node == n then true
      else Reversed(n, a) in StepsOf(ix.adjacency, a.node) && LegalStep(ix, Reversed(n, a))
  }

  lemma {:induction false} WalkBack(ix: Index, r: Rules, from: Id, w: seq<Adjacency>) returns (back: seq<Adjacency>)
    requires TwoWay(ix) && IsWalk(ix, r, from, w)
    ensures WalkTo(ix, r, EndOf(from, w), back, from) && WalkCost(r, back) == WalkCost(r, w)
  {
    if w == [] {
      back := [];
    } else {
      var front, a := w[..|w| - 1], w[|w| - 1];
      var u := EndOf(from, front);
      var rest := WalkBack(ix, r, from, front);
      var step := if a.node == u then a else Reversed(u, a);
      WalkExtends(ix, r, a.node, [], step);
      JoinWalks(ix, r, a.node, [step], rest);
      assert [] + [step] == [step];
      back := [step] + rest;
    }
  }

  /** Where no edge locks a direction, distances are the same both ways. */
  lemma DistancesAreSymmetric(ix: Index, r: Rules, a: Id, b: Id, ab: real, ba: real)
    requires TwoWay(ix) && IsShortest(ix, r, a, b, ab) && IsShortest(ix, r, b, a, ba)
    ensures ab == ba
  {
    var v :| WalkTo(ix, r, a, v, b) && WalkCost(r, v) == ab;
    var w :| WalkTo(ix, r, b, w, a) && WalkCost(r, w) == ba;
    var v' := WalkBack(ix, r, a, v);
    var w' := WalkBack(ix, r, b, w);
  }

  /** The adjacency of a graph lists each edge from both ends, so a workspace
      whose edges lock no direction is two-way. */
  lemma BuiltAdjacencyIsTwoWay(ix: Index)
    requires AdjacencyMatches(ix)
    requires forall e | e in ix.edges :: ix.edges[e].semantics.direction in {None, Some(EitherWay)}
    ensures TwoWay(ix)
  {
    forall n, a | a in StepsOf(ix.adjacency, n) && LegalStep(ix, a) && a.node != n
      ensures Reversed(n, a) in StepsOf(ix.adjacency, a.node) && LegalStep(ix, Reversed(n, a))
    {
      var e :| e in ix.graph && OffersStep(e, n, a);
      assert OffersStep(e, a.node, Reversed(n, a));
    }
  }

  // ---------------------------------------------------------------------------
  // roads
  // ---------------------------------------------------------------------------

  /** An edge may be driven with its drawing unless it runs the other way only, and
      against it unless it runs forward only; a reversible edge may be driven both
      ways. A loop is driven with its drawing. */
  predicate MayDrive(ix: Index, e: GraphEdge, from: Id, to: Id) {
    e.id in ix.edges &&
    var s := ix.edges[e.id].semantics;
    || (e.source == from && e.target == to && (s.direction != Some(Reverse) || s.reversible == Some(true)))
    || (e.source == to && e.target == from && from != to && (s.direction != Some(Forward) || s.reversible == Some(true)))
  }

  /** Neither the edge nor a zone it is drawn in closes it. */
  predicate IsOpen(ix: Index, edge: Id) {
    && edge in ix.edges && ix.edges[edge].semantics.blocked != Some(true)
    && forall z | z in ix.edges[edge].zoneIds && z in ix.zones ::
         ix.zones[z].blocked != Some(true) && ix.zones[z].kind != Restricted && !ix.zones[z].blocksTraversal
  }

  /** Some edge of the graph may be driven from one node to the other, and is open
      where walls count. */
  predicate Road(ix: Index, walls: bool, from: Id, to: Id) {
    exists e | e in ix.graph :: MayDrive(ix, e, from, to) && (walls ==> IsOpen(ix, e.id))
  }

  predicate IsRoute(ix: Index, walls: bool, nodes: seq<Id>) {
    nodes != [] && forall i | 0 <= i < |nodes| - 1 :: Road(ix, walls, nodes[i], nodes[i + 1])
  }

  ghost predicate RouteExists(ix: Index, walls: bool, from: Id, to: Id) {
    exists nodes :: IsRoute(ix, walls, nodes) && nodes[0] == from && nodes[|nodes| - 1] == to
  }

  function WallRules(ix: Index, walls: bool): Rules {
    if walls then Blocking(ix) else Unconstrained()
  }

  lemma OpenExactly(ix: Index, edge: Id)
    ensures !IsEdgeHardBlocked(ix, edge) <==> IsOpen(ix, edge)
  {
    if edge in ix.edges {
      var walls := BlockedZonesForEdge(ix, edge);
      if walls != [] {
        assert walls[0] in walls && walls[0] in ix.edges[edge].zoneIds;
      }
      forall z | z in ix.edges[edge].zoneIds && z in ix.zones && Walls(ix.zones[z]) ensures walls != [] {
        assert z in ZonesOfEdge(ix, edge) && z in walls;
      }
    }
  }

  /** A usable step drives an open edge of the graph the way the edge allows ... */
  lemma StepsDriveRoads(ix: Index, walls: bool, u: Id, a: Adjacency) returns (e: GraphEdge)
    requires AdjacencyMatches(ix) && Usable(ix, WallRules(ix, walls), u, a)
    ensures e in ix.graph && e.id == a.edge && e.weight == a.weight
    ensures MayDrive(ix, e, u, a.node) && (walls ==> IsOpen(ix, e.id))
  {
    e :| e in ix.graph && OffersStep(e, u, a);
    OpenExactly(ix, e.id);
  }

  /** ... and every such edge offers a usable step each way it may be driven. */
  lemma RoadsOfferSteps(ix: Index, walls: bool, e: GraphEdge, from: Id, to: Id) returns (a: Adjacency)
    requires AdjacencyMatches(ix) && e in ix.graph
    requires MayDrive(ix, e, from, to) && (walls ==> IsOpen(ix, e.id))
    ensures Usable(ix, WallRules(ix, walls), from, a)
    ensures a.node == to && a.edge == e.id && a.weight == e.weight
  {
    var s := ix.edges[e.id].semantics;
    var forward := e.source == from && e.target == to && (s.direction != Some(Reverse) || s.reversible == Some(true));
    a := Adjacency(to, e.id, e.weight, forward);
    assert OffersStep(e, from, a);
    OpenExactly(ix, e.id);
  }

  /** An irreversible one-way edge is only ever driven its way. */
  lemma OneWayEdgesAreDrivenOneWay(ix: Index, r: Rules, u: Id, a: Adjacency)
    requires AdjacencyMatches(ix) && Usable(ix, r, u, a)
    requires ix.edges[a.edge].semantics.reversible != Some(true)
    ensures ix.edges[a.edge].semantics.direction == Some(Forward) ==>
              exists e | e in ix.graph :: e.id == a.edge && e.source == u && e.target == a.node
    ensures ix.edges[a.edge].semantics.direction == Some(Reverse) ==>
              exists e | e in ix.graph :: e.id == a.edge && e.target == u && e.source == a.node
  {
    var e :| e in ix.graph && OffersStep(e, u, a);
  }

  lemma {:induction false} WalksAreRoutes(ix: Index, walls: bool, from: Id, w: seq<Adjacency>) returns (nodes: seq<Id>)
    requires AdjacencyMatches(ix) && IsWalk(ix, WallRules(ix, walls), from, w)
    ensures IsRoute(ix, walls, nodes) && nodes[0] == from && nodes[|nodes| - 1] == EndOf(from, w)
  {
    if w == [] {
      nodes := [from];
    } else {
      var last := w[|w| - 1];
      var front := WalksAreRoutes(ix, walls, from, w[..|w| - 1]);
      var e := StepsDriveRoads(ix, walls, EndOf(from, w[..|w| - 1]), last);
      nodes := front + [last.node];
      assert Road(ix, walls, front[|front| - 1], last.node);
    }
  }

  lemma {:induction false} RoutesAreWalks(ix: Index, walls: bool, nodes: seq<Id>) returns (w: seq<Adjacency>)
    requires AdjacencyMatches(ix) && IsRoute(ix, walls, nodes)
    ensures WalkTo(ix, WallRules(ix, walls), nodes[0], w, nodes[|nodes| - 1])
  {
    if |nodes| == 1 {
      w := [];
    } else {
      var k := |nodes| - 1;
      forall i | 0 <= i < k - 1 ensures Road(ix, walls, nodes[..k][i], nodes[..k][i + 1]) {
        assert Road(ix, walls, nodes[i], nodes[i + 1]);
      }
      var front := RoutesAreWalks(ix, walls, nodes[..k]);
      assert Road(ix, walls, nodes[k - 1], nodes[k]);
      var e :| e in ix.graph && MayDrive(ix, e, nodes[k - 1], nodes[k]) && (walls ==> IsOpen(ix, e.id));
      var a := RoadsOfferSteps(ix, walls, e, nodes[k - 1], nodes[k]);
      WalkExtends(ix, WallRules(ix, walls), nodes[0], front, a);
      w := front + [a];
    }
  }

  /** A goal can be reached exactly when a route of roads leads there, whether
      walls count or not. */
  lemma ReachableByRoad(ix: Index, walls: bool, from: Id, to: Id)
    requires AdjacencyMatches(ix)
    ensures Reachable(ix, WallRules(ix, walls), from, to) <==> RouteExists(ix, walls, from, to)
  {
    if Reachable(ix, WallRules(ix, walls), from, to) {
      var w :| WalkTo(ix, WallRules(ix, walls), from, w, to);
      var nodes := WalksAreRoutes(ix, walls, from, w);
    }
    if RouteExists(ix, walls, from, to) {
      var nodes :| IsRoute(ix, walls, nodes) && nodes[0] == from && nodes[|nodes| - 1] == to;
      var w := RoutesAreWalks(ix, walls, nodes);
    }
  }

  // ---------------------------------------------------------------------------
  // heavier edges
  // ---------------------------------------------------------------------------

  predicate SameEdge(e: GraphEdge, f: GraphEdge) {
    e == f.(weight := e.weight)
  }

  /** Two indexes that differ in the weights of their edges only. */
  ghost predicate Alike(x: Index, y: Index) {
    && y == x.(graph := y.graph, adjacency := y.adjacency)
    && AdjacencyMatches(x) && AdjacencyMatches(y)
    && |x.graph| == |y.graph| && forall i | 0 <= i < |x.graph| :: SameEdge(x.graph[i], y.graph[i])
  }

  predicate NoHeavier(x: Index, y: Index) {
    |x.graph| == |y.graph| && forall i | 0 <= i < |x.graph| :: x.graph[i].weight <= y.graph[i].weight
  }

  predicate SameStep(a: Adjacency, b: Adjacency) {
    a == b.(weight := a.weight)
  }

  lemma MatchingStep(x: Index, y: Index, n: Id, a: Adjacency) returns (b: Adjacency)
    requires Alike(x, y) && a in StepsOf(x.adjacency, n)
    ensures b in StepsOf(y.adjacency, n) && SameStep(a, b)
    ensures NoHeavier(y, x) ==> b.weight <= a.weight
  {
    var e :| e in x.graph && OffersStep(e, n, a);
    var i :| 0 <= i < |x.graph| && x.graph[i] == e;
    var f := y.graph[i];
    assert SameEdge(x.graph[i], f);
    b := a.(weight := f.weight);
    assert f in y.graph && OffersStep(f, n, b);
  }

  ghost predicate SameRules(r: Rules, q: Rules) {
    forall e :: r.skips(e) == q.skips(e) && r.extra(e) == q.extra(e)
  }

  /** Every walk has its like where only weights differ. */
  lemma {:induction false} MatchingWalk(x: Index, y: Index, r: Rules, q: Rules, from: Id, w: seq<Adjacency>) returns (v: seq<Adjacency>)
    requires Alike(x, y) && SameRules(r, q) && IsWalk(x, r, from, w)
    ensures WalkTo(y, q, from, v, EndOf(from, w))
    ensures NoHeavier(y, x) ==> WalkCost(q, v) <= WalkCost(r, w)
  {
    if w == [] {
      v := [];
    } else {
      var front, a := w[..|w| - 1], w[|w| - 1];
      var start := MatchingWalk(x, y, r, q, from, front);
      var b := MatchingStep(x, y, EndOf(from, front), a);
      WalkExtends(y, q, from, start, b);
      v := start + [b];
    }
  }

  lemma MatchingWalksReach(x: Index, y: Index, r: Rules, q: Rules, from: Id, to: Id)
    requires Alike(x, y) && SameRules(r, q) && Reachable(x, r, from, to)
    ensures Reachable(y, q, from, to)
  {
    var w :| WalkTo(x, r, from, w, to);
    var v := MatchingWalk(x, y, r, q, from, w);
  }

  lemma AlikeBothWays(x: Index, y: Index)
    requires Alike(x, y)
    ensures Alike(y, x)
  {
    forall i | 0 <= i < |y.graph| ensures SameEdge(y.graph[i], x.graph[i]) {
      assert SameEdge(x.graph[i], y.graph[i]);
    }
  }

  lemma HeavierUnderRules(light: Index, heavy: Index, r: Rules, q: Rules, from: Id, to: Id)
    requires Alike(light, heavy) && NoHeavier(light, heavy) && SameRules(r, q)
    ensures Reachable(light, r, from, to) <==> Reachable(heavy, q, from, to)
    ensures forall cheap, dear :: IsShortest(light, r, from, to, cheap) && IsShortest(heavy, q, from, to, dear) ==> cheap <= dear
  {
    AlikeBothWays(light, heavy);
    if Reachable(light, r, from, to) {
      MatchingWalksReach(light, heavy, r, q, from, to);
    }
    if Reachable(heavy, q, from, to) {
      MatchingWalksReach(heavy, light, q, r, from, to);
    }
    forall cheap, dear | IsShortest(light, r, from, to, cheap) && IsShortest(heavy, q, from, to, dear) ensures cheap <= dear {
      var w :| WalkTo(heavy, q, from, w, to) && WalkCost(q, w) == dear;
      var v := MatchingWalk(heavy, light, q, r, from, w);
    }
  }

  lemma {:induction false} PoliciesIgnoreWeights(x: Index, y: Index, zones: seq<Id>)
    requires x.zones == y.zones && forall z | z in zones :: z in x.zones
    ensures PoliciesOf(x, zones) == PoliciesOf(y, zones)
  {
    if zones != [] {
      PoliciesIgnoreWeights(x, y, zones[1..]);
    }
  }

  lemma EdgeRulesIgnoreWeights(x: Index, y: Index, edge: Id)
    requires x.zones == y.zones && x.edges == y.edges
    ensures IsEdgeHardBlocked(x, edge) == IsEdgeHardBlocked(y, edge)
    ensures EdgePenalty(x, edge) == EdgePenalty(y, edge)
  {
    assert ZonesOfEdge(x, edge) == ZonesOfEdge(y, edge);
    PoliciesIgnoreWeights(x, y, ZonesOfEdge(x, edge));
  }

  lemma RulesIgnoreWeights(x: Index, y: Index)
    requires x.zones == y.zones && x.edges == y.edges
    ensures SameRules(Blocking(x), Blocking(y)) && SameRules(Penalised(x), Penalised(y))
  {
    forall edge ensures IsEdgeHardBlocked(x, edge) == IsEdgeHardBlocked(y, edge) && EdgePenalty(x, edge) == EdgePenalty(y, edge) {
      EdgeRulesIgnoreWeights(x, y, edge);
    }
  }

  /** Raising weights changes nothing about what can be reached and never makes a
      route cheaper, with penalties or without. */
  lemma HeavierEdgesNeverCheapen(light: Index, heavy: Index, from: Id, to: Id)
    requires Alike(light, heavy) && NoHeavier(light, heavy)
    ensures Reachable(light, Blocking(light), from, to) <==> Reachable(heavy, Blocking(heavy), from, to)
    ensures forall cheap, dear :: IsShortest(light, Blocking(light), from, to, cheap) && IsShortest(heavy, Blocking(heavy), from, to, dear) ==> cheap <= dear
    ensures Reachable(light, Penalised(light), from, to) <==> Reachable(heavy, Penalised(heavy), from, to)
    ensures forall cheap, dear :: IsShortest(light, Penalised(light), from, to, cheap) && IsShortest(heavy, Penalised(heavy), from, to, dear) ==> cheap <= dear
  {
    RulesIgnoreWeights(light, heavy);
    HeavierUnderRules(light, heavy, Blocking(light), Blocking(heavy), from, to);
    HeavierUnderRules(light, heavy, Penalised(light), Penalised(heavy), from, to);
  }
}
