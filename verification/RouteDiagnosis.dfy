/** Why a route could not be found, and what the answer is worth: the edges it
    lists cut every way to the goal. */
module RouteDiagnosis {
  import opened Basics
  import opened Workspace
  import opened EdgePolicy
  import opened RouteSearch
  import opened RoutePlans

  datatype FailureKind = MissingStartNode | MissingGoalNode | PolicyBlocked | Unreachable

  datatype RouteFailure = RouteFailure(
    kind: FailureKind,
    blockedEdges: seq<Id>,
    blockedZones: seq<Id>,
    lockedEdges: seq<Id>,
    reachable: seq<Id>)

  // ---------------------------------------------------------------------------
  // walks that ignore direction locks
  // ---------------------------------------------------------------------------

  /** A walk along existing edges in either direction. */
  predicate IsLooseWalk(ix: Index, from: Id, w: seq<Adjacency>) {
    w == [] ||
    (IsLooseWalk(ix, from, w[..|w| - 1])
     && w[|w| - 1] in StepsOf(ix.adjacency, EndOf(from, w[..|w| - 1])) && w[|w| - 1].edge in ix.edges)
  }

  predicate DirectionLocked(ix: Index, a: Adjacency) {
    a.edge in ix.edges && !AllowsTraversal(ix.edges[a.edge].semantics, a.fromSource)
  }

  /** Every legal walk between the two nodes uses a listed edge. */
  ghost predicate CutsLegalWalks(ix: Index, start: Id, goal: Id, listed: seq<Id>) {
    forall w | WalkTo(ix, Unconstrained(), start, w, goal) :: exists a: Adjacency | a in w :: a.edge in listed
  }

  /** Every walk that ignores direction locks breaks one on a listed edge. */
  ghost predicate CutsLooseWalks(ix: Index, start: Id, goal: Id, listed: seq<Id>) {
    forall w | IsLooseWalk(ix, start, w) && EndOf(start, w) == goal :: exists a: Adjacency | a in w :: DirectionLocked(ix, a) && a.edge in listed
  }

  // ---------------------------------------------------------------------------
  // collecting edges at the frontier
  // ---------------------------------------------------------------------------

  /** A hard-blocked edge on a legal step out of one of these nodes. */
  ghost predicate BlockedAt(ix: Index, nodes: seq<Id>, e: Id) {
    exists n, a | n in nodes && a in NeighborsOf(ix, n) :: a.edge == e && IsEdgeHardBlocked(ix, e)
  }

  ghost predicate LockedAt(ix: Index, nodes: seq<Id>, e: Id) {
    exists n, a | n in nodes && a in StepsOf(ix.adjacency, n) :: a.edge == e && DirectionLocked(ix, a)
  }

  ghost predicate WallsListed(ix: Index, edges: seq<Id>, zones: seq<Id>) {
    forall z :: z in zones <==> exists e | e in edges :: z in BlockedZonesForEdge(ix, e)
  }

  method ListOf(ids: set<Id>) returns (list: seq<Id>)
    ensures NoDuplicates(list) && forall x :: x in list <==> x in ids
  {
    list := [];
    var left := ids;
    while left != {}
      invariant left <= ids && NoDuplicates(list)
      invariant forall x :: x in list <==> x in ids - left
    {
      var x :| x in left;
      assert x !in list;
      list := list + [x];
      left := left - {x};
    }
  }

  method AddZones(listed: seq<Id>, zones: seq<Id>) returns (out: seq<Id>)
    requires NoDuplicates(listed)
    ensures NoDuplicates(out) && forall z :: z in out <==> z in listed || z in zones
  {
    out := listed;
    for i := 0 to |zones|
      invariant NoDuplicates(out) && forall z :: z in out <==> z in listed || z in zones[..i]
    {
      if zones[i] !in out {
        out := out + [zones[i]];
      }
    }
    assert zones[..|zones|] == zones;
  }

  ghost predicate Listing(ix: Index, edges: seq<Id>, zones: seq<Id>) {
    NoDuplicates(edges) && NoDuplicates(zones) && WallsListed(ix, edges, zones)
  }

  /** Lists an edge and the zones that wall it off, if it is hard-blocked. */
  method RecordBlocked(ix: Index, e: Id, edges: seq<Id>, zones: seq<Id>) returns (es: seq<Id>, zs: seq<Id>)
    requires Listing(ix, edges, zones)
    ensures Listing(ix, es, zs)
    ensures forall x :: x in es <==> x in edges || (x == e && IsEdgeHardBlocked(ix, e))
  {
    es, zs := edges, zones;
    if !IsEdgeHardBlocked(ix, e) {
      return;
    }
    if e !in es {
      es := es + [e];
    }
    zs := AddZones(zs, BlockedZonesForEdge(ix, e));
    assert forall x :: x in es <==> x in edges || x == e;
  }

  method CollectFrom(ix: Index, node: Id, edges: seq<Id>, zones: seq<Id>) returns (es: seq<Id>, zs: seq<Id>)
    requires Listing(ix, edges, zones)
    ensures Listing(ix, es, zs)
    ensures forall x :: x in es <==> x in edges || BlockedAt(ix, [node], x)
  {
    es, zs := edges, zones;
    var steps := NeighborsOf(ix, node);
    for i := 0 to |steps|
      invariant Listing(ix, es, zs)
      invariant forall x :: x in es <==> x in edges || (IsEdgeHardBlocked(ix, x) && exists a | a in steps[..i] :: a.edge == x)
    {
      es, zs := RecordBlocked(ix, steps[i].edge, es, zs);
      assert steps[..i + 1] == steps[..i] + [steps[i]];
    }
    assert steps[..|steps|] == steps;
    forall x ensures x in es <==> x in edges || BlockedAt(ix, [node], x) {
      assert node in [node];
    }
  }

  /** Every hard-blocked edge on a legal step out of the given nodes. */
  method CollectBlocked(ix: Index, nodes: seq<Id>) returns (edges: seq<Id>, zones: seq<Id>)
    ensures Listing(ix, edges, zones)
    ensures forall x :: x in edges <==> BlockedAt(ix, nodes, x)
  {
    edges, zones := [], [];
    for i := 0 to |nodes|
      invariant Listing(ix, edges, zones)
      invariant forall x :: x in edges <==> BlockedAt(ix, nodes[..i], x)
    {
      edges, zones := CollectFrom(ix, nodes[i], edges, zones);
      assert nodes[..i + 1] == nodes[..i] + [nodes[i]];
    }
    assert nodes[..|nodes|] == nodes;
  }

  /** Hard-blocked edges among the given ones. */
  method CollectAlong(ix: Index, along: seq<Id>, edges: seq<Id>, zones: seq<Id>) returns (es: seq<Id>, zs: seq<Id>)
    requires Listing(ix, edges, zones)
    ensures Listing(ix, es, zs)
    ensures forall x :: x in es <==> x in edges || (x in along && IsEdgeHardBlocked(ix, x))
  {
    es, zs := edges, zones;
    for i := 0 to |along|
      invariant Listing(ix, es, zs)
      invariant forall x :: x in es <==> x in edges || (x in along[..i] && IsEdgeHardBlocked(ix, x))
    {
      es, zs := RecordBlocked(ix, along[i], es, zs);
    }
    assert along[..|along|] == along;
  }

  /** Direction-locked edges on steps out of the given nodes. */
  method CollectLocked(ix: Index, nodes: seq<Id>) returns (edges: seq<Id>)
    ensures NoDuplicates(edges)
    ensures forall x :: x in edges <==> LockedAt(ix, nodes, x)
  {
    edges := [];
    for i := 0 to |nodes|
      invariant NoDuplicates(edges)
      invariant forall x :: x in edges <==> LockedAt(ix, nodes[..i], x)
    {
      edges := LockedFrom(ix, nodes[i], edges);
      assert nodes[..i + 1] == nodes[..i] + [nodes[i]];
    }
    assert nodes[..|nodes|] == nodes;
  }

  method LockedFrom(ix: Index, node: Id, edges: seq<Id>) returns (es: seq<Id>)
    requires NoDuplicates(edges)
    ensures NoDuplicates(es)
    ensures forall x :: x in es <==> x in edges || LockedAt(ix, [node], x)
  {
    es := edges;
    var steps := StepsOf(ix.adjacency, node);
    for i := 0 to |steps|
      invariant NoDuplicates(es)
      invariant forall x :: x in es <==> x in edges || exists a | a in steps[..i] :: a.edge == x && DirectionLocked(ix, a)
    {
      var a := steps[i];
      assert steps[..i + 1] == steps[..i] + [a];
      if a.edge !in ix.edges {
        continue;
      }
      if AllowsTraversal(ix.edges[a.edge].semantics, a.fromSource) {
        continue;
      }
      if a.edge !in es {
        es := es + [a.edge];
      }
    }
    assert steps[..|steps|] == steps;
    forall x ensures x in es <==> x in edges || LockedAt(ix, [node], x) {
      assert node in [node];
    }
  }

  // ---------------------------------------------------------------------------
  // why the lists cut
  // ---------------------------------------------------------------------------

  /** A legal walk stays among the nodes reached past the walls until it uses one
      of the hard-blocked edges at their frontier. */
  lemma {:induction false} LegalWalksMeetTheWall(ix: Index, start: Id, reachable: seq<Id>, listed: seq<Id>, w: seq<Adjacency>)
    requires forall n :: n in reachable <==> Reachable(ix, Blocking(ix), start, n)
    requires forall x :: BlockedAt(ix, reachable, x) ==> x in listed
    requires IsWalk(ix, Unconstrained(), start, w)
    ensures EndOf(start, w) in reachable || exists a: Adjacency | a in w :: a.edge in listed
  {
    if w == [] {
      assert WalkTo(ix, Blocking(ix), start, [], start);
    } else {
      var front, a := w[..|w| - 1], w[|w| - 1];
      LegalWalksMeetTheWall(ix, start, reachable, listed, front);
      var u := EndOf(start, front);
      assert a in w;
      if u in reachable {
        assert a in NeighborsOf(ix, u);
        if !IsEdgeHardBlocked(ix, a.edge) {
          var v :| WalkTo(ix, Blocking(ix), start, v, u);
          WalkExtends(ix, Blocking(ix), start, v, a);
        }
      } else {
        var b: Adjacency :| b in front && b.edge in listed;
        assert b in w;
      }
    }
  }

  lemma BlockedEdgesCut(ix: Index, start: Id, goal: Id, reachable: seq<Id>, listed: seq<Id>)
    requires forall n :: n in reachable <==> Reachable(ix, Blocking(ix), start, n)
    requires forall x :: BlockedAt(ix, reachable, x) ==> x in listed
    requires !Reachable(ix, Blocking(ix), start, goal)
    ensures CutsLegalWalks(ix, start, goal, listed)
    ensures Reachable(ix, Unconstrained(), start, goal) ==> listed != []
  {
    forall w | WalkTo(ix, Unconstrained(), start, w, goal) ensures exists a: Adjacency | a in w :: a.edge in listed {
      LegalWalksMeetTheWall(ix, start, reachable, listed, w);
    }
  }

  /** A walk that ignores directions stays among the legally reachable nodes until
      it breaks a direction lock at their frontier. */
  lemma {:induction false} LooseWalksMeetTheLock(ix: Index, start: Id, reachable: seq<Id>, listed: seq<Id>, w: seq<Adjacency>)
    requires forall n :: n in reachable <==> Reachable(ix, Unconstrained(), start, n)
    requires forall x :: LockedAt(ix, reachable, x) ==> x in listed
    requires IsLooseWalk(ix, start, w)
    ensures EndOf(start, w) in reachable || exists a: Adjacency | a in w :: DirectionLocked(ix, a) && a.edge in listed
  {
    if w == [] {
      assert WalkTo(ix, Unconstrained(), start, [], start);
    } else {
      var front, a := w[..|w| - 1], w[|w| - 1];
      LooseWalksMeetTheLock(ix, start, reachable, listed, front);
      var u := EndOf(start, front);
      assert a in w;
      if u in reachable {
        if DirectionLocked(ix, a) {
          assert LockedAt(ix, reachable, a.edge);
        } else {
          var v :| WalkTo(ix, Unconstrained(), start, v, u);
          WalkExtends(ix, Unconstrained(), start, v, a);
        }
      } else {
        var b: Adjacency :| b in front && DirectionLocked(ix, b) && b.edge in listed;
        assert b in w;
      }
    }
  }

  lemma LockedEdgesCut(ix: Index, start: Id, goal: Id, reachable: seq<Id>, listed: seq<Id>)
    requires forall n :: n in reachable <==> Reachable(ix, Unconstrained(), start, n)
    requires forall x :: LockedAt(ix, reachable, x) ==> x in listed
    requires !Reachable(ix, Unconstrained(), start, goal)
    ensures CutsLooseWalks(ix, start, goal, listed)
  {
    forall w | IsLooseWalk(ix, start, w) && EndOf(start, w) == goal
      ensures exists a: Adjacency | a in w :: DirectionLocked(ix, a) && a.edge in listed
    {
      LooseWalksMeetTheLock(ix, start, reachable, listed, w);
    }
  }

  // ---------------------------------------------------------------------------
  // the diagnosis
  // ---------------------------------------------------------------------------

  /** Which of the four answers applies. */
  ghost function KindOf(ix: Index, start: Id, goal: Id): FailureKind {
    if start !in ix.nodes then MissingStartNode
    else if goal !in ix.nodes then MissingGoalNode
    else if Reachable(ix, Unconstrained(), start, goal) then PolicyBlocked
    else Unreachable
  }

  /** What a policy failure lists: hard-blocked edges with the zones that wall
      them off. If no way past the walls exists, they cut every legal walk. */
  ghost predicate ExplainsBlocking(ix: Index, start: Id, goal: Id, f: RouteFailure) {
    && Listing(ix, f.blockedEdges, f.blockedZones) && f.lockedEdges == []
    && (forall e | e in f.blockedEdges :: IsEdgeHardBlocked(ix, e))
    && (!Reachable(ix, Blocking(ix), start, goal) ==>
          && f.blockedEdges != [] && CutsLegalWalks(ix, start, goal, f.blockedEdges)
          && (forall e :: e in f.blockedEdges <==> BlockedAt(ix, f.reachable, e))
          && (forall n :: n in f.reachable <==> Reachable(ix, Blocking(ix), start, n)))
  }

  ghost predicate ExplainsDisconnection(ix: Index, start: Id, goal: Id, f: RouteFailure) {
    && f.blockedEdges == [] && f.blockedZones == []
    && NoDuplicates(f.lockedEdges) && CutsLooseWalks(ix, start, goal, f.lockedEdges)
    && (forall e :: e in f.lockedEdges <==> LockedAt(ix, f.reachable, e))
    && (forall n :: n in f.reachable <==> Reachable(ix, Unconstrained(), start, n))
  }

  method DiagnoseRouteFailure(ix: Index, start: Id, goal: Id) returns (f: RouteFailure)
    ensures f.kind == KindOf(ix, start, goal)
    ensures f.kind == PolicyBlocked ==> ExplainsBlocking(ix, start, goal, f)
    ensures f.kind == Unreachable ==> ExplainsDisconnection(ix, start, goal, f)
  {
    if start !in ix.nodes {
      return RouteFailure(MissingStartNode, [], [], [], []);
    }
    if goal !in ix.nodes {
      return RouteFailure(MissingGoalNode, [], [], [], []);
    }
    var unconstrained, rank := Dijkstra(ix, Unconstrained(), start, goal);
    if unconstrained.found {
      f := DiagnoseBlocking(ix, start, goal, unconstrained, rank);
      return;
    }
    var reachable := ListOf(unconstrained.distances.Keys);
    var locked := CollectLocked(ix, reachable);
    LockedEdgesCut(ix, start, goal, reachable, locked);
    return RouteFailure(Unreachable, [], [], locked, reachable);
  }

  method DiagnoseBlocking(ix: Index, start: Id, goal: Id, unconstrained: SearchState, ghost rank: map<Id, nat>) returns (f: RouteFailure)
    requires start in ix.nodes && goal in ix.nodes
    requires unconstrained.found && Settled(ix, Unconstrained(), start, goal, unconstrained, rank)
    requires Reachable(ix, Unconstrained(), start, goal)
    ensures f.kind == PolicyBlocked && ExplainsBlocking(ix, start, goal, f)
  {
    var blocked, order := Dijkstra(ix, Blocking(ix), start, goal);
    var reachable := ListOf(blocked.distances.Keys);
    var edges, zones := CollectBlocked(ix, reachable);
    if !blocked.found {
      BlockedEdgesCut(ix, start, goal, reachable, edges);
    }
    if edges == [] {
      SettledIsRanked(ix, Unconstrained(), start, goal, unconstrained, rank);
      var nodes := ReconstructRouteNodes(unconstrained, start, goal, rank);
      var along := ExtractTraversedEdgeIds(ix, nodes);
      if along.Ok? {
        edges, zones := CollectAlong(ix, along.value, edges, zones);
      }
    }
    return RouteFailure(PolicyBlocked, edges, zones, [], reachable);
  }
}
