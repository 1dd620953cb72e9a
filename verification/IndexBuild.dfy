/** The index build: links, ancestor sets, policies and adjacency in one record,
    and the tree queries answered from it. */
module IndexBuild {
  import opened Basics
  import opened Workspace
  import opened ZoneTree

  // ---------------------------------------------------------------------------
  // ancestor sets agree with the tree
  // ---------------------------------------------------------------------------

  function TreeAncestors(root: Zone, z: Id): (ancestors: set<Id>) {
    set pair | pair in Strict(root) && pair.0 == z :: pair.1
  }

  lemma ParentIsNearest(root: Zone, z: Id, p: Id)
    requires DistinctIds(root) && (z, p) in Links(root)
    ensures TreeAncestors(root, z) == {p} + TreeAncestors(root, p)
    ensures p !in TreeAncestors(root, p)
  {
    LinkIsStrict(root, z, p);
    StrictIsIrreflexive(root, p);
    assert forall a | a in TreeAncestors(root, p) :: (p, a) in Strict(root);
    forall a | a in TreeAncestors(root, p) ensures (z, a) in Strict(root) {
      StrictExtends(root, z, p, a);
    }
    forall a | a in TreeAncestors(root, z) ensures a == p || a in TreeAncestors(root, p) {
      var p' := StrictUnfolds(root, z, a);
      DistinctBelow(root);
      ParentIsUnique(root.children, root.id, z, p, p');
    }
  }

  lemma RootHasNoParent(root: Zone, z: Id)
    requires forall p :: (z, p) !in Links(root)
    ensures TreeAncestors(root, z) == {}
  {
    forall a | a in TreeAncestors(root, z) ensures false {
      var p := StrictUnfolds(root, z, a);
    }
  }

  /** Repeated parent steps reach exactly the ancestors in the tree. */
  lemma {:induction false} AboveIsStrict(root: Zone, parents: map<Id, Id>, z: Id)
    requires DistinctIds(root) && ParentsAre(parents, Links(root))
    ensures forall a :: Above(parents, z, a) <==> a in TreeAncestors(root, z)
    decreases |TreeAncestors(root, z)|
  {
    if z in parents {
      var p := parents[z];
      ParentIsNearest(root, z, p);
      assert |TreeAncestors(root, z)| == 1 + |TreeAncestors(root, p)|;
      AboveIsStrict(root, parents, p);
      forall a ensures Above(parents, z, a) <==> a == p || Above(parents, p, a) {
        AboveUnfolds(parents, z, a);
      }
    } else {
      RootHasNoParent(root, z);
    }
  }

  lemma AboveUnfolds(parents: map<Id, Id>, z: Id, a: Id)
    requires z in parents
    ensures Above(parents, z, a) <==> a == parents[z] || Above(parents, parents[z], a)
  {
    var p := parents[z];
    if Above(parents, z, a) {
      var k: nat :| k >= 1 && Up(parents, z, k) == Some(a);
      assert Up(parents, p, k - 1) == Some(a);
    }
    if a == p {
      assert Up(parents, z, 1) == Some(a);
    }
    if Above(parents, p, a) {
      var k: nat :| k >= 1 && Up(parents, p, k) == Some(a);
      assert Up(parents, z, k + 1) == Some(a);
    }
  }

  // ---------------------------------------------------------------------------
  // adjacency
  // ---------------------------------------------------------------------------

  /** The step an edge offers out of `node`: forward from its source, backward
      from its target, and a self-loop only once. */
  predicate OffersStep(e: GraphEdge, node: Id, a: Adjacency) {
    || (node == e.source && a == Adjacency(e.target, e.id, e.weight, true))
    || (node == e.target && e.source != e.target && a == Adjacency(e.source, e.id, e.weight, false))
  }

  /** What an edge adds to the steps listed at `node`. */
  function StepsOffered(e: GraphEdge, node: Id): seq<Adjacency> {
    (if node == e.source then [Adjacency(e.target, e.id, e.weight, true)] else [])
    + if node == e.target && e.source != e.target then [Adjacency(e.source, e.id, e.weight, false)] else []
  }

  /** The steps out of `node`, in the order of the edges. */
  function StepsFrom(graph: seq<GraphEdge>, node: Id): seq<Adjacency> {
    if graph == [] then [] else StepsFrom(graph[..|graph| - 1], node) + StepsOffered(graph[|graph| - 1], node)
  }

  lemma {:induction false} StepsFromMembers(graph: seq<GraphEdge>, node: Id, a: Adjacency)
    ensures a in StepsFrom(graph, node) <==> exists e | e in graph :: OffersStep(e, node, a)
  {
    if graph != [] {
      var front, last := graph[..|graph| - 1], graph[|graph| - 1];
      assert graph == front + [last];
      StepsFromMembers(front, node, a);
      assert a in StepsOffered(last, node) <==> OffersStep(last, node, a);
    }
  }

  ghost predicate ListsSteps(adjacency: map<Id, seq<Adjacency>>, graph: seq<GraphEdge>) {
    forall node :: StepsOf(adjacency, node) == StepsFrom(graph, node)
  }

  /** Lists one more edge, a self-loop once. */
  method AddEdge(adjacency: map<Id, seq<Adjacency>>, e: GraphEdge) returns (more: map<Id, seq<Adjacency>>)
    ensures forall node :: StepsOf(more, node) == StepsOf(adjacency, node) + StepsOffered(e, node)
  {
    more := adjacency[e.source := StepsOf(adjacency, e.source) + [Adjacency(e.target, e.id, e.weight, true)]];
    if e.source != e.target {
      more := more[e.target := StepsOf(more, e.target) + [Adjacency(e.source, e.id, e.weight, false)]];
    }
  }

  lemma OneMoreEdge(adjacency: map<Id, seq<Adjacency>>, more: map<Id, seq<Adjacency>>, graph: seq<GraphEdge>, e: GraphEdge)
    requires ListsSteps(adjacency, graph)
    requires forall node :: StepsOf(more, node) == StepsOf(adjacency, node) + StepsOffered(e, node)
    ensures ListsSteps(more, graph + [e])
  {
    assert (graph + [e])[..|graph|] == graph;
  }

  /** The steps at every node, edge by edge, each as often as an edge offers it. */
  method BuildAdjacency(graph: seq<GraphEdge>) returns (adjacency: map<Id, seq<Adjacency>>)
    ensures ListsSteps(adjacency, graph)
    ensures forall node, a :: a in StepsOf(adjacency, node) <==> exists e | e in graph :: OffersStep(e, node, a)
  {
    adjacency := map[];
    for i := 0 to |graph|
      invariant ListsSteps(adjacency, graph[..i])
    {
      var more := AddEdge(adjacency, graph[i]);
      OneMoreEdge(adjacency, more, graph[..i], graph[i]);
      assert graph[..i + 1] == graph[..i] + [graph[i]];
      adjacency := more;
    }
    assert graph[..|graph|] == graph;
    forall node, a ensures a in StepsOf(adjacency, node) <==> exists e | e in graph :: OffersStep(e, node, a) {
      StepsFromMembers(graph, node, a);
    }
  }

  // ---------------------------------------------------------------------------
  // nodes and edges
  // ---------------------------------------------------------------------------

  /** The nil UUID: an item without an id of its own. */
  const NIL: Id := Id(0)

  datatype Item<T> = Item(id: Id, value: T)

  /** What is recorded under an id: the first item that has it, but for the nil
      id the last one. */
  function Recorded<T>(items: seq<Item<T>>, id: Id): Option<T> {
    if items == [] then None
    else
      var front, last := items[..|items| - 1], items[|items| - 1];
      if last.id == id && (id == NIL || Recorded(front, id).None?) then Some(last.value) else Recorded(front, id)
  }

  lemma {:induction false} RecordedExactly<T>(items: seq<Item<T>>, id: Id)
    ensures Recorded(items, id).Some? <==> exists item | item in items :: item.id == id
    ensures forall i | 0 <= i < |items| && items[i].id == id && id != NIL ::
              (forall j | 0 <= j < i :: items[j].id != id) ==> Recorded(items, id) == Some(items[i].value)
    ensures forall i | 0 <= i < |items| && items[i].id == NIL && id == NIL ::
              (forall j | i < j < |items| :: items[j].id != NIL) ==> Recorded(items, id) == Some(items[i].value)
  {
    if items != [] {
      var front, last := items[..|items| - 1], items[|items| - 1];
      assert items == front + [last];
      RecordedExactly(front, id);
    }
  }

  method IndexItems<T>(items: seq<Item<T>>) returns (table: map<Id, T>)
    ensures forall id :: id in table <==> Recorded(items, id).Some?
    ensures forall id | id in table :: Some(table[id]) == Recorded(items, id)
  {
    table := map[];
    for i := 0 to |items|
      invariant forall id :: id in table <==> Recorded(items[..i], id).Some?
      invariant forall id | id in table :: Some(table[id]) == Recorded(items[..i], id)
    {
      var item := items[i];
      assert items[..i + 1][..i] == items[..i];
      if item.id == NIL || item.id !in table {
        table := table[item.id := item.value];
      }
    }
    assert items[..|items|] == items;
  }

  /** The adjacency is the graph read from both ends. */
  ghost predicate AdjacencyMatches(ix: Index) {
    forall node, a :: a in StepsOf(ix.adjacency, node) <==> exists e | e in ix.graph :: OffersStep(e, node, a)
  }

  /** Every edge and both its ends are indexed. */
  predicate GraphIndexed(ix: Index) {
    forall e | e in ix.graph :: e.id in ix.edges && e.source in ix.nodes && e.target in ix.nodes
  }

  ghost predicate Consistent(ix: Index) {
    AdjacencyMatches(ix) && GraphIndexed(ix)
  }

  // ---------------------------------------------------------------------------
  // the whole index
  // ---------------------------------------------------------------------------

  /** The first zone with this id, depth first. */
  function FindZone(root: Zone, id: Id): (z: Option<Zone>)
    ensures z.Some? <==> id in Ids(root)
    ensures z.Some? ==> z.value.id == id
    decreases root
  {
    if root.id == id then Some(root) else FindZoneIn(root.children, id)
  }

  function FindZoneIn(zs: seq<Zone>, id: Id): (z: Option<Zone>)
    ensures z.Some? <==> id in IdsOf(zs)
    ensures z.Some? ==> z.value.id == id
    decreases zs
  {
    if zs == [] then None
    else if FindZone(zs[0], id).Some? then FindZone(zs[0], id)
    else FindZoneIn(zs[1..], id)
  }

  method AnyOf(ids: set<Id>) returns (id: Id)
    requires ids != {}
    ensures id in ids
  {
    id :| id in ids;
  }

  method BuildAncestors(zoneIds: set<Id>, parents: map<Id, Id>) returns (table: map<Id, set<Id>>)
    ensures table.Keys == zoneIds
    ensures forall z, a :: z in zoneIds ==> (a in table[z] <==> Above(parents, z, a))
  {
    table := map[];
    var left := zoneIds;
    while left != {}
      invariant left <= zoneIds
      invariant table.Keys == zoneIds - left
      invariant forall z, a :: z in table ==> (a in table[z] <==> Above(parents, z, a))
    {
      var z := AnyOf(left);
      var ancestors := AncestorsOf(parents, z);
      table := table[z := ancestors];
      left := left - {z};
    }
  }

  /** Containment in the index, as the tree has it. */
  ghost predicate AgreesWithTree(ix: Index, root: Zone) {
    && (forall z :: z in ix.zones <==> z in Ids(root))
    && (forall a, z :: z in ix.zones ==> (ZoneContains(ix, a, z) <==> a == z || (z, a) in Strict(root)))
  }

  /** The child lists are the parent links read the other way, each child once. */
  ghost predicate ChildrenMatchParents(ix: Index) {
    && (forall c, p :: c in ChildrenOf(ix.children, p) <==> c in ix.parents && ix.parents[c] == p)
    && (forall p :: NoDuplicates(ChildrenOf(ix.children, p)))
  }

  method BuildPolicies(root: Zone, zoneIds: set<Id>) returns (policies: map<Id, ZonePolicy>)
    requires forall z | z in zoneIds :: z in Ids(root)
    ensures policies.Keys == zoneIds
    ensures forall z | z in zoneIds :: policies[z].capacity >= 1
    ensures forall z | z in zoneIds :: FromProperties(FindZone(root, z).value.properties, policies[z])
  {
    policies := map[];
    var left := zoneIds;
    while left != {}
      invariant left <= zoneIds && policies.Keys == zoneIds - left
      invariant forall z | z in policies :: policies[z].capacity >= 1
      invariant forall z | z in policies :: FromProperties(FindZone(root, z).value.properties, policies[z])
    {
      var z := AnyOf(left);
      var policy := ParseZonePolicy(FindZone(root, z).value.properties);
      policies := policies[z := policy];
      left := left - {z};
    }
  }

  /** An edge as drawn: where it runs, and its record under its id. */
  datatype DrawnEdge = DrawnEdge(edge: GraphEdge, record: EdgeRecord)

  function EdgeItems(drawn: seq<DrawnEdge>): seq<Item<EdgeRecord>> {
    Map(drawn, (d: DrawnEdge) => Item(d.edge.id, d.record))
  }

  /** The edges that run between recorded nodes. */
  function Connected(drawn: seq<DrawnEdge>, nodes: map<Id, seq<Id>>): seq<GraphEdge> {
    Filter(Map(drawn, (d: DrawnEdge) => d.edge), (e: GraphEdge) => e.source in nodes && e.target in nodes)
  }

  /** The graph keeps exactly the drawn edges that run between recorded nodes, and
      every drawn edge is recorded under its id. */
  lemma DrawnEdgesExactly(drawn: seq<DrawnEdge>, nodes: map<Id, seq<Id>>)
    ensures forall e :: e in Connected(drawn, nodes) <==>
                          (exists d | d in drawn :: d.edge == e) && e.source in nodes && e.target in nodes
    ensures forall id :: Recorded(EdgeItems(drawn), id).Some? <==> exists d | d in drawn :: d.edge.id == id
  {
    var edges, items := Map(drawn, (d: DrawnEdge) => d.edge), EdgeItems(drawn);
    forall d | d in drawn ensures d.edge in edges && Item(d.edge.id, d.record) in items {
      var i :| 0 <= i < |drawn| && drawn[i] == d;
      assert edges[i] == d.edge && items[i] == Item(d.edge.id, d.record);
    }
    forall id ensures Recorded(items, id).Some? <==> exists d | d in drawn :: d.edge.id == id {
      RecordedExactly(items, id);
      if Recorded(items, id).Some? {
        var i :| 0 <= i < |items| && items[i].id == id;
        assert drawn[i] in drawn && drawn[i].edge.id == id;
      }
    }
  }

  /** Builds the index. Over a tree with distinct ids its containment cache is
      exactly reflexive ancestry in the tree; over any tree and graph, policies
      are parsed and edges, nodes and steps agree. */
  method Rebuild(root: Zone, vertices: seq<Item<seq<Id>>>, drawn: seq<DrawnEdge>) returns (ix: Index)
    ensures forall n :: n in ix.nodes <==> Recorded(vertices, n).Some?
    ensures forall n | n in ix.nodes :: Some(ix.nodes[n]) == Recorded(vertices, n)
    ensures forall e :: e in ix.edges <==> Recorded(EdgeItems(drawn), e).Some?
    ensures forall e | e in ix.edges :: Some(ix.edges[e]) == Recorded(EdgeItems(drawn), e)
    ensures ix.graph == Connected(drawn, ix.nodes) && ListsSteps(ix.adjacency, ix.graph)
    ensures ParsedPolicies(ix) && Consistent(ix)
    ensures forall z | z in ix.zones :: FindZone(root, z).Some? && FromProperties(FindZone(root, z).value.properties, ix.zones[z])
    ensures forall z, a :: z in ix.zones ==> z in ix.ancestors && (a in ix.ancestors[z] <==> Above(ix.parents, z, a))
    ensures DistinctIds(root) ==> TreeShaped(ix) && AgreesWithTree(ix, root) && ChildrenMatchParents(ix)
  {
    var zoneIds, parents, children, duplicates := IndexZoneTree(root);
    var nodes := IndexItems(vertices);
    var edges := IndexItems(EdgeItems(drawn));
    var graph := Connected(drawn, nodes);
    var adjacency := BuildAdjacency(graph);
    var zones := BuildPolicies(root, zoneIds);
    var ancestors := BuildAncestors(zoneIds, parents);
    ix := Index(zones, parents, children, ancestors, nodes, edges, graph, adjacency);
    ConnectedIsIndexed(ix, drawn);
    if DistinctIds(root) {
      BuiltIndexIsTreeShaped(ix, root);
    }
  }

  lemma ConnectedIsIndexed(ix: Index, drawn: seq<DrawnEdge>)
    requires ix.graph == Connected(drawn, ix.nodes)
    requires forall e :: e in ix.edges <==> Recorded(EdgeItems(drawn), e).Some?
    ensures GraphIndexed(ix)
  {
    var all, items := Map(drawn, (d: DrawnEdge) => d.edge), EdgeItems(drawn);
    forall e | e in ix.graph ensures e.id in ix.edges {
      var i :| 0 <= i < |all| && all[i] == e;
      assert items[i].id == e.id;
      RecordedExactly(items, e.id);
    }
  }

  lemma BuiltIndexIsTreeShaped(ix: Index, root: Zone)
    requires DistinctIds(root)
    requires forall z :: z in ix.zones <==> z in Ids(root)
    requires ParentsAre(ix.parents, Links(root)) && ChildrenAre(ix.children, Links(root))
    requires ix.ancestors.Keys == ix.zones.Keys
    requires forall z, a :: z in ix.zones ==> (a in ix.ancestors[z] <==> Above(ix.parents, z, a))
    ensures TreeShaped(ix) && AgreesWithTree(ix, root) && ChildrenMatchParents(ix)
  {
    forall z | z in ix.zones ensures ix.ancestors[z] == TreeAncestors(root, z) {
      AboveIsStrict(root, ix.parents, z);
      assert forall a :: a in ix.ancestors[z] <==> a in TreeAncestors(root, z);
    }
    TreeAncestorsAreShaped(ix, root);
    forall a, z | z in ix.zones ensures ZoneContains(ix, a, z) <==> a == z || (z, a) in Strict(root) {
      assert a in TreeAncestors(root, z) <==> (z, a) in Strict(root);
    }
  }

  lemma TreeAncestorsAreShaped(ix: Index, root: Zone)
    requires DistinctIds(root)
    requires forall z :: z in ix.zones <==> z in Ids(root)
    requires ParentsAre(ix.parents, Links(root))
    requires ix.ancestors.Keys == ix.zones.Keys
    requires forall z | z in ix.zones :: ix.ancestors[z] == TreeAncestors(root, z)
    ensures TreeShaped(ix)
  {
    forall z | z in ix.parents ensures z in ix.zones && ix.parents[z] in ix.zones {
      LinksLie(root, z, ix.parents[z]);
    }
    forall z | z in ix.zones ensures z !in ix.ancestors[z] {
      StrictIsIrreflexive(root, z);
    }
    forall z | z in ix.parents ensures ix.ancestors[z] == {ix.parents[z]} + ix.ancestors[ix.parents[z]] {
      ParentIsNearest(root, z, ix.parents[z]);
    }
    forall z | z in ix.zones && z !in ix.parents ensures ix.ancestors[z] == {} {
      RootHasNoParent(root, z);
    }
  }

  // ---------------------------------------------------------------------------
  // queries
  // ---------------------------------------------------------------------------

  /** Everything below a zone that its children lead to. */
  lemma {:induction false} ReachedFromAbove(ix: Index, top: Id, reached: set<Id>, x: Id)
    requires TreeShaped(ix)
    requires top in reached
    requires forall c | c in ix.parents :: ix.parents[c] in reached ==> c in reached
    requires x in ix.zones && ZoneContains(ix, top, x)
    ensures x in reached
    decreases |ix.ancestors[x]|
  {
    if x != top {
      AncestorIsZone(ix, top, x);
      var p := ix.parents[x];
      assert ix.ancestors[x] == {p} + ix.ancestors[p] && p !in ix.ancestors[p];
      assert |ix.ancestors[x]| == 1 + |ix.ancestors[p]|;
      ReachedFromAbove(ix, top, reached, p);
    }
  }

  /** Every zone below a zone, each once, by a worklist over the child lists. */
  method DescendantZones(ix: Index, zone: Id) returns (out: seq<Id>)
    requires TreeShaped(ix) && ChildrenMatchParents(ix)
    ensures NoDuplicates(out)
    ensures forall x :: x in out <==> x in ix.zones && x != zone && ZoneContains(ix, zone, x)
  {
    out := [];
    var pending := [zone];
    ghost var popped: set<Id> := {};
    while pending != []
      invariant Explored(ix, zone, out, pending, popped)
      decreases ix.zones.Keys - ToSet(out), |pending|
    {
      var current := pending[|pending| - 1];
      var kids := ChildrenOf(ix.children, current);
      ExploreStep(ix, zone, out, pending, popped);
      pending := pending[..|pending| - 1] + kids;
      out := out + kids;
      popped := popped + {current};
    }
    forall x | x in ix.zones && x != zone && ZoneContains(ix, zone, x) ensures x in out {
      ReachedFromAbove(ix, zone, popped, x);
    }
  }

  /** The listed zones are those whose parent was popped; a listed zone waits in
      the worklist until it is popped itself. */
  ghost predicate Explored(ix: Index, zone: Id, out: seq<Id>, pending: seq<Id>, popped: set<Id>) {
    && NoDuplicates(out) && NoDuplicates(pending)
    && (forall x :: x in out <==> x in ix.parents && ix.parents[x] in popped)
    && (forall x :: x in pending || x in popped <==> x == zone || x in out)
    && (forall x | x in pending :: x !in popped)
    && (forall x | x in out :: x in ix.zones && x != zone && ZoneContains(ix, zone, x))
  }

  lemma ExploreStep(ix: Index, zone: Id, out: seq<Id>, pending: seq<Id>, popped: set<Id>)
    requires TreeShaped(ix) && ChildrenMatchParents(ix)
    requires pending != [] && Explored(ix, zone, out, pending, popped)
    ensures
      var current := pending[|pending| - 1];
      var kids := ChildrenOf(ix.children, current);
      Explored(ix, zone, out + kids, pending[..|pending| - 1] + kids, popped + {current})
    ensures
      var kids := ChildrenOf(ix.children, pending[|pending| - 1]);
      if kids == [] then out + kids == out else ix.zones.Keys - ToSet(out + kids) < ix.zones.Keys - ToSet(out)
  {
    var current := pending[|pending| - 1];
    var kids, front := ChildrenOf(ix.children, current), pending[..|pending| - 1];
    assert pending == front + [current] && current in pending;
    assert current !in front;
    ExploreKeepsApart(ix, zone, out, pending, popped);
    ExploreAccounts(zone, out, front, popped, current, kids);
    if kids != [] {
      OneMore(ix.zones.Keys, out, kids);
    }
  }

  lemma ExploreAccounts(zone: Id, out: seq<Id>, front: seq<Id>, popped: set<Id>, current: Id, kids: seq<Id>)
    requires forall x :: x in front + [current] || x in popped <==> x == zone || x in out
    ensures forall x :: x in front + kids || x in popped + {current} <==> x == zone || x in out + kids
  {
    forall x ensures x in front + kids || x in popped + {current} <==> x == zone || x in out + kids {
      assert x in front + [current] <==> x in front || x == current;
    }
  }

  lemma ExploreKeepsApart(ix: Index, zone: Id, out: seq<Id>, pending: seq<Id>, popped: set<Id>)
    requires TreeShaped(ix) && ChildrenMatchParents(ix)
    requires pending != [] && Explored(ix, zone, out, pending, popped)
    ensures
      var current := pending[|pending| - 1];
      var kids := ChildrenOf(ix.children, current);
      && NoDuplicates(out + kids) && NoDuplicates(pending[..|pending| - 1] + kids)
      && (forall c | c in kids :: c in ix.zones && c != zone && ZoneContains(ix, zone, c) && c !in popped && c != current)
  {
    var current := pending[|pending| - 1];
    var kids, front := ChildrenOf(ix.children, current), pending[..|pending| - 1];
    forall c | c in kids
      ensures c in ix.zones && c != zone && ZoneContains(ix, zone, c)
      ensures c !in out && c !in front && c !in popped && c != current
    {
    }
    NoDuplicatesInBoth(out, kids);
    NoDuplicatesInBoth(front, kids);
  }

  lemma OneMore(all: set<Id>, out: seq<Id>, kids: seq<Id>)
    requires kids != [] && kids[0] in all && kids[0] !in out
    ensures all - ToSet(out + kids) < all - ToSet(out)
  {
    var k := kids[0];
    assert (out + kids)[|out|] == k;
    assert k in ToSet(out + kids) && k !in ToSet(out);
  }

  // ---------------------------------------------------------------------------
  // depth
  // ---------------------------------------------------------------------------

  /** A well-formed index in which every zone lies under `root`. */
  ghost predicate Rooted(ix: Index, root: Id) {
    && TreeShaped(ix) && ChildrenMatchParents(ix)
    && root in ix.zones && forall z | z in ix.zones :: ZoneContains(ix, root, z)
  }

  /** A zone's level: one more than the number of zones above it. */
  function Level(ix: Index, zone: Id): nat {
    1 + if zone in ix.ancestors then |ix.ancestors[zone]| else 0
  }

  datatype Pending = Pending(zone: Id, depth: nat)

  predicate Waiting(pending: seq<Pending>, zone: Id) {
    exists e | e in pending :: e.zone == zone
  }

  function AtDepth(zones: seq<Id>, depth: nat): (entries: seq<Pending>)
    ensures forall e :: e in entries <==> e.zone in zones && e.depth == depth
  {
    if zones == [] then [] else [Pending(zones[0], depth)] + AtDepth(zones[1..], depth)
  }

  ghost predicate Frontier(ix: Index, root: Id, pending: seq<Pending>, visited: set<Id>) {
    && visited <= ix.zones.Keys
    && (forall e | e in pending :: e.zone in ix.zones && e.depth == Level(ix, e.zone))
    && (root in visited || Waiting(pending, root))
    && (forall c | c in ix.parents && ix.parents[c] in visited :: c in visited || Waiting(pending, c))
  }

  ghost predicate Deepest(ix: Index, deepest: nat, visited: set<Id>) {
    && (forall v | v in visited :: Level(ix, v) <= deepest)
    && (if visited == {} then deepest == 0 else exists v | v in visited :: Level(ix, v) == deepest)
  }

  lemma ChildIsOneDeeper(ix: Index, c: Id)
    requires TreeShaped(ix) && c in ix.parents
    ensures Level(ix, c) == Level(ix, ix.parents[c]) + 1
  {
    var p := ix.parents[c];
    assert ix.ancestors[c] == {p} + ix.ancestors[p] && p !in ix.ancestors[p];
  }

  lemma WaitingAtDepth(zones: seq<Id>, depth: nat, z: Id)
    ensures Waiting(AtDepth(zones, depth), z) <==> z in zones
  {
    if z in zones {
      assert Pending(z, depth) in AtDepth(zones, depth);
    }
  }

  /** After a visit, whatever was waiting is still waiting or has been visited,
      and so have the children of the visited zone. */
  lemma VisitKeepsWaiting(ix: Index, pending: seq<Pending>, z: Id)
    requires pending != []
    ensures
      var e := pending[|pending| - 1];
      var next := pending[..|pending| - 1] + AtDepth(ChildrenOf(ix.children, e.zone), e.depth + 1);
      && (Waiting(pending, z) ==> z == e.zone || Waiting(next, z))
      && (z in ChildrenOf(ix.children, e.zone) ==> Waiting(next, z))
  {
    var front, e := pending[..|pending| - 1], pending[|pending| - 1];
    var kids := ChildrenOf(ix.children, e.zone);
    assert pending == front + [e];
    WaitingAtDepth(kids, e.depth + 1, z);
  }

  lemma KidIsOneDeeper(ix: Index, zone: Id, kid: Id)
    requires TreeShaped(ix) && ChildrenMatchParents(ix)
    requires kid in ChildrenOf(ix.children, zone)
    ensures kid in ix.zones && Level(ix, kid) == Level(ix, zone) + 1
  {
    assert ix.parents[kid] == zone;
    ChildIsOneDeeper(ix, kid);
  }

  lemma VisitCoversChildren(ix: Index, pending: seq<Pending>, visited: set<Id>, c: Id)
    requires ChildrenMatchParents(ix)
    requires pending != [] && c in ix.parents && ix.parents[c] in visited + {pending[|pending| - 1].zone}
    requires ix.parents[c] in visited ==> c in visited || Waiting(pending, c)
    ensures
      var e := pending[|pending| - 1];
      var next := pending[..|pending| - 1] + AtDepth(ChildrenOf(ix.children, e.zone), e.depth + 1);
      c in visited + {e.zone} || Waiting(next, c)
  {
    VisitKeepsWaiting(ix, pending, c);
    if ix.parents[c] == pending[|pending| - 1].zone {
      assert c in ChildrenOf(ix.children, ix.parents[c]);
    }
  }

  lemma VisitStep(ix: Index, root: Id, pending: seq<Pending>, visited: set<Id>)
    requires TreeShaped(ix) && ChildrenMatchParents(ix)
    requires pending != [] && Frontier(ix, root, pending, visited)
    ensures
      var e := pending[|pending| - 1];
      var next := pending[..|pending| - 1] + AtDepth(ChildrenOf(ix.children, e.zone), e.depth + 1);
      Frontier(ix, root, next, visited + {e.zone})
  {
    var front, e := pending[..|pending| - 1], pending[|pending| - 1];
    var kids := AtDepth(ChildrenOf(ix.children, e.zone), e.depth + 1);
    assert e in pending;
    forall k: Pending | k in front + kids ensures k.zone in ix.zones && k.depth == Level(ix, k.zone) {
      if k in kids {
        KidIsOneDeeper(ix, e.zone, k.zone);
      } else {
        assert k in pending;
      }
    }
    VisitKeepsWaiting(ix, pending, root);
    forall c | c in ix.parents && ix.parents[c] in visited + {e.zone}
      ensures c in visited + {e.zone} || Waiting(front + kids, c)
    {
      VisitCoversChildren(ix, pending, visited, c);
    }
  }

  /** Whatever the child lists lead to stays inside `all`. */
  ghost predicate ClosedUnderChildren(ix: Index, all: set<Id>) {
    forall p, c | c in ChildrenOf(ix.children, p) :: c in all
  }

  ghost function Listed(ix: Index, root: Id): set<Id> {
    {root} + set p, c | p in ix.children && c in ix.children[p] :: c
  }

  ghost predicate AllIn(pending: seq<Pending>, all: set<Id>) {
    forall i :: 0 <= i < |pending| ==> pending[i].zone in all
  }

  /** The depth search, where the index is well formed. */
  ghost predicate Searched(ix: Index, root: Id, pending: seq<Pending>, visited: set<Id>, deepest: nat) {
    Rooted(ix, root) ==> Frontier(ix, root, pending, visited) && Deepest(ix, deepest, visited)
  }

  lemma SearchedStep(ix: Index, root: Id, pending: seq<Pending>, visited: set<Id>, deepest: nat)
    requires pending != [] && Searched(ix, root, pending, visited, deepest)
    ensures
      var front, e := pending[..|pending| - 1], pending[|pending| - 1];
      if e.zone in visited then
        Searched(ix, root, front, visited, deepest)
      else
        Searched(ix, root, front + AtDepth(ChildrenOf(ix.children, e.zone), e.depth + 1), visited + {e.zone}, Max(deepest, e.depth))
  {
    var e := pending[|pending| - 1];
    assert e in pending;
    if Rooted(ix, root) {
      if e.zone !in visited {
        VisitStep(ix, root, pending, visited);
        assert e.zone in visited + {e.zone};
      }
    }
  }

  lemma SearchEnds(ix: Index, root: Id, visited: set<Id>, deepest: nat)
    requires Searched(ix, root, [], visited, deepest)
    ensures Rooted(ix, root) ==> Deepest(ix, deepest, ix.zones.Keys)
  {
    if Rooted(ix, root) {
      forall z | z in ix.zones ensures z in visited {
        ReachedFromAbove(ix, root, visited, z);
      }
      assert visited == ix.zones.Keys;
    }
  }

  /** How deeply the zones nest, counting the root as one. The walk ends on any
      child lists at all, also when repeated ids make them circular. */
  method MaxZoneDepth(ix: Index, root: Id) returns (deepest: nat)
    ensures Rooted(ix, root) ==> Deepest(ix, deepest, ix.zones.Keys)
  {
    deepest := 0;
    var pending := [Pending(root, 1)];
    var visited: set<Id> := {};
    ghost var all := Listed(ix, root);
    while pending != []
      invariant ClosedUnderChildren(ix, all) && AllIn(pending, all)
      invariant Searched(ix, root, pending, visited, deepest)
      decreases all - visited, |pending|
    {
      SearchedStep(ix, root, pending, visited, deepest);
      var e := pending[|pending| - 1];
      assert e.zone in all;
      pending := pending[..|pending| - 1];
      if e.zone !in visited {
        visited := visited + {e.zone};
        deepest := Max(deepest, e.depth);
        pending := pending + AtDepth(ChildrenOf(ix.children, e.zone), e.depth + 1);
      }
    }
    SearchEnds(ix, root, visited, deepest);
  }

  // -- the depth is the height of the tree -------------------------------------

  function Height(t: Zone): nat {
    1 + HeightOf(t.children)
  }

  function HeightOf(zs: seq<Zone>): nat {
    if zs == [] then 0 else Max(Height(zs[0]), HeightOf(zs[1..]))
  }

  function AncestorsIn(zs: seq<Zone>, z: Id): set<Id> {
    set pair | pair in StrictOf(zs) && pair.0 == z :: pair.1
  }

  lemma AncestorsBelowRoot(t: Zone, z: Id)
    requires DistinctIds(t) && z in IdsOf(t.children)
    ensures |TreeAncestors(t, z)| == 1 + |AncestorsIn(t.children, z)|
  {
    DistinctBelow(t);
    forall a | a in AncestorsIn(t.children, z) ensures a != t.id {
      StrictOfLies(t.children, z, a);
    }
    assert (z, t.id) in Strict(t);
    assert TreeAncestors(t, z) == AncestorsIn(t.children, z) + {t.id};
  }

  lemma AncestorsOfFirst(zs: seq<Zone>, z: Id)
    requires DistinctIdsOf(zs) && zs != []
    ensures z in Ids(zs[0]) ==> AncestorsIn(zs, z) == TreeAncestors(zs[0], z)
    ensures z in IdsOf(zs[1..]) ==> AncestorsIn(zs, z) == AncestorsIn(zs[1..], z)
  {
    DistinctSplit(zs);
    forall a | (z, a) in Strict(zs[0]) ensures z in Ids(zs[0]) {
      StrictLies(zs[0], z, a);
    }
    forall a | (z, a) in StrictOf(zs[1..]) ensures z in IdsOf(zs[1..]) {
      StrictOfLies(zs[1..], z, a);
    }
  }

  /** A zone's level in its tree is at most the tree's height, and some zone is
      that deep. */
  lemma {:induction false} LevelsReachHeight(t: Zone)
    requires DistinctIds(t)
    ensures forall z | z in Ids(t) :: 1 + |TreeAncestors(t, z)| <= Height(t)
    ensures exists z | z in Ids(t) :: 1 + |TreeAncestors(t, z)| == Height(t)
    decreases t
  {
    DistinctBelow(t);
    LevelsOfReachHeight(t.children);
    RootHasNoAncestor(t);
    forall z | z in Ids(t) ensures 1 + |TreeAncestors(t, z)| <= Height(t) {
      if z != t.id {
        AncestorsBelowRoot(t, z);
      }
    }
    if t.children == [] {
      assert t.id in Ids(t);
    } else {
      var z :| z in IdsOf(t.children) && 1 + |AncestorsIn(t.children, z)| == HeightOf(t.children);
      AncestorsBelowRoot(t, z);
      assert z in Ids(t);
    }
  }

  lemma RootHasNoAncestor(t: Zone)
    requires DistinctIds(t)
    ensures TreeAncestors(t, t.id) == {}
  {
    DistinctBelow(t);
    forall a | a in TreeAncestors(t, t.id) ensures false {
      StrictLies(t, t.id, a);
    }
  }

  lemma {:induction false} LevelsOfReachHeight(zs: seq<Zone>)
    requires DistinctIdsOf(zs)
    ensures forall z | z in IdsOf(zs) :: 1 + |AncestorsIn(zs, z)| <= HeightOf(zs)
    ensures zs != [] ==> exists z | z in IdsOf(zs) :: 1 + |AncestorsIn(zs, z)| == HeightOf(zs)
    decreases zs
  {
    if zs != [] {
      DistinctSplit(zs);
      LevelsReachHeight(zs[0]);
      LevelsOfReachHeight(zs[1..]);
      forall z | z in IdsOf(zs) ensures 1 + |AncestorsIn(zs, z)| <= HeightOf(zs) {
        AncestorsOfFirst(zs, z);
      }
      if Height(zs[0]) >= HeightOf(zs[1..]) {
        var z :| z in Ids(zs[0]) && 1 + |TreeAncestors(zs[0], z)| == Height(zs[0]);
        AncestorsOfFirst(zs, z);
        assert z in IdsOf(zs);
      } else {
        var z :| z in IdsOf(zs[1..]) && 1 + |AncestorsIn(zs[1..], z)| == HeightOf(zs[1..]);
        AncestorsOfFirst(zs, z);
        assert z in IdsOf(zs);
      }
    }
  }

  /** On an index built from a tree with distinct ids, what the depth search
      reports is the recursive height of that tree. */
  lemma DepthIsTreeHeight(ix: Index, root: Zone, deepest: nat)
    requires DistinctIds(root)
    requires TreeShaped(ix) && AgreesWithTree(ix, root) && ChildrenMatchParents(ix)
    ensures Rooted(ix, root.id)
    ensures Deepest(ix, deepest, ix.zones.Keys) ==> deepest == Height(root)
  {
    LevelsReachHeight(root);
    assert root.id in Ids(root);
    forall z | z in ix.zones ensures ix.ancestors[z] == TreeAncestors(root, z) && ZoneContains(ix, root.id, z) {
      forall a ensures a in ix.ancestors[z] <==> (z, a) in Strict(root) {
        StrictIsIrreflexive(root, z);
        assert ZoneContains(ix, a, z) <==> a == z || (z, a) in Strict(root);
      }
      assert z == root.id || (z, root.id) in Strict(root);
    }
    if Deepest(ix, deepest, ix.zones.Keys) {
      var high :| high in Ids(root) && 1 + |TreeAncestors(root, high)| == Height(root);
      var low :| low in ix.zones.Keys && Level(ix, low) == deepest;
      assert Level(ix, high) <= deepest;
    }
  }
}
