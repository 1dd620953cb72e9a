/** The route search: one Dijkstra engine with lazy deletion, run under three
    sets of rules. */
module RouteSearch {
  import opened Basics
  import opened Workspace
  import opened EdgePolicy

  /** What a search may use and what it pays on top of an edge's weight. */
  datatype Rules = Rules(skips: Id -> bool, extra: Id -> real)

  function Unconstrained(): Rules {
    Rules(_ => false, _ => 0.0)
  }

  function Blocking(ix: Index): Rules {
    Rules(e => IsEdgeHardBlocked(ix, e), _ => 0.0)
  }

  function Penalised(ix: Index): Rules {
    Rules(e => IsEdgeHardBlocked(ix, e), e => EdgePenalty(ix, e).GetOr(0.0))
  }

  // ---------------------------------------------------------------------------
  // walks
  // ---------------------------------------------------------------------------

  /** A step along an existing edge in a direction it allows. */
  predicate LegalStep(ix: Index, a: Adjacency) {
    a.edge in ix.edges && AllowsTraversal(ix.edges[a.edge].semantics, a.fromSource)
  }

  predicate Usable(ix: Index, r: Rules, from: Id, a: Adjacency) {
    a in StepsOf(ix.adjacency, from) && LegalStep(ix, a) && !r.skips(a.edge)
  }

  function StepCost(r: Rules, a: Adjacency): real {
    a.weight + r.extra(a.edge)
  }

  function EndOf(from: Id, w: seq<Adjacency>): Id {
    if w == [] then from else w[|w| - 1].node
  }

  /** The steps of `w` lead on from `from`, each usable where it is taken. */
  predicate IsWalk(ix: Index, r: Rules, from: Id, w: seq<Adjacency>) {
    w == [] ||
    (IsWalk(ix, r, from, w[..|w| - 1]) && Usable(ix, r, EndOf(from, w[..|w| - 1]), w[|w| - 1]))
  }

  function WalkCost(r: Rules, w: seq<Adjacency>): real {
    if w == [] then 0.0 else WalkCost(r, w[..|w| - 1]) + StepCost(r, w[|w| - 1])
  }

  ghost predicate WalkTo(ix: Index, r: Rules, from: Id, w: seq<Adjacency>, to: Id) {
    IsWalk(ix, r, from, w) && EndOf(from, w) == to
  }

  ghost predicate Reachable(ix: Index, r: Rules, from: Id, to: Id) {
    exists w :: WalkTo(ix, r, from, w, to)
  }

  ghost predicate HasWalkOfCost(ix: Index, r: Rules, from: Id, to: Id, cost: real) {
    exists w :: WalkTo(ix, r, from, w, to) && WalkCost(r, w) == cost
  }

  ghost predicate NoWalkCheaper(ix: Index, r: Rules, from: Id, to: Id, cost: real) {
    forall w :: WalkTo(ix, r, from, w, to) ==> cost <= WalkCost(r, w)
  }

  /** `cost` is the least total over all usable walks. */
  ghost predicate IsShortest(ix: Index, r: Rules, from: Id, to: Id, cost: real) {
    HasWalkOfCost(ix, r, from, to, cost) && NoWalkCheaper(ix, r, from, to, cost)
  }

  ghost predicate NonNegative(ix: Index, r: Rules) {
    forall n, a :: a in StepsOf(ix.adjacency, n) ==> StepCost(r, a) >= 0.0
  }

  lemma WalkExtends(ix: Index, r: Rules, from: Id, w: seq<Adjacency>, a: Adjacency)
    requires IsWalk(ix, r, from, w) && Usable(ix, r, EndOf(from, w), a)
    ensures WalkTo(ix, r, from, w + [a], a.node)
    ensures WalkCost(r, w + [a]) == WalkCost(r, w) + StepCost(r, a)
  {
    assert (w + [a])[..|w|] == w;
  }

  // ---------------------------------------------------------------------------
  // the search tree
  // ---------------------------------------------------------------------------

  datatype SearchState = SearchState(
    found: bool,
    distance: Option<real>,
    distances: map<Id, real>,
    predecessors: map<Id, Id>)

  datatype QueueEntry = QueueEntry(node: Id, distance: real)

  ghost predicate Attached(ix: Index, r: Rules, D: map<Id, real>, P: map<Id, Id>, n: Id) {
    && n in D && n in P && P[n] in D
    && exists a :: Usable(ix, r, P[n], a) && a.node == n && D[n] == D[P[n]] + StepCost(r, a)
  }

  /** Every labelled node hangs from a settled one by a usable step that accounts
      for its distance; among settled nodes the predecessor settled earlier. */
  ghost predicate Grown(ix: Index, r: Rules, start: Id, D: map<Id, real>, P: map<Id, Id>, rank: map<Id, nat>) {
    && start in D && D[start] == 0.0
    && (forall n | n in rank :: n in D)
    && (forall n {:trigger P[n]} {:trigger Attached(ix, r, D, P, n)} | n in D && n != start :: Attached(ix, r, D, P, n) && P[n] in rank)
    && (forall n {:trigger P[n]} | n in rank && n != start :: n in P && P[n] in rank && rank[P[n]] < rank[n])
  }

  /** A settled node's usable steps all lead to labelled nodes. */
  ghost predicate Explored(ix: Index, r: Rules, settled: set<Id>, D: map<Id, real>) {
    forall u, a | u in settled && Usable(ix, r, u, a) :: a.node in D
  }

  /** ... and none of them would lower the label it leads to. */
  ghost predicate Relaxed(ix: Index, r: Rules, settled: set<Id>, D: map<Id, real>) {
    forall u, a | u in settled && Usable(ix, r, u, a) :: u in D && a.node in D && D[a.node] <= D[u] + StepCost(r, a)
  }

  /** The heap holds each open label, and never understates one. */
  ghost predicate Heaped(settled: set<Id>, D: map<Id, real>, frontier: multiset<QueueEntry>) {
    && (forall e | e in frontier :: e.node in D && D[e.node] <= e.distance)
    && (forall n | n in D && n !in settled :: QueueEntry(n, D[n]) in frontier)
  }

  ghost predicate AtLeast(frontier: multiset<QueueEntry>, bound: real) {
    forall e | e in frontier :: bound <= e.distance
  }

  ghost predicate AtMost(settled: set<Id>, D: map<Id, real>, bound: real) {
    forall n | n in settled :: n in D && D[n] <= bound
  }

  /** Whatever is labelled can be reached at its label's cost. */
  lemma {:induction false} SettledHasWalk(ix: Index, r: Rules, start: Id, D: map<Id, real>, P: map<Id, Id>, rank: map<Id, nat>, n: Id)
    requires Grown(ix, r, start, D, P, rank) && n in rank
    ensures HasWalkOfCost(ix, r, start, n, D[n])
    decreases rank[n]
  {
    if n == start {
      assert WalkTo(ix, r, start, [], start) && WalkCost(r, []) == 0.0;
    } else {
      assert Attached(ix, r, D, P, n);
      SettledHasWalk(ix, r, start, D, P, rank, P[n]);
      AttachedHasWalk(ix, r, start, D, P, n);
    }
  }

  lemma AttachedHasWalk(ix: Index, r: Rules, start: Id, D: map<Id, real>, P: map<Id, Id>, n: Id)
    requires Attached(ix, r, D, P, n) && HasWalkOfCost(ix, r, start, P[n], D[P[n]])
    ensures HasWalkOfCost(ix, r, start, n, D[n])
  {
    var w :| WalkTo(ix, r, start, w, P[n]) && WalkCost(r, w) == D[P[n]];
    var a :| Usable(ix, r, P[n], a) && a.node == n && D[n] == D[P[n]] + StepCost(r, a);
    WalkExtends(ix, r, start, w, a);
  }

  lemma LabelledHasWalk(ix: Index, r: Rules, start: Id, D: map<Id, real>, P: map<Id, Id>, rank: map<Id, nat>, n: Id)
    requires Grown(ix, r, start, D, P, rank) && n in D && start in rank
    ensures HasWalkOfCost(ix, r, start, n, D[n])
  {
    if n == start {
      SettledHasWalk(ix, r, start, D, P, rank, n);
    } else {
      assert Attached(ix, r, D, P, n);
      SettledHasWalk(ix, r, start, D, P, rank, P[n]);
      AttachedHasWalk(ix, r, start, D, P, n);
    }
  }

  /** Once every label is settled, walks stay among the labels. */
  lemma {:induction false} WalksStayLabelled(ix: Index, r: Rules, start: Id, D: map<Id, real>, w: seq<Adjacency>)
    requires start in D && Explored(ix, r, D.Keys, D)
    requires IsWalk(ix, r, start, w)
    ensures EndOf(start, w) in D
  {
    if w != [] {
      WalksStayLabelled(ix, r, start, D, w[..|w| - 1]);
    }
  }

  /** The cut argument: a walk is never cheaper than the label of a settled end,
      nor than every open label when it ends outside. */
  lemma {:induction false} WalksAreBounded(ix: Index, r: Rules, start: Id, settled: set<Id>, D: map<Id, real>, bound: real, w: seq<Adjacency>)
    requires NonNegative(ix, r) && Relaxed(ix, r, settled, D)
    requires start in settled && start in D && D[start] <= 0.0 && AtMost(settled, D, bound)
    requires forall n | n in D && n !in settled :: bound <= D[n]
    requires IsWalk(ix, r, start, w)
    ensures if EndOf(start, w) in settled then D[EndOf(start, w)] <= WalkCost(r, w) else bound <= WalkCost(r, w)
  {
    if w != [] {
      var front, a := w[..|w| - 1], w[|w| - 1];
      WalksAreBounded(ix, r, start, settled, D, bound, front);
      assert Usable(ix, r, EndOf(start, front), a);
      assert StepCost(r, a) >= 0.0;
    }
  }

  // ---------------------------------------------------------------------------
  // the engine
  // ---------------------------------------------------------------------------

  /** The legal steps out of a node. */
  function NeighborsOf(ix: Index, node: Id): (steps: seq<Adjacency>)
    ensures forall a :: a in steps <==> a in StepsOf(ix.adjacency, node) && LegalStep(ix, a)
  {
    Filter(StepsOf(ix.adjacency, node), a => LegalStep(ix, a))
  }

  ghost predicate ExploredFrom(ix: Index, r: Rules, u: Id, done: seq<Adjacency>, D: map<Id, real>) {
    forall a | a in done && Usable(ix, r, u, a) :: a.node in D
  }

  ghost predicate RelaxedFrom(ix: Index, r: Rules, u: Id, done: seq<Adjacency>, D: map<Id, real>) {
    u in D && forall a | a in done && Usable(ix, r, u, a) :: a.node in D && D[a.node] <= D[u] + StepCost(r, a)
  }

  lemma ImproveGrows(ix: Index, r: Rules, start: Id, D: map<Id, real>, P: map<Id, Id>, rank: map<Id, nat>, u: Id, a: Adjacency)
    requires Grown(ix, r, start, D, P, rank)
    requires u in rank && start in rank && a.node !in rank && Usable(ix, r, u, a)
    ensures Grown(ix, r, start, D[a.node := D[u] + StepCost(r, a)], P[a.node := u], rank)
  {
    var n := a.node;
    var D', P' := D[n := D[u] + StepCost(r, a)], P[n := u];
    forall m | m in D' && m != start ensures Attached(ix, r, D', P', m) && P'[m] in rank {
      if m != n {
        assert Attached(ix, r, D, P, m);
        var b :| Usable(ix, r, P[m], b) && b.node == m && D[m] == D[P[m]] + StepCost(r, b);
        assert Usable(ix, r, P'[m], b);
      }
    }
  }

  lemma ImproveHeaps(settled: set<Id>, D: map<Id, real>, frontier: multiset<QueueEntry>, n: Id, d: real)
    requires Heaped(settled, D, frontier) && (n in D ==> d < D[n])
    ensures Heaped(settled, D[n := d], frontier + multiset{QueueEntry(n, d)})
  {
  }

  lemma ImproveRelaxes(ix: Index, r: Rules, settled: set<Id>, D: map<Id, real>, n: Id, d: real)
    requires n !in settled && (n in D ==> d < D[n])
    ensures Explored(ix, r, settled, D) ==> Explored(ix, r, settled, D[n := d])
    ensures Relaxed(ix, r, settled, D) ==> Relaxed(ix, r, settled, D[n := d])
  {
  }

  /** The tentative labels and the heap. */
  datatype Labels = Labels(distances: map<Id, real>, predecessors: map<Id, Id>, frontier: multiset<QueueEntry>)

  /** One step out of the node being settled: keep the better label. */
  function RelaxStep(r: Rules, current: QueueEntry, visited: set<Id>, l: Labels, a: Adjacency): Labels {
    var d := current.distance + StepCost(r, a);
    if a.node in visited || r.skips(a.edge) || (a.node in l.distances && l.distances[a.node] <= d) then l
    else Labels(l.distances[a.node := d], l.predecessors[a.node := current.node], l.frontier + multiset{QueueEntry(a.node, d)})
  }

  function RelaxAll(r: Rules, current: QueueEntry, visited: set<Id>, l: Labels, steps: seq<Adjacency>): Labels {
    if steps == [] then l
    else RelaxStep(r, current, visited, RelaxAll(r, current, visited, l, steps[..|steps| - 1]), steps[|steps| - 1])
  }

  lemma RelaxNext(r: Rules, current: QueueEntry, visited: set<Id>, l: Labels, steps: seq<Adjacency>, i: nat)
    requires i < |steps|
    ensures RelaxAll(r, current, visited, l, steps[..i + 1]) == RelaxStep(r, current, visited, RelaxAll(r, current, visited, l, steps[..i]), steps[i])
  {
    assert steps[..i + 1][..i] == steps[..i];
  }

  /** Tries every step out of a node just settled. */
  method RelaxSteps(r: Rules, current: QueueEntry, visited: set<Id>, labels: Labels, steps: seq<Adjacency>) returns (l: Labels)
    ensures l == RelaxAll(r, current, visited, labels, steps)
  {
    l := labels;
    for i := 0 to |steps|
      invariant l == RelaxAll(r, current, visited, labels, steps[..i])
    {
      var a := steps[i];
      RelaxNext(r, current, visited, labels, steps, i);
      if a.node in visited {
        continue;
      }
      if r.skips(a.edge) {
        continue;
      }
      var newDistance := current.distance + a.weight + r.extra(a.edge);
      if a.node !in l.distances || newDistance < l.distances[a.node] {
        l := Labels(l.distances[a.node := newDistance], l.predecessors[a.node := current.node],
                    l.frontier + multiset{QueueEntry(a.node, newDistance)});
      }
    }
    assert steps[..|steps|] == steps;
  }

  /** Between two steps out of the settled node `u`. */
  ghost predicate Midway(ix: Index, r: Rules, start: Id, rank: map<Id, nat>, u: Id, done: seq<Adjacency>, l: Labels) {
    && start in rank && u in rank
    && Grown(ix, r, start, l.distances, l.predecessors, rank) && Heaped(rank.Keys, l.distances, l.frontier)
    && Explored(ix, r, rank.Keys - {u}, l.distances) && ExploredFrom(ix, r, u, done, l.distances)
  }

  ghost predicate MidwayPriced(ix: Index, r: Rules, settled: set<Id>, u: Id, done: seq<Adjacency>, l: Labels) {
    && u in l.distances && AtMost(settled, l.distances, l.distances[u]) && AtLeast(l.frontier, l.distances[u])
    && Relaxed(ix, r, settled - {u}, l.distances) && RelaxedFrom(ix, r, u, done, l.distances)
  }

  lemma StepTaken(ix: Index, r: Rules, start: Id, rank: map<Id, nat>, current: QueueEntry, l: Labels, a: Adjacency)
    requires Midway(ix, r, start, rank, current.node, [], l)
    requires l.distances[current.node] == current.distance
    requires Usable(ix, r, current.node, a) && RelaxStep(r, current, rank.Keys, l, a) != l
    ensures
      var l' := RelaxStep(r, current, rank.Keys, l, a);
      && Grown(ix, r, start, l'.distances, l'.predecessors, rank)
      && Heaped(rank.Keys, l'.distances, l'.frontier)
      && Explored(ix, r, rank.Keys - {current.node}, l'.distances)
  {
    var d := current.distance + StepCost(r, a);
    ImproveGrows(ix, r, start, l.distances, l.predecessors, rank, current.node, a);
    ImproveHeaps(rank.Keys, l.distances, l.frontier, a.node, d);
    ImproveRelaxes(ix, r, rank.Keys - {current.node}, l.distances, a.node, d);
  }

  lemma StepExplores(ix: Index, r: Rules, current: QueueEntry, settled: set<Id>, done: seq<Adjacency>, l: Labels, a: Adjacency)
    requires ExploredFrom(ix, r, current.node, done, l.distances) && settled <= l.distances.Keys
    ensures ExploredFrom(ix, r, current.node, done + [a], RelaxStep(r, current, settled, l, a).distances)
  {
  }

  lemma RelaxStepGrows(ix: Index, r: Rules, start: Id, rank: map<Id, nat>, current: QueueEntry, done: seq<Adjacency>, l: Labels, a: Adjacency)
    requires Midway(ix, r, start, rank, current.node, done, l)
    requires l.distances[current.node] == current.distance
    requires a in StepsOf(ix.adjacency, current.node) && LegalStep(ix, a)
    ensures Midway(ix, r, start, rank, current.node, done + [a], RelaxStep(r, current, rank.Keys, l, a))
    ensures RelaxStep(r, current, rank.Keys, l, a).distances[current.node] == current.distance
  {
    StepExplores(ix, r, current, rank.Keys, done, l, a);
    if RelaxStep(r, current, rank.Keys, l, a) != l {
      StepTaken(ix, r, start, rank, current, l, a);
    }
  }

  lemma RelaxStepPrices(ix: Index, r: Rules, settled: set<Id>, current: QueueEntry, done: seq<Adjacency>, l: Labels, a: Adjacency)
    requires NonNegative(ix, r) && current.node in settled
    requires MidwayPriced(ix, r, settled, current.node, done, l)
    requires l.distances[current.node] == current.distance
    requires a in StepsOf(ix.adjacency, current.node) && LegalStep(ix, a)
    ensures MidwayPriced(ix, r, settled, current.node, done + [a], RelaxStep(r, current, settled, l, a))
    ensures RelaxStep(r, current, settled, l, a).distances[current.node] == current.distance
  {
    if RelaxStep(r, current, settled, l, a) != l {
      ImproveRelaxes(ix, r, settled - {current.node}, l.distances, a.node, current.distance + StepCost(r, a));
    }
  }

  /** Relaxing keeps the tree, and labels what the tried steps lead to. */
  lemma {:induction false} RelaxAllGrows(ix: Index, r: Rules, start: Id, rank: map<Id, nat>, current: QueueEntry, l: Labels, steps: seq<Adjacency>)
    requires Midway(ix, r, start, rank, current.node, [], l)
    requires l.distances[current.node] == current.distance
    requires forall a | a in steps :: a in StepsOf(ix.adjacency, current.node) && LegalStep(ix, a)
    ensures Midway(ix, r, start, rank, current.node, steps, RelaxAll(r, current, rank.Keys, l, steps))
    ensures RelaxAll(r, current, rank.Keys, l, steps).distances[current.node] == current.distance
  {
    if steps != [] {
      var front, a := steps[..|steps| - 1], steps[|steps| - 1];
      assert steps == front + [a] && a in steps;
      RelaxAllGrows(ix, r, start, rank, current, l, front);
      RelaxStepGrows(ix, r, start, rank, current, front, RelaxAll(r, current, rank.Keys, l, front), a);
    }
  }

  /** Under non-negative costs no tried step can improve a label any more. */
  lemma {:induction false} RelaxAllPrices(ix: Index, r: Rules, settled: set<Id>, current: QueueEntry, l: Labels, steps: seq<Adjacency>)
    requires NonNegative(ix, r) && current.node in settled
    requires MidwayPriced(ix, r, settled, current.node, [], l)
    requires l.distances[current.node] == current.distance
    requires forall a | a in steps :: a in StepsOf(ix.adjacency, current.node) && LegalStep(ix, a)
    ensures MidwayPriced(ix, r, settled, current.node, steps, RelaxAll(r, current, settled, l, steps))
    ensures RelaxAll(r, current, settled, l, steps).distances[current.node] == current.distance
  {
    if steps != [] {
      var front, a := steps[..|steps| - 1], steps[|steps| - 1];
      assert steps == front + [a] && a in steps;
      RelaxAllPrices(ix, r, settled, current, l, front);
      RelaxStepPrices(ix, r, settled, current, front, RelaxAll(r, current, settled, l, front), a);
    }
  }

  // ---------------------------------------------------------------------------
  // the main loop
  // ---------------------------------------------------------------------------

  lemma {:induction false} MinimumExists(frontier: multiset<QueueEntry>)
    requires frontier != multiset{}
    ensures exists e | e in frontier :: AtLeast(frontier, e.distance)
    decreases |frontier|
  {
    var x :| x in frontier;
    var rest := frontier - multiset{x};
    if rest == multiset{} {
      assert frontier == multiset{x};
      assert AtLeast(frontier, x.distance);
    } else {
      MinimumExists(rest);
      var m :| m in rest && AtLeast(rest, m.distance);
      assert forall e | e in frontier :: e == x || e in rest;
      assert AtLeast(frontier, if x.distance < m.distance then x.distance else m.distance);
    }
  }

  /** The heap gives up a least entry; which one, among equals, is its own
      business. */
  method PopMinimum(frontier: multiset<QueueEntry>) returns (e: QueueEntry)
    requires frontier != multiset{}
    ensures e in frontier && AtLeast(frontier, e.distance)
  {
    MinimumExists(frontier);
    e :| e in frontier && forall f | f in frontier :: e.distance <= f.distance;
  }

  /** Between two pops: `rank` orders the settled nodes, `clock` is past it. */
  ghost predicate Searching(ix: Index, r: Rules, start: Id, rank: map<Id, nat>, clock: nat, l: Labels) {
    && (forall n | n in rank :: start in rank && rank[n] < clock)
    && Grown(ix, r, start, l.distances, l.predecessors, rank)
    && Heaped(rank.Keys, l.distances, l.frontier)
    && Explored(ix, r, rank.Keys, l.distances)
  }

  ghost predicate Priced(ix: Index, r: Rules, settled: set<Id>, l: Labels, bound: real) {
    && Relaxed(ix, r, settled, l.distances)
    && AtMost(settled, l.distances, bound) && AtLeast(l.frontier, bound)
  }

  function Without(l: Labels, e: QueueEntry): Labels {
    l.(frontier := l.frontier - multiset{e})
  }

  lemma DropStale(ix: Index, r: Rules, start: Id, rank: map<Id, nat>, clock: nat, l: Labels, e: QueueEntry)
    requires Searching(ix, r, start, rank, clock, l) && e.node in rank
    ensures Searching(ix, r, start, rank, clock, Without(l, e))
  {
  }

  /** The first pop of a node carries its current label, and settles it. */
  lemma SettleFresh(ix: Index, r: Rules, start: Id, rank: map<Id, nat>, clock: nat, l: Labels, e: QueueEntry)
    requires Searching(ix, r, start, rank, clock, l)
    requires e in l.frontier && AtLeast(l.frontier, e.distance) && e.node !in rank
    ensures e.node in l.distances && l.distances[e.node] == e.distance
    ensures Midway(ix, r, start, rank[e.node := clock], e.node, [], Without(l, e))
  {
    assert QueueEntry(e.node, l.distances[e.node]) in l.frontier;
    assert rank[e.node := clock].Keys - {e.node} == rank.Keys;
    SettleGrows(ix, r, start, l.distances, l.predecessors, rank, e.node, clock);
  }

  lemma SettleGrows(ix: Index, r: Rules, start: Id, D: map<Id, real>, P: map<Id, Id>, rank: map<Id, nat>, u: Id, clock: nat)
    requires Grown(ix, r, start, D, P, rank)
    requires u in D && u !in rank && forall n | n in rank :: start in rank && rank[n] < clock
    ensures Grown(ix, r, start, D, P, rank[u := clock])
    ensures start in rank[u := clock]
  {
    assert u != start ==> Attached(ix, r, D, P, u) && P[u] in rank;
    forall n | n in rank[u := clock] && n != start
      ensures n in P && P[n] in rank[u := clock] && rank[u := clock][P[n]] < rank[u := clock][n]
    {
      assert Attached(ix, r, D, P, n);
    }
  }

  lemma SettlePrices(ix: Index, r: Rules, settled: set<Id>, l: Labels, bound: real, e: QueueEntry)
    requires Priced(ix, r, settled, l, bound)
    requires e in l.frontier && AtLeast(l.frontier, e.distance) && e.node !in settled
    requires e.node in l.distances && l.distances[e.node] == e.distance
    ensures MidwayPriced(ix, r, settled + {e.node}, e.node, [], Without(l, e))
  {
    assert settled + {e.node} - {e.node} == settled;
  }

  lemma FinishNode(ix: Index, r: Rules, start: Id, rank: map<Id, nat>, clock: nat, u: Id, l: Labels)
    requires forall n | n in rank :: rank[n] < clock
    requires Midway(ix, r, start, rank, u, NeighborsOf(ix, u), l)
    ensures Searching(ix, r, start, rank, clock, l)
  {
  }

  lemma FinishPrices(ix: Index, r: Rules, settled: set<Id>, u: Id, l: Labels)
    requires u in settled && MidwayPriced(ix, r, settled, u, NeighborsOf(ix, u), l)
    ensures Priced(ix, r, settled, l, l.distances[u])
  {
  }

  /** One whole iteration on a fresh node. */
  lemma SettleAndRelax(ix: Index, r: Rules, start: Id, rank: map<Id, nat>, clock: nat, l: Labels, e: QueueEntry)
    requires Searching(ix, r, start, rank, clock, l)
    requires e in l.frontier && AtLeast(l.frontier, e.distance) && e.node !in rank
    ensures Searching(ix, r, start, rank[e.node := clock], clock + 1,
                      RelaxAll(r, e, rank.Keys + {e.node}, Without(l, e), NeighborsOf(ix, e.node)))
  {
    SettleFresh(ix, r, start, rank, clock, l, e);
    var rank' := rank[e.node := clock];
    assert rank'.Keys == rank.Keys + {e.node};
    RelaxAllGrows(ix, r, start, rank', e, Without(l, e), NeighborsOf(ix, e.node));
    FinishNode(ix, r, start, rank', clock + 1, e.node, RelaxAll(r, e, rank'.Keys, Without(l, e), NeighborsOf(ix, e.node)));
  }

  lemma SettleAndRelaxPrices(ix: Index, r: Rules, settled: set<Id>, l: Labels, bound: real, e: QueueEntry)
    requires NonNegative(ix, r) && Priced(ix, r, settled, l, bound)
    requires e in l.frontier && AtLeast(l.frontier, e.distance) && e.node !in settled
    requires e.node in l.distances && l.distances[e.node] == e.distance
    ensures Priced(ix, r, settled + {e.node}, RelaxAll(r, e, settled + {e.node}, Without(l, e), NeighborsOf(ix, e.node)), e.distance)
  {
    SettlePrices(ix, r, settled, l, bound, e);
    RelaxAllPrices(ix, r, settled + {e.node}, e, Without(l, e), NeighborsOf(ix, e.node));
    FinishPrices(ix, r, settled + {e.node}, e.node, RelaxAll(r, e, settled + {e.node}, Without(l, e), NeighborsOf(ix, e.node)));
  }

  /** Every node a search can label. */
  ghost function Universe(ix: Index, start: Id): set<Id> {
    {start} + set n, a | n in ix.adjacency && a in ix.adjacency[n] :: a.node
  }

  lemma LabelsLie(ix: Index, r: Rules, start: Id, rank: map<Id, nat>, clock: nat, l: Labels, n: Id)
    requires Searching(ix, r, start, rank, clock, l) && n in l.distances
    ensures n in Universe(ix, start)
  {
    if n != start {
      assert Attached(ix, r, l.distances, l.predecessors, n);
      var a :| Usable(ix, r, l.predecessors[n], a) && a.node == n;
    }
  }

  /** A search that came back with the goal: the settled nodes form a tree of
      usable steps, and their labels are least when costs are non-negative. */
  ghost predicate Settled(ix: Index, r: Rules, start: Id, goal: Id, s: SearchState, rank: map<Id, nat>) {
    && start in rank && goal in rank && goal in s.distances && s.distance == Some(s.distances[goal])
    && Grown(ix, r, start, s.distances, s.predecessors, rank)
    && (NonNegative(ix, r) ==> ShortestLabels(ix, r, start, s.distances, rank.Keys))
  }

  ghost predicate ShortestLabels(ix: Index, r: Rules, start: Id, D: map<Id, real>, settled: set<Id>) {
    forall n | n in settled :: n in D && IsShortest(ix, r, start, n, D[n])
  }

  /** A search that ran dry labelled exactly what can be reached. */
  ghost predicate Exhausted(ix: Index, r: Rules, start: Id, s: SearchState) {
    forall n :: n in s.distances <==> Reachable(ix, r, start, n)
  }

  lemma SettledLabelsAreShortest(ix: Index, r: Rules, start: Id, rank: map<Id, nat>, clock: nat, l: Labels, bound: real, e: QueueEntry)
    requires NonNegative(ix, r) && Searching(ix, r, start, rank, clock, l) && Priced(ix, r, rank.Keys, l, bound)
    requires e in l.frontier && AtLeast(l.frontier, e.distance) && e.node !in rank && e.node != start
    ensures ShortestLabels(ix, r, start, l.distances, rank.Keys + {e.node})
  {
    SettleFresh(ix, r, start, rank, clock, l, e);
    var D := l.distances;
    forall n | n in rank.Keys + {e.node} ensures IsShortest(ix, r, start, n, D[n]) {
      LabelledHasWalk(ix, r, start, D, l.predecessors, rank, n);
      forall w | WalkTo(ix, r, start, w, n) ensures D[n] <= WalkCost(r, w) {
        WalksAreBounded(ix, r, start, rank.Keys, D, e.distance, w);
      }
    }
  }

  lemma GoalReached(ix: Index, r: Rules, start: Id, rank: map<Id, nat>, clock: nat, l: Labels, bound: real, e: QueueEntry)
    requires Searching(ix, r, start, rank, clock, l)
    requires NonNegative(ix, r) ==> Priced(ix, r, rank.Keys, l, bound)
    requires e in l.frontier && AtLeast(l.frontier, e.distance) && e.node !in rank && e.node != start
    ensures Settled(ix, r, start, e.node, SearchState(true, Some(e.distance), l.distances, l.predecessors), rank[e.node := clock])
    ensures Reachable(ix, r, start, e.node)
  {
    SettleFresh(ix, r, start, rank, clock, l, e);
    LabelledHasWalk(ix, r, start, l.distances, l.predecessors, rank[e.node := clock], e.node);
    if NonNegative(ix, r) {
      SettledLabelsAreShortest(ix, r, start, rank, clock, l, bound, e);
      assert rank[e.node := clock].Keys == rank.Keys + {e.node};
    }
  }

  lemma RanDry(ix: Index, r: Rules, start: Id, rank: map<Id, nat>, clock: nat, l: Labels)
    requires Searching(ix, r, start, rank, clock, l) && l.frontier == multiset{}
    ensures forall n :: n in l.distances <==> Reachable(ix, r, start, n)
    ensures l.distances.Keys == rank.Keys
  {
    var D := l.distances;
    assert D.Keys == rank.Keys;
    forall n | n in D ensures Reachable(ix, r, start, n) {
      LabelledHasWalk(ix, r, start, D, l.predecessors, rank, n);
    }
    forall n | Reachable(ix, r, start, n) ensures n in D {
      var w :| WalkTo(ix, r, start, w, n);
      WalksStayLabelled(ix, r, start, D, w);
    }
  }

  lemma {:induction false} WalkCostIsNonNegative(ix: Index, r: Rules, from: Id, w: seq<Adjacency>)
    requires NonNegative(ix, r) && IsWalk(ix, r, from, w)
    ensures WalkCost(r, w) >= 0.0
  {
    if w != [] {
      WalkCostIsNonNegative(ix, r, from, w[..|w| - 1]);
      assert Usable(ix, r, EndOf(from, w[..|w| - 1]), w[|w| - 1]);
    }
  }

  lemma AlreadyThere(ix: Index, r: Rules, start: Id)
    ensures Settled(ix, r, start, start, SearchState(true, Some(0.0), map[start := 0.0], map[]), map[start := 0])
    ensures Reachable(ix, r, start, start)
  {
    assert WalkTo(ix, r, start, [], start) && WalkCost(r, []) == 0.0;
    if NonNegative(ix, r) {
      forall w | WalkTo(ix, r, start, w, start) ensures 0.0 <= WalkCost(r, w) {
        WalkCostIsNonNegative(ix, r, start, w);
      }
    }
  }

  const NOTHING_FOUND: SearchState := SearchState(false, None, map[], map[])

  /** What the main loop keeps. */
  ghost predicate Running(ix: Index, r: Rules, start: Id, goal: Id, visited: set<Id>, l: Labels,
                          rank: map<Id, nat>, clock: nat, bound: real) {
    && rank.Keys == visited && goal !in visited
    && Searching(ix, r, start, rank, clock, l)
    && (NonNegative(ix, r) ==> Priced(ix, r, visited, l, bound))
  }

  lemma RunningStarts(ix: Index, r: Rules, start: Id, goal: Id)
    ensures Running(ix, r, start, goal, {}, Labels(map[start := 0.0], map[], multiset{QueueEntry(start, 0.0)}), map[], 0, 0.0)
  {
  }

  lemma RunningDrops(ix: Index, r: Rules, start: Id, goal: Id, visited: set<Id>, l: Labels,
                     rank: map<Id, nat>, clock: nat, bound: real, e: QueueEntry)
    requires Running(ix, r, start, goal, visited, l, rank, clock, bound) && e.node in visited
    ensures Running(ix, r, start, goal, visited, Without(l, e), rank, clock, bound)
  {
    DropStale(ix, r, start, rank, clock, l, e);
  }

  lemma RunningSettles(ix: Index, r: Rules, start: Id, goal: Id, visited: set<Id>, l: Labels,
                       rank: map<Id, nat>, clock: nat, bound: real, e: QueueEntry)
    requires Running(ix, r, start, goal, visited, l, rank, clock, bound)
    requires e in l.frontier && AtLeast(l.frontier, e.distance) && e.node !in visited && e.node != goal
    ensures Running(ix, r, start, goal, visited + {e.node},
                    RelaxAll(r, e, visited + {e.node}, Without(l, e), NeighborsOf(ix, e.node)),
                    rank[e.node := clock], clock + 1, e.distance)
    ensures e.node in Universe(ix, start)
  {
    assert rank[e.node := clock].Keys == visited + {e.node};
    SettleFresh(ix, r, start, rank, clock, l, e);
    LabelsLie(ix, r, start, rank, clock, l, e.node);
    SettleAndRelax(ix, r, start, rank, clock, l, e);
    if NonNegative(ix, r) {
      SettleAndRelaxPrices(ix, r, visited, l, bound, e);
    }
  }

  /** The search between two different nodes. */
  method Search(ix: Index, r: Rules, start: Id, goal: Id) returns (s: SearchState, ghost rank: map<Id, nat>)
    requires start != goal
    ensures if s.found then Settled(ix, r, start, goal, s, rank) else s.distance.None? && Exhausted(ix, r, start, s)
    ensures s.found <==> Reachable(ix, r, start, goal)
  {
    rank := map[];
    var visited: set<Id> := {};
    var l := Labels(map[start := 0.0], map[], multiset{QueueEntry(start, 0.0)});
    ghost var clock, bound := 0, 0.0;
    RunningStarts(ix, r, start, goal);
    while l.frontier != multiset{}
      invariant Running(ix, r, start, goal, visited, l, rank, clock, bound)
      decreases Universe(ix, start) - visited, l.frontier
    {
      var current := PopMinimum(l.frontier);
      if current.node in visited {
        RunningDrops(ix, r, start, goal, visited, l, rank, clock, bound, current);
        l := Without(l, current);
        continue;
      }
      if current.node == goal {
        GoalReached(ix, r, start, rank, clock, l, bound, current);
        return SearchState(true, Some(current.distance), l.distances, l.predecessors), rank[goal := clock];
      }
      RunningSettles(ix, r, start, goal, visited, l, rank, clock, bound, current);
      visited := visited + {current.node};
      l := RelaxSteps(r, current, visited, Without(l, current), NeighborsOf(ix, current.node));
      rank := rank[current.node := clock];
      clock, bound := clock + 1, current.distance;
    }
    RanDry(ix, r, start, rank, clock, l);
    return SearchState(false, None, l.distances, l.predecessors), rank;
  }

  /** Dijkstra's search with lazy deletion. It finds the goal exactly when some
      usable walk leads there, whatever the costs; with non-negative costs the
      distance is the least total over all such walks. `rank` is the order in
      which nodes were settled. */
  method Dijkstra(ix: Index, r: Rules, start: Id, goal: Id) returns (s: SearchState, ghost rank: map<Id, nat>)
    ensures s.found <==> start in ix.nodes && goal in ix.nodes && Reachable(ix, r, start, goal)
    ensures s.found ==> Settled(ix, r, start, goal, s, rank)
    ensures !s.found ==> s.distance.None?
    ensures start !in ix.nodes || goal !in ix.nodes ==> s == NOTHING_FOUND
    ensures !s.found && start in ix.nodes && goal in ix.nodes ==> Exhausted(ix, r, start, s)
  {
    if start !in ix.nodes || goal !in ix.nodes {
      return NOTHING_FOUND, map[];
    }
    if start == goal {
      AlreadyThere(ix, r, start);
      return SearchState(true, Some(0.0), map[start := 0.0], map[]), map[start := 0];
    }
    s, rank := Search(ix, r, start, goal);
  }
}
