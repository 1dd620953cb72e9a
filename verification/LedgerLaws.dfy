/** Laws of the ledger beside safety: ids, duplicates, what a release can and
    cannot do to a decision, and when a robot may re-claim what it holds. */
module LedgerLaws {
  import opened Basics
  import opened Workspace
  import opened Claims
  import opened Compatibility
  import opened Ledgers
  import opened LedgerSafety
  import opened LedgerRuns
  import opened RunSafety
  import IndexBuild
  import ZoneTree

  // ---------------------------------------------------------------------------
  // minted ids over a run
  // ---------------------------------------------------------------------------

  /** The ids a run mints, in order. A claim mints one even when it is refused. */
  function Mints(sys: System, ops: seq<Op>): (ids: seq<u64>)
    decreases |ops|
  {
    if ops == [] then []
    else (if ops[0].AcquireOp? then [MintedId(sys.ledger)] else []) + Mints(Step(sys, ops[0]), ops[1..])
  }

  lemma StepKeepsCounter(sys: System, op: Op)
    ensures Step(sys, op).ledger.nextId >= sys.ledger.nextId
    ensures op.AcquireOp? ==>
              Step(sys, op).ledger.nextId == SaturatingAdd(MintedId(sys.ledger), 1)
  {
  }

  /** Across refusals, releases, restarts, clears and rebinds, minted ids strictly
      increase until one reaches the top of the range. */
  lemma {:induction false} MintsIncrease(sys: System, ops: seq<Op>)
    ensures forall i :: 0 <= i < |Mints(sys, ops)| ==> Mints(sys, ops)[i] >= sys.ledger.nextId
    ensures forall i, j :: 0 <= i < j < |Mints(sys, ops)| ==>
              Mints(sys, ops)[i] < Mints(sys, ops)[j] || Mints(sys, ops)[i] == U64_MAX
    decreases |ops|
  {
    if ops != [] {
      StepKeepsCounter(sys, ops[0]);
      MintsIncrease(Step(sys, ops[0]), ops[1..]);
    }
  }

  // ---------------------------------------------------------------------------
  // no duplicates
  // ---------------------------------------------------------------------------

  predicate SameClaim(a: Request, b: Request) {
    a.robot == b.robot && SameTargetSet(a.targets, b.targets)
  }

  ghost predicate Apart(a: Request, b: Request) {
    a.id != b.id && !SameClaim(a, b)
  }

  /** Live ids are distinct and behind the counter, and no robot has two entries
      over the same targets. */
  ghost predicate Tidy(s: Ledger) {
    && Pairwise(s.requests, Apart)
    && forall r | r in s.requests :: r.id < s.nextId || r.id == U64_MAX
  }

  lemma UpsertKeepsApart(requests: seq<Request>, q: Request)
    requires Pairwise(requests, Apart)
    requires forall r | r in requests :: r.id != q.id
    ensures Pairwise(UpsertForRobot(requests, q), Apart)
  {
    var same := (a: Request) => a.robot == q.robot && SameTargetSet(a.targets, q.targets);
    var i, after := FirstIndex(requests, same), UpsertForRobot(requests, q);
    if i < |requests| {
      forall j | 0 <= j < |requests| && j != i ensures Apart(requests[j], q) && Apart(q, requests[j]) {
        assert requests[j] in requests && requests[i] in requests;
        assert same(requests[i]);
        assert j < i ==> Apart(requests[j], requests[i]);
        assert i < j ==> Apart(requests[i], requests[j]);
      }
    } else {
      forall j | 0 <= j < |requests| ensures Apart(requests[j], q) {
        assert requests[j] in requests && !same(requests[j]);
      }
    }
  }

  lemma AcquireKeepsTidy(index: Option<Index>, s: Ledger, q: Request)
    requires IdsRemain(s)
    requires Tidy(s)
    ensures Tidy(Acquire(index, s, q))
  {
    var claim := q.(id := MintedId(s));
    MintIsUnusedByRequestsExactly(s);
    UpsertKeepsApart(s.requests, claim);
    UpsertHolds(s.requests, claim);
  }

  lemma FilterKeepsTidy(s: Ledger, keep: Request -> bool)
    requires Tidy(s)
    ensures Tidy(s.(requests := Filter(s.requests, keep)))
  {
    FilterKeepsPairwise(s.requests, keep, Apart);
  }

  lemma RemoveKeepsTidy(s: Ledger, goes: Request -> bool)
    requires Tidy(s)
    ensures Tidy(s.(requests := RemoveFirst(s.requests, goes)))
  {
  }

  lemma StepKeepsTidy(sys: System, op: Op)
    requires Allowed(sys, op)
    requires Tidy(sys.ledger)
    ensures Tidy(Step(sys, op).ledger)
  {
    var s := sys.ledger;
    match op {
      case AcquireOp(q) =>
        AcquireKeepsTidy(sys.index, s, q);
      case RemoveRobotOp(robot) =>
        FilterKeepsTidy(s, (r: Request) => r.robot != robot);
      case ExpireRequestsOp(now) =>
        FilterKeepsTidy(s, (r: Request) => !RequestEnded(r, now));
      case RemoveRequestOp(id) =>
        RemoveKeepsTidy(s, (r: Request) => r.id == id);
      case ReleaseTargetOp(robot, resource) =>
        RemoveKeepsTidy(s, (r: Request) => r.robot == robot && exists t | t in r.targets :: t.resource == resource);
      case _ =>
    }
  }

  lemma UpsertHolds(requests: seq<Request>, q: Request)
    ensures forall r | r in UpsertForRobot(requests, q) :: r == q || r in requests
  {
  }

  /** Tidiness survives every run. */
  lemma {:induction false} TidyOverEveryRun(sys: System, ops: seq<Op>)
    requires AllowedRun(sys, ops)
    requires Tidy(sys.ledger)
    ensures Tidy(Run(sys, ops).ledger)
    decreases |ops|
  {
    if ops != [] {
      StepKeepsTidy(sys, ops[0]);
      TidyOverEveryRun(Step(sys, ops[0]), ops[1..]);
    }
  }

  /** Re-claiming the same ground replaces the entry; it never grows the ledger. */
  lemma ReclaimingNeverGrows(index: Option<Index>, s: Ledger, q: Request, held: Request)
    requires held in s.requests && SameClaim(held, q)
    ensures |Acquire(index, s, q).requests| == |s.requests|
  {
    var claim := q.(id := MintedId(s));
    var i := FirstIndex(s.requests, (a: Request) => a.robot == claim.robot && SameTargetSet(a.targets, claim.targets));
    assert i < |s.requests| by {
      var j :| 0 <= j < |s.requests| && s.requests[j] == held;
    }
  }

  /** A granted claim takes the place of the robot's entry over the same set of
      resources, whatever their order; otherwise the ledger grows by one. */
  lemma GrantedClaimsReplaceExactly(index: Option<Index>, s: Ledger, q: Request)
    requires Grants(index, AfterMint(s), q.(id := MintedId(s)))
    ensures
      var known := exists r | r in s.requests :: r.robot == q.robot && ToSet(r.targets) == ToSet(q.targets);
      |Acquire(index, s, q).requests| == |s.requests| + if known then 0 else 1
  {
    var claim := q.(id := MintedId(s));
    var i := FirstIndex(s.requests, (a: Request) => a.robot == claim.robot && SameTargetSet(a.targets, claim.targets));
    forall r | r in s.requests ensures SameTargetSet(r.targets, q.targets) <==> ToSet(r.targets) == ToSet(q.targets) {
      SameSetOfTargets(r.targets, q.targets);
    }
    if r :| r in s.requests && r.robot == q.robot && ToSet(r.targets) == ToSet(q.targets) {
      var j :| 0 <= j < |s.requests| && s.requests[j] == r;
      assert i < |s.requests|;
    }
    if i < |s.requests| {
      assert s.requests[i] in s.requests;
    }
  }

  /** A promoted lease takes the place of the first one with its id, and is added
      exactly when there is none. */
  lemma LeasesReplaceExactly(leases: seq<Lease>, lease: Lease)
    ensures (forall l | l in leases :: l.id != lease.id) ==> UpsertLease(leases, lease) == leases + [lease]
    ensures forall i | 0 <= i < |leases| && leases[i].id == lease.id ::
              (forall j | 0 <= j < i :: leases[j].id != lease.id) ==> UpsertLease(leases, lease) == leases[i := lease]
  {
    var i := FirstIndex(leases, (l: Lease) => l.id == lease.id);
    if i < |leases| {
      assert leases[i] in leases;
    }
  }

  /** The first entry with an id is the one an operation on that id is about. */
  lemma FirstIsFound<T>(s: seq<T>, p: T -> bool, i: nat)
    requires i < |s| && p(s[i]) && forall j | 0 <= j < i :: !p(s[j])
    ensures FirstIndex(s, p) == i
  {
  }

  predicate IsFirstLease(leases: seq<Lease>, id: u64, i: nat) {
    i < |leases| && leases[i].id == id && forall j | 0 <= j < i :: leases[j].id != id
  }

  /** Releasing, revoking, refreshing or dropping a lease is about the first with the
      id and leaves every other entry in its place. */
  lemma OneLeaseIsTouched(s: Ledger, id: u64, i: nat, at: u64, expires: Option<u64>, reason: string)
    requires IsFirstLease(s.leases, id, i)
    ensures
      var lease, others := s.leases[i], s.leases[..i] + s.leases[i + 1..];
      var released := lease.(active := false, disposition := Released, releasedAt := expires);
      var revoked := lease.(active := false, disposition := Revoked, releasedAt := Some(at), revokedAt := Some(at), revokeReason := Some(reason));
      var refreshed := lease.(refreshedAt := Some(at), expiresAt := if expires.Some? then expires else lease.expiresAt);
      && Ledgers.ReleaseLease(s, id, expires) == s.(leases := others, released := s.released + [released])
      && Ledgers.RevokeLease(s, id, reason, at) == s.(leases := others, released := s.released + [revoked])
      && Ledgers.RefreshLease(s, id, at, expires) == s.(leases := s.leases[..i] + [refreshed] + s.leases[i + 1..])
      && Ledgers.RemoveLease(s, id) == s.(leases := others)
  {
    FirstIsFound(s.leases, (l: Lease) => l.id == id, i);
  }

  /** Removing a request by its id, or by a robot and one of its resources, drops the
      first such request and leaves the rest in order. */
  lemma OneRequestIsDropped(s: Ledger, id: u64, robot: u64, resource: Id, i: nat)
    requires i < |s.requests|
    ensures s.requests[i].id == id && (forall j | 0 <= j < i :: s.requests[j].id != id) ==>
              Ledgers.RemoveRequest(s, id) == s.(requests := s.requests[..i] + s.requests[i + 1..])
    ensures s.requests[i].robot == robot && Names(s.requests[i], resource)
            && (forall j | 0 <= j < i :: s.requests[j].robot != robot || !Names(s.requests[j], resource)) ==>
              Ledgers.ReleaseTarget(s, robot, resource) == s.(requests := s.requests[..i] + s.requests[i + 1..])
  {
    var byId := (r: Request) => r.id == id;
    var byTarget := (r: Request) => r.robot == robot && exists t | t in r.targets :: t.resource == resource;
    if byId(s.requests[i]) && forall j | 0 <= j < i :: s.requests[j].id != id {
      FirstIsFound(s.requests, byId, i);
    }
    if byTarget(s.requests[i]) && forall j | 0 <= j < i :: !byTarget(s.requests[j]) {
      FirstIsFound(s.requests, byTarget, i);
    }
  }

  predicate Names(r: Request, resource: Id) {
    exists t | t in r.targets :: t.resource == resource
  }

  lemma SameSetOfTargets(lhs: seq<Target>, rhs: seq<Target>)
    ensures SameTargetSet(lhs, rhs) <==> ToSet(lhs) == ToSet(rhs)
  {
    if ToSet(lhs) == ToSet(rhs) {
      forall t | t in lhs ensures t in rhs {
        assert t in ToSet(rhs);
      }
      forall t | t in rhs ensures t in lhs {
        assert t in ToSet(lhs);
      }
    }
  }

  // ---------------------------------------------------------------------------
  // who can refuse a claim
  // ---------------------------------------------------------------------------

  /** The entries of other robots, under other ids, and of those the leases that
      are active. */
  function OthersEntries(s: Ledger, q: Request): Ledger {
    s.(requests := Filter(s.requests, (r: Request) => r.robot != q.robot && r.id != q.id),
       leases := Filter(s.leases, (l: Lease) => l.robot != q.robot && l.active))
  }

  lemma SameRivalsSameCounts(ix: Index, s: Ledger, t: Ledger, q: Request)
    requires forall r | Rival(r, q) && WindowsOverlap(q.window, r.window) :: r in s.requests <==> r in t.requests
    requires forall l | RivalLease(l, q) && WindowsOverlap(q.window, l.Held().window) :: l in s.leases <==> l in t.leases
    ensures EdgesWithinCapacity(ix, s, q) <==> EdgesWithinCapacity(ix, t, q)
    ensures ZonesWithinLimit(ix, s, q) <==> ZonesWithinLimit(ix, t, q)
  {
    forall edge ensures EdgeOccupants(s, q, edge) == EdgeOccupants(t, q, edge) {
    }
    forall zone ensures ZoneOccupants(ix, s, q, zone) == ZoneOccupants(ix, t, q, zone) {
    }
  }

  /** A robot's own requests and leases, entries under the id asked for, and
      inactive leases have no say in a decision. */
  lemma OnlyOthersDecide(index: Option<Index>, s: Ledger, q: Request)
    ensures Grants(index, s, q) <==> Grants(index, OthersEntries(s, q), q)
  {
    if index.Some? {
      SameRivalsSameCounts(index.value, s, OthersEntries(s, q), q);
    }
  }

  /** The entries whose window meets the claim's, a lease counted from tick 0. */
  function MeetingEntries(s: Ledger, q: Request): Ledger {
    s.(requests := Filter(s.requests, (r: Request) => WindowsOverlap(q.window, r.window)),
       leases := Filter(s.leases, (l: Lease) => WindowsOverlap(q.window, Window(None, l.expiresAt))))
  }

  /** With an index bound, entries apart in time have no say either. */
  lemma OnlyMeetingEntriesDecide(ix: Index, s: Ledger, q: Request)
    ensures Grants(Some(ix), s, q) <==> Grants(Some(ix), MeetingEntries(s, q), q)
  {
    SameRivalsSameCounts(ix, s, MeetingEntries(s, q), q);
    forall r | r in s.requests && !WindowsOverlap(q.window, r.window) ensures Compatible(Some(ix), q.Held(), r.Held()) {
      TargetByTarget(ix, q.Held(), r.Held());
    }
    forall l | l in s.leases && !WindowsOverlap(q.window, l.View().window) ensures Compatible(Some(ix), q.Held(), l.View()) {
      TargetByTarget(ix, q.Held(), l.View());
    }
  }

  // ---------------------------------------------------------------------------
  // releases only help
  // ---------------------------------------------------------------------------

  predicate Fewer(fewer: Ledger, s: Ledger) {
    (forall r | r in fewer.requests :: r in s.requests) && (forall l | l in fewer.leases :: l in s.leases)
  }

  lemma FewerOnEdge(ix: Index, fewer: Ledger, s: Ledger, q: Request, edge: Target)
    requires Fewer(fewer, s)
    requires EdgeWithinCapacity(ix, s, q, edge)
    ensures EdgeWithinCapacity(ix, fewer, q, edge)
  {
    SubsetSize(EdgeOccupants(fewer, q, edge), EdgeOccupants(s, q, edge));
  }

  lemma FewerInZone(ix: Index, fewer: Ledger, s: Ledger, q: Request, zone: Id)
    requires Fewer(fewer, s)
    requires ZoneWithinLimit(ix, s, q, zone)
    ensures ZoneWithinLimit(ix, fewer, q, zone)
  {
    SubsetSize(ZoneOccupants(ix, fewer, q, zone), ZoneOccupants(ix, s, q, zone));
  }

  lemma FewerWithinLimits(ix: Index, fewer: Ledger, s: Ledger, q: Request)
    requires Fewer(fewer, s)
    requires EdgesWithinCapacity(ix, s, q) && ZonesWithinLimit(ix, s, q)
    ensures EdgesWithinCapacity(ix, fewer, q) && ZonesWithinLimit(ix, fewer, q)
  {
    forall t | t in q.targets && t.kind == Edge && q.mode == Shared ensures EdgeWithinCapacity(ix, fewer, q, t) {
      FewerOnEdge(ix, fewer, s, q, t);
    }
    forall z | z in ix.zones && Occupies(ix, q.targets, z) ensures ZoneWithinLimit(ix, fewer, q, z) {
      FewerInZone(ix, fewer, s, q, z);
    }
  }

  /** Taking entries out of the ledger never turns a grant into a refusal. */
  lemma ReleasingNeverRefuses(index: Option<Index>, fewer: Ledger, s: Ledger, q: Request)
    requires Grants(index, s, q)
    requires Fewer(fewer, s)
    ensures Grants(index, fewer, q)
  {
    if index.Some? {
      FewerWithinLimits(index.value, fewer, s, q);
    }
  }

  predicate NobodyHolds(s: Ledger) {
    s.requests == [] && forall l | l in s.leases :: !l.active
  }

  lemma AloneInZone(ix: Index, s: Ledger, q: Request, zone: Id)
    requires ParsedPolicies(ix) && NobodyHolds(s) && zone in ix.zones
    ensures ZoneWithinLimit(ix, s, q, zone)
  {
    assert ZoneOccupants(ix, s, q, zone) == {q.robot};
  }

  lemma AloneOnEdge(ix: Index, s: Ledger, q: Request, edge: Target)
    requires NobodyHolds(s)
    ensures EdgeWithinCapacity(ix, s, q, edge)
  {
    assert EdgeOccupants(s, q, edge) == {q.robot};
  }

  /** How many robots a zone of a built index admits, from the properties of its
      zone in the tree. */
  lemma LimitOnABuiltIndex(ix: Index, root: ZoneTree.Zone, zone: Id)
    requires zone in ix.zones && IndexBuild.FindZone(root, zone).Some?
    requires FromProperties(IndexBuild.FindZone(root, zone).value.properties, ix.zones[zone])
    ensures
      var properties := IndexBuild.FindZone(root, zone).value.properties;
      ZoneLimit(ix, zone) ==
        if ix.zones[zone].kind == ExclusiveAccess then Some(1)
        else match LastWith(properties, SetsCapacity) case Some(p) => Some(p.limit) case None => None
  {
    LimitFromProperties(IndexBuild.FindZone(root, zone).value.properties, ix.zones[zone]);
  }

  /** Once everybody has let go, a request is granted exactly when it names
      something and everything it names exists: every zone admits somebody. */
  lemma EmptyLedgerGrantsEveryRealRequest(ix: Index, s: Ledger, q: Request)
    requires ParsedPolicies(ix) && NobodyHolds(s)
    ensures Grants(Some(ix), s, q) <==> q.targets != [] && TargetsExist(Some(ix), q.targets)
    ensures Grants(Some(ix), s, q) <==>
              && q.targets != []
              && (forall id | Target(Zone, id) in q.targets :: id in ix.zones)
              && (forall id | Target(Node, id) in q.targets :: id in ix.nodes)
              && (forall id | Target(Edge, id) in q.targets :: id in ix.edges)
  {
    forall t | t in q.targets ensures t == Target(t.kind, t.resource) {
    }
    forall t | t in q.targets && t.kind == Edge ensures EdgeWithinCapacity(ix, s, q, t) {
      AloneOnEdge(ix, s, q, t);
    }
    forall z | z in ix.zones && Occupies(ix, q.targets, z) ensures ZoneWithinLimit(ix, s, q, z) {
      AloneInZone(ix, s, q, z);
    }
  }

  // ---------------------------------------------------------------------------
  // the constrained-zone check
  // ---------------------------------------------------------------------------

  /** Compatibility without the single-occupant-zone test between two nodes or
      two edges. */
  predicate CompatibleWithoutZoneTest(ix: Index, lhs: Holding, rhs: Holding) {
    && ZoneClaimsCompatible(ix, lhs, rhs)
    && (forall l, r | l in lhs.targets && r in rhs.targets && l.kind == r.kind && l.kind != Zone ::
          WindowsOverlap(lhs.window, rhs.window) && l.resource == r.resource ==> BothShared(lhs, rhs))
    && ZoneVsSpatialCompatible(ix, lhs, rhs)
    && ZoneVsSpatialCompatible(ix, rhs, lhs)
  }

  predicate GrantsWithoutZoneTest(ix: Index, s: Ledger, q: Request) {
    && q.targets != []
    && TargetsExist(Some(ix), q.targets)
    && (forall r | r in s.requests && Rival(r, q) :: CompatibleWithoutZoneTest(ix, q.Held(), r.Held()))
    && (forall l | l in s.leases && RivalLease(l, q) :: CompatibleWithoutZoneTest(ix, q.Held(), l.View()))
    && EdgesWithinCapacity(ix, s, q)
    && ZonesWithinLimit(ix, s, q)
  }

  lemma InsideDirectZone(ix: Index, targets: seq<Target>, t: Target, zone: Id)
    requires t in targets && t.kind != Zone && zone in ZonesOf(ix, t)
    ensures Occupies(ix, targets, zone) && TargetsOccupyZone(ix, targets, zone)
  {
    assert ZoneContains(ix, zone, zone);
    assert LiesInside(ix, t, zone);
    assert TargetOccupies(ix, t, zone) && TargetTouches(ix, t, zone);
  }

  lemma TwoRobotsOverfill(ix: Index, s: Ledger, q: Request, other: u64, zone: Id)
    requires other in ZoneOccupants(ix, s, q, zone) && other != q.robot
    requires zone in ix.zones && SingleOccupant(ix.zones[zone])
    ensures !ZoneWithinLimit(ix, s, q, zone)
  {
    var two := {q.robot, other};
    assert |two| == 2;
    SubsetSize(two, ZoneOccupants(ix, s, q, zone));
  }

  /** Two claims on one level, on different resources of a common single-occupant
      zone. */
  predicate ClashInZone(ix: Index, lhs: Holding, rhs: Holding) {
    exists l, t | l in lhs.targets && t in rhs.targets ::
      l.kind == t.kind && l.kind != Zone && l.resource != t.resource && SharedConstrainedZone(ix, l, t)
  }

  /** The zone test is the one thing the shorter rule leaves out. */
  lemma ZoneTestIsTheDifference(ix: Index, lhs: Holding, rhs: Holding)
    ensures CompatibleInIndex(ix, lhs, rhs) <==>
              CompatibleWithoutZoneTest(ix, lhs, rhs) && !(WindowsOverlap(lhs.window, rhs.window) && ClashInZone(ix, lhs, rhs))
  {
    forall l, t | l in lhs.targets && t in rhs.targets && l.kind == t.kind && l.kind != Zone && CompatibleInIndex(ix, lhs, rhs)
      ensures SpatialPairCompatible(ix, lhs, rhs, l, t)
    {
      assert SpatialClaimsCompatible(ix, lhs, rhs, l.kind);
    }
  }

  predicate RivalHolding(s: Ledger, q: Request, h: Holding) {
    (exists r | r in s.requests :: Rival(r, q) && r.Held() == h) || (exists l | l in s.leases :: RivalLease(l, q) && l.Held() == h)
  }

  lemma RivalIsCounted(ix: Index, s: Ledger, q: Request, h: Holding, zone: Id)
    requires RivalHolding(s, q, h) && CountsInZone(ix, h, q, zone)
    ensures h.robot in ZoneOccupants(ix, s, q, zone) && h.robot != q.robot
  {
  }

  lemma CommonZone(ix: Index, lhs: seq<Target>, rhs: seq<Target>, l: Target, t: Target) returns (z: Id)
    requires l in lhs && t in rhs && l.kind != Zone && t.kind != Zone && SharedConstrainedZone(ix, l, t)
    ensures z in ix.zones && SingleOccupant(ix.zones[z])
    ensures Occupies(ix, lhs, z) && TargetsOccupyZone(ix, rhs, z)
  {
    z :| z in ZonesOf(ix, l) && z in ZonesOf(ix, t) && SingleOccupant(ix.zones[z]);
    InsideDirectZone(ix, lhs, l, z);
    InsideDirectZone(ix, rhs, t, z);
  }

  lemma ClashingZone(ix: Index, lhs: Holding, rhs: Holding) returns (z: Id)
    requires ClashInZone(ix, lhs, rhs)
    ensures z in ix.zones && SingleOccupant(ix.zones[z])
    ensures Occupies(ix, lhs.targets, z) && TargetsOccupyZone(ix, rhs.targets, z)
  {
    var l, t :| l in lhs.targets && t in rhs.targets && l.kind == t.kind && l.kind != Zone && SharedConstrainedZone(ix, l, t);
    z := CommonZone(ix, lhs.targets, rhs.targets, l, t);
  }

  /** Where the clashing robot is counted, the count refuses the claim anyway. */
  lemma CountedClashOverfills(ix: Index, s: Ledger, q: Request, h: Holding)
    requires RivalHolding(s, q, h) && WindowsOverlap(q.window, h.window) && ClashInZone(ix, q.Held(), h)
    ensures !ZonesWithinLimit(ix, s, q)
  {
    var z := ClashingZone(ix, q.Held(), h);
    RivalIsCounted(ix, s, q, h, z);
    TwoRobotsOverfill(ix, s, q, h.robot, z);
  }

  /** A lease that begins only after the request has ended clashes with it in a
      zone. The test, which looks at the lease from tick 0, sees the clash; the
      count, which looks at its true window, does not. */
  predicate ClashesTooEarly(ix: Index, q: Request, l: Lease) {
    && WindowsOverlap(q.window, l.View().window) && !WindowsOverlap(q.window, l.Held().window)
    && ClashInZone(ix, q.Held(), l.View())
  }

  /** The pairwise single-occupant-zone test changes the decision exactly when
      some other robot's lease clashes too early; everything else it refuses, the
      occupancy count refuses already. */
  lemma ZoneTestMattersExactly(ix: Index, s: Ledger, q: Request)
    ensures Grants(Some(ix), s, q) <==>
              GrantsWithoutZoneTest(ix, s, q) && forall l | l in s.leases && RivalLease(l, q) :: !ClashesTooEarly(ix, q, l)
  {
    forall r | r in s.requests && Rival(r, q)
      ensures Compatible(Some(ix), q.Held(), r.Held()) ==> CompatibleWithoutZoneTest(ix, q.Held(), r.Held())
      ensures ZonesWithinLimit(ix, s, q) && CompatibleWithoutZoneTest(ix, q.Held(), r.Held()) ==> Compatible(Some(ix), q.Held(), r.Held())
    {
      RequestClashesAreCounted(ix, s, q, r);
    }
    forall l | l in s.leases && RivalLease(l, q)
      ensures Compatible(Some(ix), q.Held(), l.View()) ==> CompatibleWithoutZoneTest(ix, q.Held(), l.View()) && !ClashesTooEarly(ix, q, l)
      ensures (ZonesWithinLimit(ix, s, q) && CompatibleWithoutZoneTest(ix, q.Held(), l.View()) && !ClashesTooEarly(ix, q, l))
                ==> Compatible(Some(ix), q.Held(), l.View())
    {
      LeaseClashesAreCounted(ix, s, q, l);
    }
  }

  lemma RequestClashesAreCounted(ix: Index, s: Ledger, q: Request, r: Request)
    requires r in s.requests && Rival(r, q)
    ensures CompatibleInIndex(ix, q.Held(), r.Held()) ==> CompatibleWithoutZoneTest(ix, q.Held(), r.Held())
    ensures ZonesWithinLimit(ix, s, q) && CompatibleWithoutZoneTest(ix, q.Held(), r.Held()) ==> CompatibleInIndex(ix, q.Held(), r.Held())
  {
    ZoneTestIsTheDifference(ix, q.Held(), r.Held());
    if WindowsOverlap(q.window, r.window) && ClashInZone(ix, q.Held(), r.Held()) {
      CountedClashOverfills(ix, s, q, r.Held());
    }
  }

  lemma LeaseClashesAreCounted(ix: Index, s: Ledger, q: Request, l: Lease)
    requires l in s.leases && RivalLease(l, q)
    ensures CompatibleInIndex(ix, q.Held(), l.View()) ==> CompatibleWithoutZoneTest(ix, q.Held(), l.View()) && !ClashesTooEarly(ix, q, l)
    ensures (ZonesWithinLimit(ix, s, q) && CompatibleWithoutZoneTest(ix, q.Held(), l.View()) && !ClashesTooEarly(ix, q, l))
              ==> CompatibleInIndex(ix, q.Held(), l.View())
  {
    ZoneTestIsTheDifference(ix, q.Held(), l.View());
    if WindowsOverlap(q.window, l.Held().window) && ClashInZone(ix, q.Held(), l.Held()) {
      CountedClashOverfills(ix, s, q, l.Held());
    }
  }

  predicate RequestsOnly(s: Ledger) {
    forall l | l in s.leases :: !l.active
  }

  /** In a ledger of requests only, the zone test never changes the decision. */
  lemma ZoneTestIsRedundantForRequests(ix: Index, s: Ledger, q: Request)
    requires RequestsOnly(s)
    ensures Grants(Some(ix), s, q) <==> GrantsWithoutZoneTest(ix, s, q)
  {
    ZoneTestMattersExactly(ix, s, q);
  }

  // ---------------------------------------------------------------------------
  // re-claiming held ground
  // ---------------------------------------------------------------------------

  /** Every live request names something, and everything it names exists. */
  predicate EntriesExist(ix: Index, s: Ledger) {
    forall r | r in s.requests :: r.targets != [] && forall t | t in r.targets :: TargetExists(ix, t)
  }

  lemma StepKeepsEntries(ix: Index, sys: System, op: Op)
    requires sys.index == Some(ix) && Allowed(sys, op)
    requires EntriesExist(ix, sys.ledger)
    ensures EntriesExist(ix, Step(sys, op).ledger)
  {
    var s, after := sys.ledger, Step(sys, op).ledger;
    match op {
      case AcquireOp(q) => UpsertHolds(s.requests, q.(id := MintedId(s)));
      case _ => assert forall r | r in after.requests :: r in s.requests;
    }
  }

  /** Entries keep existing over every run under one index. */
  lemma {:induction false} EntriesExistOverEveryRun(ix: Index, sys: System, ops: seq<Op>)
    requires sys.index == Some(ix) && AllowedRun(sys, ops)
    requires forall op | op in ops :: !op.RebindOp?
    requires EntriesExist(ix, sys.ledger)
    ensures EntriesExist(ix, Run(sys, ops).ledger) && Run(sys, ops).index == Some(ix)
    decreases |ops|
  {
    if ops != [] {
      assert ops[0] in ops;
      StepKeepsEntries(ix, sys, ops[0]);
      EntriesExistOverEveryRun(ix, Step(sys, ops[0]), ops[1..]);
    }
  }

  /** A ledger of requests only, none of them with an end or a late start. */
  predicate OpenEnded(s: Ledger) {
    RequestsOnly(s) && forall r | r in s.requests :: r.window == UNBOUNDED
  }

  /** The robots the counter charges to a zone: also the holders of a zone above it. */
  function RobotsTouching(ix: Index, s: Ledger, zone: Id): (robots: set<u64>) {
    set r | r in s.requests && TargetsOccupyZone(ix, r.targets, zone) :: r.robot
  }

  /** The robots with a shared request for an edge whose window overlaps. */
  function RobotsSharingDuring(s: Ledger, window: Window, edge: Target): (robots: set<u64>) {
    set r | r in s.requests && r.mode == Shared && WindowsOverlap(window, r.window) && edge in r.targets :: r.robot
  }

  /** The robots the counter charges to a zone for some time in a window. */
  function RobotsTouchingDuring(ix: Index, s: Ledger, window: Window, zone: Id): (robots: set<u64>) {
    set r | r in s.requests && WindowsOverlap(window, r.window) && TargetsOccupyZone(ix, r.targets, zone) :: r.robot
  }

  lemma CountsOfAReclaim(ix: Index, s: Ledger, q: Request, place: Id)
    requires RequestsOnly(s) && UnusedRequestId(s, q.id)
    ensures EdgeOccupants(s, q, Target(Edge, place)) == RobotsSharingDuring(s, q.window, Target(Edge, place)) + {q.robot}
    ensures ZoneOccupants(ix, s, q, place) == RobotsTouchingDuring(ix, s, q.window, place) + {q.robot}
  {
    forall r | r in s.requests && r.robot != q.robot ensures Rival(r, q) {
    }
  }

  /** What a robot holds and asks for again exists and fits with everybody. */
  lemma ReclaimIsCompatible(ix: Index, s: Ledger, held: Request, q: Request)
    requires PairwiseCompatible(Some(ix), Holdings(s)) && EntriesExist(ix, s) && RequestsOnly(s)
    requires held in s.requests && q == held.(id := q.id)
    ensures q.targets != [] && TargetsExist(Some(ix), q.targets)
    ensures CompatibleWithRequests(Some(ix), s, q) && CompatibleWithLeases(Some(ix), s, q)
  {
    forall r | r in s.requests && Rival(r, q) ensures Compatible(Some(ix), q.Held(), r.Held()) {
      assert q.Held() == held.Held() && held.Held() in Holdings(s) && r.Held() in Holdings(s);
    }
  }

  /** Re-asserting a held claim in a ledger of requests is refused only by the
      counts: it is granted exactly when no shared edge it names and no zone it
      occupies is overfull, counting every robot whose window overlaps the
      claim's anywhere. */
  lemma ReclaimIsDecidedByTheCounts(ix: Index, s: Ledger, held: Request, q: Request)
    requires PairwiseCompatible(Some(ix), Holdings(s)) && EntriesExist(ix, s) && RequestsOnly(s)
    requires held in s.requests && q == held.(id := q.id) && UnusedRequestId(s, q.id)
    ensures Grants(Some(ix), s, q) <==>
              && (forall edge | held.mode == Shared && Target(Edge, edge) in held.targets && EdgeCapacity(ix, edge).Some? ::
                    |RobotsSharingDuring(s, held.window, Target(Edge, edge)) + {held.robot}| <= EdgeCapacity(ix, edge).value)
              && (forall z | z in ix.zones && Occupies(ix, held.targets, z) && ZoneLimit(ix, z).Some? ::
                    |RobotsTouchingDuring(ix, s, held.window, z) + {held.robot}| <= ZoneLimit(ix, z).value)
  {
    ReclaimIsCompatible(ix, s, held, q);
    forall t | t in q.targets && t.kind == Edge
      ensures EdgeOccupants(s, q, t) == RobotsSharingDuring(s, held.window, Target(Edge, t.resource)) + {held.robot}
    {
      CountsOfAReclaim(ix, s, q, t.resource);
    }
    forall z | z in ix.zones
      ensures ZoneOccupants(ix, s, q, z) == RobotsTouchingDuring(ix, s, held.window, z) + {held.robot}
    {
      CountsOfAReclaim(ix, s, q, z);
    }
    assert EdgesWithinCapacity(ix, s, q) <==>
        forall edge | held.mode == Shared && Target(Edge, edge) in held.targets && EdgeCapacity(ix, edge).Some? ::
          |RobotsSharingDuring(s, held.window, Target(Edge, edge)) + {held.robot}| <= EdgeCapacity(ix, edge).value by {
      forall t | t in q.targets && t.kind == Edge ensures t == Target(Edge, t.resource) {
      }
    }
  }

  lemma ReclaimFitsEdges(ix: Index, s: Ledger, held: Request, q: Request)
    requires OpenEnded(s) && held in s.requests
    requires q == held.(id := q.id) && UnusedRequestId(s, q.id)
    requires EdgeCapacitiesHold(ix, Holdings(s))
    ensures EdgesWithinCapacity(ix, s, q)
  {
    forall t | t in q.targets && t.kind == Edge && q.mode == Shared ensures EdgeWithinCapacity(ix, s, q, t) {
      if EdgeCapacity(ix, t.resource).Some? {
        var on := RobotsOnEdge(Holdings(s), t.resource, 0);
        forall robot | robot in EdgeOccupants(s, q, t) ensures robot in on {
          if robot == q.robot {
            assert held.Held() in Holdings(s) && Covers(held.window, 0);
          } else {
            var r :| r in s.requests && Rival(r, q) && CountsOnEdge(r.Held(), q, t) && r.robot == robot;
            assert r.Held() in Holdings(s) && Covers(r.window, 0);
          }
        }
        SubsetSize(EdgeOccupants(s, q, t), on);
      }
    }
  }

  lemma OpenEndedReclaimCounts(ix: Index, s: Ledger, held: Request, q: Request, zone: Id)
    requires OpenEnded(s) && held in s.requests
    requires q == held.(id := q.id) && UnusedRequestId(s, q.id) && Occupies(ix, held.targets, zone)
    ensures ZoneOccupants(ix, s, q, zone) == RobotsTouching(ix, s, zone)
  {
    OccupiesImpliesTouches(ix, held.targets, zone);
    CountsOfAReclaim(ix, s, q, zone);
  }

  /** Re-asserting a held, open-ended claim under a fresh id is granted exactly
      when no zone it occupies is overfull by the counter's wide count; nothing
      else can refuse it. */
  lemma ReclaimIsGrantedExactly(ix: Index, s: Ledger, held: Request, q: Request)
    requires FleetSafe(ix, Holdings(s)) && EntriesExist(ix, s) && OpenEnded(s)
    requires held in s.requests && q == held.(id := q.id) && UnusedRequestId(s, q.id)
    ensures Grants(Some(ix), s, q) <==>
              forall z | z in ix.zones && Occupies(ix, held.targets, z) && ZoneLimit(ix, z).Some? ::
                |RobotsTouching(ix, s, z)| <= ZoneLimit(ix, z).value
  {
    ReclaimIsCompatible(ix, s, held, q);
    ReclaimFitsEdges(ix, s, held, q);
    forall z | z in ix.zones && Occupies(ix, held.targets, z)
      ensures ZoneOccupants(ix, s, q, z) == RobotsTouching(ix, s, z)
    {
      OpenEndedReclaimCounts(ix, s, held, q, z);
    }
    assert forall z | z in ix.zones && Occupies(ix, held.targets, z) && ZoneLimit(ix, z).Some? ::
        (ZoneWithinLimit(ix, s, q, z) <==> |RobotsTouching(ix, s, z)| <= ZoneLimit(ix, z).value);
  }

  predicate LeafZone(ix: Index, zone: Id) {
    forall z | z in ix.zones :: ZoneContains(ix, zone, z) ==> z == zone
  }

  /** Zones are only ever claimed at the bottom of the tree. */
  predicate ZoneClaimsOnLeaves(ix: Index, s: Ledger) {
    forall r, t | r in s.requests && t in r.targets && t.kind == Zone :: LeafZone(ix, t.resource)
  }

  /** Where zones are only claimed at the bottom of the tree, a robot is never
      refused ground it holds. */
  lemma HeldGroundIsNeverRefused(ix: Index, s: Ledger, held: Request, q: Request)
    requires FleetSafe(ix, Holdings(s)) && EntriesExist(ix, s) && OpenEnded(s)
    requires ZoneClaimsOnLeaves(ix, s)
    requires held in s.requests && q == held.(id := q.id) && UnusedRequestId(s, q.id)
    ensures Grants(Some(ix), s, q)
  {
    forall z | z in ix.zones && ZoneLimit(ix, z).Some?
      ensures |RobotsTouching(ix, s, z)| <= ZoneLimit(ix, z).value
    {
      forall robot | robot in RobotsTouching(ix, s, z) ensures robot in RobotsInZone(ix, Holdings(s), z, 0) {
        var r :| r in s.requests && TargetsOccupyZone(ix, r.targets, z) && r.robot == robot;
        var t :| t in r.targets && TargetTouches(ix, t, z);
        assert TargetOccupies(ix, t, z);
        assert r.Held() in Holdings(s) && Covers(r.window, 0);
      }
      SubsetSize(RobotsTouching(ix, s, z), RobotsInZone(ix, Holdings(s), z, 0));
    }
    ReclaimIsGrantedExactly(ix, s, held, q);
  }

  /** In every ledger a run reaches from an empty one, with open-ended requests
      only and zones claimed on leaves, a robot that asks again for what it holds
      is granted it. */
  lemma NoRunRefusesHeldGround(ix: Index, ops: seq<Op>, held: Request)
    requires TreeShaped(ix) && AllowedRun(System(Some(ix), EMPTY_LEDGER), ops)
    requires FleetRun(System(Some(ix), EMPTY_LEDGER), ops) && forall op | op in ops :: !op.RebindOp?
    requires
      var s := Run(System(Some(ix), EMPTY_LEDGER), ops).ledger;
      OpenEnded(s) && ZoneClaimsOnLeaves(ix, s) && IdsRemain(s) && held in s.requests
    ensures
      var s := Run(System(Some(ix), EMPTY_LEDGER), ops).ledger;
      Grants(Some(ix), s, held.(id := MintedId(s)))
  {
    var sys := System(Some(ix), EMPTY_LEDGER);
    var s := Run(sys, ops).ledger;
    EveryRunFromEmptyIsSafe(ix, ops);
    EntriesExistOverEveryRun(ix, sys, ops);
    MintIsUnusedByRequestsExactly(s);
    HeldGroundIsNeverRefused(ix, s, held, held.(id := MintedId(s)));
  }
}
