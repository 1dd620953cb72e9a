/** Where the ledger's promises stop: concrete runs in which dropping one of the
    conditions of `RunSafety` and `LedgerLaws` loses the property. */
module LostProperties {
  import opened Basics
  import opened Workspace
  import opened Claims
  import opened Compatibility
  import opened Ledgers
  import opened LedgerSafety
  import opened LedgerRuns
  import opened Rebinding
  import opened RunSafety
  import opened LedgerLaws

  function Ask(id: u64, robot: u64, mode: AccessMode, window: Window, target: Target): Request {
    Request(id, robot, 0, mode, 0, None, window, [target])
  }

  function Bare(zones: map<Id, ZonePolicy>, parents: map<Id, Id>, ancestors: map<Id, set<Id>>, nodes: map<Id, seq<Id>>): Index {
    Index(zones, parents, map[], ancestors, nodes, map[], [], map[])
  }

  /** With a live id at the top of the range, the next mint repeats it, the
      evaluation takes the live entry for the request itself, and two robots end
      up holding one node exclusively. */
  lemma SaturatedIdsLoseExclusion()
    ensures
      var node := Target(Node, Id(1));
      var s := Ledger([Ask(0xFFFF_FFFF_FFFF_FFFF, 1, Exclusive, UNBOUNDED, node)], [], [], 5);
      && !IdsRemain(s) && Exclusion(Holdings(s))
      && !Exclusion(Holdings(Acquire(None, s, Ask(0, 2, Exclusive, UNBOUNDED, node))))
  {
    var node := Target(Node, Id(1));
    var first := Ask(0xFFFF_FFFF_FFFF_FFFF, 1, Exclusive, UNBOUNDED, node);
    var s := Ledger([first], [], [], 5);
    var second := Ask(0xFFFF_FFFF_FFFF_FFFF, 2, Exclusive, UNBOUNDED, node);
    assert Holdings(s) == {first.Held()};
    MintIsUnusedExactlyBelowTheTop(s);
    assert LiveIds(s)[0] == U64_MAX && s.requests[0] == first;
    assert MintedId(s) == second.id;
    assert Grants(None, AfterMint(s), second);
    var after := Acquire(None, s, Ask(0, 2, Exclusive, UNBOUNDED, node));
    assert after.requests == [first, second];
    assert first == after.requests[0] && second == after.requests[1];
    assert first.Held() in Holdings(after) && second.Held() in Holdings(after);
    assert Covers(first.window, 0) && Covers(second.window, 0);
    assert node in first.targets && node in second.targets;
  }

  function LeaseOn(id: u64, robot: u64, from: u64, until: u64, target: Target): Lease {
    Lease(id, 0, robot, Exclusive, [target], Some(from), Some(until), None, None, None, None, Active, true)
  }

  /** A refresh that extends a lease is not re-evaluated, so it can run into a
      claim granted for the time after the old expiry. */
  lemma UnsafeRefreshLosesExclusion()
    ensures
      var node := Target(Node, Id(1));
      var s := Ledger([Ask(1, 2, Exclusive, Window(Some(10), Some(20)), node)], [LeaseOn(7, 1, 0, 5, node)], [], 2);
      && Exclusion(Holdings(s))
      && !RefreshFits(s, 7, Some(15))
      && !Exclusion(Holdings(RefreshLease(s, 7, 5, Some(15))))
  {
    var later, lease := Ask(1, 2, Exclusive, Window(Some(10), Some(20)), Target(Node, Id(1))), LeaseOn(7, 1, 0, 5, Target(Node, Id(1)));
    var s := Ledger([later], [lease], [], 2);
    DisjointUntilRefreshed(later, lease, s);
    RefreshKeepsExclusionExactly(s, 7, 5, Some(15));
  }

  lemma DisjointUntilRefreshed(later: Request, lease: Lease, s: Ledger)
    requires later == Ask(1, 2, Exclusive, Window(Some(10), Some(20)), Target(Node, Id(1)))
    requires lease == LeaseOn(7, 1, 0, 5, Target(Node, Id(1)))
    requires s == Ledger([later], [lease], [], 2)
    ensures Exclusion(Holdings(s))
    ensures !Exclusion(Holdings(RefreshLease(s, 7, 5, Some(15))))
  {
    var node := Target(Node, Id(1));
    assert Holdings(s) == {later.Held(), lease.Held()};
    var longer, after := Refreshed(lease, 5, Some(15)), RefreshLease(s, 7, 5, Some(15));
    assert FirstIndex(s.leases, (l: Lease) => l.id == 7) == 0;
    assert after.leases[0] == longer && after.requests[0] == later;
    assert longer.Held() in Holdings(after) && later.Held() in Holdings(after);
    assert Covers(longer.Held().window, 12) && Covers(later.window, 12);
    assert node in longer.targets && node in later.targets;
  }

  /** A parent zone for two robots with a single-occupant zone inside. */
  function Nested(): Index {
    Bare(map[Id(1) := EMPTY_POLICY.(kind := SharedAccess, capacity := 2, capacityIsExplicit := true),
             Id(2) := EMPTY_POLICY.(kind := ExclusiveAccess)],
         map[Id(2) := Id(1)], map[Id(1) := {}, Id(2) := {Id(1)}], map[Id(10) := [Id(2)]])
  }

  /** A robot crosses the inner zone; another then shares the outer one; asked to
      confirm its own claim, the first robot is refused. */
  lemma HeldGroundCanBeRefused()
    ensures
      var crossing := Ask(1, 1, Shared, UNBOUNDED, Target(Node, Id(10)));
      var sharing := Ask(2, 2, Shared, UNBOUNDED, Target(Zone, Id(1)));
      var s1 := Ledger([crossing], [], [], 2);
      var s2 := Ledger([crossing, sharing], [], [], 3);
      && Acquire(Some(Nested()), EMPTY_LEDGER, crossing) == s1
      && Acquire(Some(Nested()), s1, sharing) == s2
      && !Grants(Some(Nested()), s2, crossing.(id := 3))
  {
    var ix := Nested();
    var crossing := Ask(1, 1, Shared, UNBOUNDED, Target(Node, Id(10)));
    var sharing := Ask(2, 2, Shared, UNBOUNDED, Target(Zone, Id(1)));
    var s1, s2 := Ledger([crossing], [], [], 2), Ledger([crossing, sharing], [], [], 3);
    FirstIsGranted(crossing);
    SecondIsGranted(crossing, sharing, s1);
    ThirdIsRefused(crossing, sharing, s2);
  }

  lemma FirstIsGranted(crossing: Request)
    requires crossing == Ask(1, 1, Shared, UNBOUNDED, Target(Node, Id(10)))
    ensures Acquire(Some(Nested()), EMPTY_LEDGER, crossing) == Ledger([crossing], [], [], 2)
  {
    var s := AfterMint(EMPTY_LEDGER);
    assert MaxOf(LiveIds(EMPTY_LEDGER)) == None;
    EmptyLedgerGrantsEveryRealRequest(Nested(), s, crossing);
  }

  lemma SecondFitsZones(crossing: Request, sharing: Request, s1: Ledger)
    requires crossing == Ask(1, 1, Shared, UNBOUNDED, Target(Node, Id(10)))
    requires sharing == Ask(2, 2, Shared, UNBOUNDED, Target(Zone, Id(1)))
    requires s1 == Ledger([crossing], [], [], 2)
    ensures ZonesWithinLimit(Nested(), s1, sharing)
  {
    var ix := Nested();
    forall z | z in ix.zones && Occupies(ix, sharing.targets, z) ensures ZoneWithinLimit(ix, s1, sharing, z) {
      var t :| t in sharing.targets && TargetOccupies(ix, t, z);
      assert z == Id(1);
      assert ZoneOccupants(ix, s1, sharing, z) <= {1, 2};
      SubsetSize(ZoneOccupants(ix, s1, sharing, z), {1, 2});
    }
  }

  lemma SecondFitsFirst(crossing: Request, sharing: Request)
    requires crossing == Ask(1, 1, Shared, UNBOUNDED, Target(Node, Id(10)))
    requires sharing == Ask(2, 2, Shared, UNBOUNDED, Target(Zone, Id(1)))
    ensures CompatibleInIndex(Nested(), sharing.Held(), crossing.Held())
  {
  }

  lemma SecondPassesEvaluation(crossing: Request, sharing: Request, s1: Ledger)
    requires crossing == Ask(1, 1, Shared, UNBOUNDED, Target(Node, Id(10)))
    requires sharing == Ask(2, 2, Shared, UNBOUNDED, Target(Zone, Id(1)))
    requires s1 == Ledger([crossing], [], [], 2)
    ensures Grants(Some(Nested()), s1, sharing)
  {
    SecondFitsZones(crossing, sharing, s1);
    SecondFitsFirst(crossing, sharing);
    assert forall r | r in s1.requests :: r == crossing;
  }

  lemma SecondIsGranted(crossing: Request, sharing: Request, s1: Ledger)
    requires crossing == Ask(1, 1, Shared, UNBOUNDED, Target(Node, Id(10)))
    requires sharing == Ask(2, 2, Shared, UNBOUNDED, Target(Zone, Id(1)))
    requires s1 == Ledger([crossing], [], [], 2)
    ensures Acquire(Some(Nested()), s1, sharing) == Ledger([crossing, sharing], [], [], 3)
  {
    assert LiveIds(s1) == [1];
    assert MintedId(s1) == 2;
    SecondPassesEvaluation(crossing, sharing, s1);
    GrantIgnoresCounter(Some(Nested()), s1, sharing);
    assert Target(Zone, Id(1)) in sharing.targets && Target(Zone, Id(1)) !in crossing.targets;
  }

  lemma ThirdIsRefused(crossing: Request, sharing: Request, s2: Ledger)
    requires crossing == Ask(1, 1, Shared, UNBOUNDED, Target(Node, Id(10)))
    requires sharing == Ask(2, 2, Shared, UNBOUNDED, Target(Zone, Id(1)))
    requires s2 == Ledger([crossing, sharing], [], [], 3)
    ensures !Grants(Some(Nested()), s2, crossing.(id := 3))
  {
    var ix, again := Nested(), crossing.(id := 3);
    assert ix.nodes[Id(10)][0] == Id(2);
    assert Id(2) in ZonesOf(ix, Target(Node, Id(10)));
    InsideDirectZone(ix, again.targets, Target(Node, Id(10)), Id(2));
    assert s2.requests[1] == sharing;
    assert TargetTouches(ix, Target(Zone, Id(1)), Id(2));
    assert CountsInZone(ix, sharing.Held(), again, Id(2));
    assert sharing.robot in ZoneOccupants(ix, s2, again, Id(2));
    TwoRobotsOverfill(ix, s2, again, sharing.robot, Id(2));
  }

  /** One single-occupant zone with two nodes in it. */
  function TwoNodes(): Index {
    Bare(map[Id(1) := EMPTY_POLICY.(kind := ExclusiveAccess)], map[], map[Id(1) := {}], map[Id(10) := [Id(1)], Id(11) := [Id(1)]])
  }

  /** With leases the zone test is not redundant: it looks at a lease as if it
      had started at tick 0 and refuses a claim that ends before the lease
      begins, which the occupancy count would admit. */
  lemma ZoneTestMattersForLeases()
    ensures
      var s := Ledger([], [LeaseOn(1, 1, 10, 20, Target(Node, Id(10)))], [], 1);
      var q := Ask(1, 2, Exclusive, Window(Some(0), Some(5)), Target(Node, Id(11)));
      && !Grants(Some(TwoNodes()), s, q)
      && GrantsWithoutZoneTest(TwoNodes(), s, q)
      && ClashesTooEarly(TwoNodes(), q, s.leases[0])
  {
    var lease := LeaseOn(1, 1, 10, 20, Target(Node, Id(10)));
    var s := Ledger([], [lease], [], 1);
    var q := Ask(1, 2, Exclusive, Window(Some(0), Some(5)), Target(Node, Id(11)));
    LeaseIsRefused(lease, q);
    assert !Grants(Some(TwoNodes()), s, q) by {
      assert s.leases[0] == lease && RivalLease(lease, q);
    }
    PassesWithoutZoneTest(lease, s, q);
    OnlyLeaseClashes(TwoNodes(), s, lease, q);
  }

  lemma OnlyLeaseClashes(ix: Index, s: Ledger, lease: Lease, q: Request)
    requires s.leases == [lease] && !Grants(Some(ix), s, q) && GrantsWithoutZoneTest(ix, s, q)
    ensures ClashesTooEarly(ix, q, lease)
  {
    ZoneTestMattersExactly(ix, s, q);
    assert forall l | l in s.leases :: l == lease;
  }

  lemma PassesWithoutZoneTest(lease: Lease, s: Ledger, q: Request)
    requires lease == LeaseOn(1, 1, 10, 20, Target(Node, Id(10)))
    requires s == Ledger([], [lease], [], 1)
    requires q == Ask(1, 2, Exclusive, Window(Some(0), Some(5)), Target(Node, Id(11)))
    ensures GrantsWithoutZoneTest(TwoNodes(), s, q)
  {
    LeaseIsRefused(lease, q);
    LeaseIsNotCounted(lease, s, q);
    assert TargetsExist(Some(TwoNodes()), q.targets);
    assert forall l | l in s.leases :: l == lease;
  }

  lemma LeaseIsRefused(lease: Lease, q: Request)
    requires lease == LeaseOn(1, 1, 10, 20, Target(Node, Id(10)))
    requires q == Ask(1, 2, Exclusive, Window(Some(0), Some(5)), Target(Node, Id(11)))
    ensures !CompatibleInIndex(TwoNodes(), q.Held(), lease.View())
    ensures CompatibleWithoutZoneTest(TwoNodes(), q.Held(), lease.View())
  {
    var ix, l, t := TwoNodes(), Target(Node, Id(11)), Target(Node, Id(10));
    assert ix.nodes[Id(10)][0] == Id(1) && ix.nodes[Id(11)][0] == Id(1);
    assert Id(1) in ZonesOf(ix, l) && Id(1) in ZonesOf(ix, t);
    assert SharedConstrainedZone(ix, l, t);
    assert l in q.targets && t in lease.View().targets;
    assert !SpatialPairCompatible(ix, q.Held(), lease.View(), l, t);
  }

  lemma LeaseIsNotCounted(lease: Lease, s: Ledger, q: Request)
    requires lease == LeaseOn(1, 1, 10, 20, Target(Node, Id(10)))
    requires s == Ledger([], [lease], [], 1)
    requires q == Ask(1, 2, Exclusive, Window(Some(0), Some(5)), Target(Node, Id(11)))
    ensures ZonesWithinLimit(TwoNodes(), s, q)
  {
    forall z | z in TwoNodes().zones ensures ZoneWithinLimit(TwoNodes(), s, q, z) {
      assert ZoneOccupants(TwoNodes(), s, q, z) == {q.robot};
    }
  }

  /** A zone and a node; the node lists the zones given. */
  function OneZone(around: seq<Id>): Index {
    Bare(map[Id(1) := EMPTY_POLICY], map[], map[Id(1) := {}], map[Id(10) := around])
  }

  const OUTER: Request := Ask(1, 1, Exclusive, UNBOUNDED, Target(Zone, Id(1)))
  const INNER: Request := Ask(2, 2, Exclusive, UNBOUNDED, Target(Node, Id(10)))
  const BOTH: Ledger := Ledger([OUTER, INNER], [], [], 3)

  /** Rebinding an index keeps exclusion per resource but not across levels: two
      robots claim a zone and a node beside it, and in the index bound next the
      node lies in the zone. */
  lemma RebindingLosesCrossLevelSafety()
    ensures
      var before, after := OneZone([]), OneZone([Id(1)]);
      var sys, ops := System(Some(before), EMPTY_LEDGER), [AcquireOp(OUTER), AcquireOp(INNER), RebindOp(after)];
      && TreeShaped(before) && TreeShaped(after) && ParsedPolicies(before) && ParsedPolicies(after)
      && AllowedRun(sys, ops)
      && Run(sys, ops) == System(Some(after), BOTH)
      && FleetSafe(before, Holdings(BOTH))
      && Exclusion(Holdings(BOTH)) && !FleetSafe(after, Holdings(BOTH))
      && !SafeRebind(before, after)
  {
    var before, after := OneZone([]), OneZone([Id(1)]);
    OneZoneIsBuilt([]);
    OneZoneIsBuilt([Id(1)]);
    BothAreClaimed(before, after);
    BothAreSafe(before);
    NestedAfter(after);
    OnlySafeRebindsKeep(before, after, Holdings(BOTH));
  }

  lemma OneZoneIsBuilt(around: seq<Id>)
    ensures TreeShaped(OneZone(around)) && ParsedPolicies(OneZone(around))
  {
  }

  lemma OnlySafeRebindsKeep(before: Index, after: Index, held: set<Holding>)
    requires FleetSafe(before, held) && !FleetSafe(after, held)
    ensures !SafeRebind(before, after)
  {
    if SafeRebind(before, after) {
      SafeRebindKeepsFleetSafe(before, after, held);
    }
  }

  lemma BothAreClaimed(before: Index, after: Index)
    requires before == OneZone([])
    ensures
      var sys, ops := System(Some(before), EMPTY_LEDGER), [AcquireOp(OUTER), AcquireOp(INNER), RebindOp(after)];
      AllowedRun(sys, ops) && Run(sys, ops) == System(Some(after), BOTH)
  {
    var sys, s := System(Some(before), EMPTY_LEDGER), Ledger([OUTER], [], [], 2);
    OuterIsGranted(before);
    InnerIsGranted(before, s);
    assert IdsRemain(EMPTY_LEDGER) && IdsRemain(s);
    assert Run(System(Some(after), BOTH), []) == System(Some(after), BOTH);
    RunCons(System(Some(before), BOTH), RebindOp(after), []);
    RunCons(System(Some(before), s), AcquireOp(INNER), [RebindOp(after)]);
    RunCons(sys, AcquireOp(OUTER), [AcquireOp(INNER), RebindOp(after)]);
    assert [RebindOp(after)] + [] == [RebindOp(after)];
    assert [AcquireOp(INNER)] + [RebindOp(after)] == [AcquireOp(INNER), RebindOp(after)];
    assert [AcquireOp(OUTER)] + [AcquireOp(INNER), RebindOp(after)] == [AcquireOp(OUTER), AcquireOp(INNER), RebindOp(after)];
  }

  lemma OuterIsGranted(before: Index)
    requires before == OneZone([])
    ensures Acquire(Some(before), EMPTY_LEDGER, OUTER) == Ledger([OUTER], [], [], 2)
  {
    assert MaxOf(LiveIds(EMPTY_LEDGER)) == None;
    EmptyLedgerGrantsEveryRealRequest(before, AfterMint(EMPTY_LEDGER), OUTER);
  }

  lemma NoLimitApplies(ix: Index, s: Ledger, q: Request)
    requires ix == OneZone([])
    ensures EdgesWithinCapacity(ix, s, q) && ZonesWithinLimit(ix, s, q)
  {
  }

  lemma BesideEachOther(before: Index)
    requires before == OneZone([])
    ensures CompatibleInIndex(before, OUTER.Held(), INNER.Held()) && CompatibleInIndex(before, INNER.Held(), OUTER.Held())
  {
    var zone, node := Target(Zone, Id(1)), Target(Node, Id(10));
    assert !LiesInside(before, node, Id(1));
    assert Leeway(before, zone, node) == 2 && Leeway(before, node, zone) == 2;
    CompatibleByPairs(before, OUTER.Held(), INNER.Held());
    CompatibleByPairs(before, INNER.Held(), OUTER.Held());
  }

  lemma InnerIsGranted(before: Index, s: Ledger)
    requires before == OneZone([]) && s == Ledger([OUTER], [], [], 2)
    ensures Acquire(Some(before), s, INNER) == BOTH
  {
    assert LiveIds(s) == [1] && MintedId(s) == 2;
    InnerPasses(before, s);
    GrantIgnoresCounter(Some(before), s, INNER);
    assert Target(Node, Id(10)) in INNER.targets && Target(Node, Id(10)) !in OUTER.targets;
  }

  lemma InnerPasses(before: Index, s: Ledger)
    requires before == OneZone([]) && s == Ledger([OUTER], [], [], 2)
    ensures Grants(Some(before), s, INNER)
  {
    NoLimitApplies(before, s, INNER);
    BesideEachOther(before);
    assert forall r | r in s.requests :: r == OUTER;
  }

  lemma BothAreSafe(before: Index)
    requires before == OneZone([])
    ensures FleetSafe(before, Holdings(BOTH)) && Exclusion(Holdings(BOTH))
  {
    assert forall h | h in Holdings(BOTH) :: h == OUTER.Held() || h == INNER.Held();
    BesideEachOther(before);
    NoLimitAnywhere(before, Holdings(BOTH));
  }

  lemma NoLimitAnywhere(ix: Index, held: set<Holding>)
    requires ix == OneZone([])
    ensures ZoneLimitsHold(ix, held) && EdgeCapacitiesHold(ix, held)
  {
  }

  lemma NestedAfter(after: Index)
    requires after == OneZone([Id(1)])
    ensures !FleetSafe(after, Holdings(BOTH))
  {
    var a, b := OUTER.Held(), INNER.Held();
    assert BOTH.requests[0] == OUTER && BOTH.requests[1] == INNER;
    assert a in Holdings(BOTH) && b in Holdings(BOTH);
    assert after.nodes[Id(10)][0] == Id(1);
    assert Id(1) in ZonesOf(after, Target(Node, Id(10)));
    assert LiesInside(after, Target(Node, Id(10)), Id(1));
    assert !CrossPairCompatible(after, a, b, Id(1), Target(Node, Id(10)));
    assert Target(Zone, Id(1)) in a.targets && Target(Node, Id(10)) in b.targets;
    assert !Compatible(Some(after), a, b);
  }
}
