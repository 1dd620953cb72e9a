/** What a safe fleet is, and why a granted request keeps it safe.

    Every invariant is a property of the set of holdings and survives taking
    holdings away, so the only change that needs an argument is the one that
    adds a holding. */
module LedgerSafety {
  import opened Basics
  import opened Workspace
  import opened Claims
  import opened Compatibility
  import opened Ledgers

  // ---------------------------------------------------------------------------
  // what is held
  // ---------------------------------------------------------------------------

  /** Everything the ledger says is held: live requests and active leases, each
      with the window it really covers. */
  function Holdings(s: Ledger): (held: set<Holding>) {
    (set r | r in s.requests :: r.Held()) + (set l | l in s.leases && l.active :: l.Held())
  }

  /** No two robots hold a resource at one tick when either holds it
      exclusively. */
  ghost predicate Exclusion(held: set<Holding>) {
    forall a, b, tick: u64, target |
      a in held && b in held && a.robot != b.robot
      && Covers(a.window, tick) && Covers(b.window, tick)
      && target in a.targets && target in b.targets ::
      BothShared(a, b)
  }

  /** Holdings of different robots are compatible over their true windows. */
  ghost predicate PairwiseCompatible(index: Option<Index>, held: set<Holding>) {
    forall a, b | a in held && b in held && a.robot != b.robot :: Compatible(index, a, b)
  }

  function RobotsInZone(ix: Index, held: set<Holding>, zone: Id, tick: u64): (robots: set<u64>) {
    set h | h in held && Covers(h.window, tick) && Occupies(ix, h.targets, zone) :: h.robot
  }

  function RobotsOnEdge(held: set<Holding>, edge: Id, tick: u64): (robots: set<u64>) {
    set h | h in held && Covers(h.window, tick) && Target(Edge, edge) in h.targets :: h.robot
  }

  /** At every tick, no zone holds more robots than it admits. */
  ghost predicate ZoneLimitsHold(ix: Index, held: set<Holding>) {
    forall zone, tick: u64 | ZoneLimit(ix, zone).Some? ::
      |RobotsInZone(ix, held, zone, tick)| <= ZoneLimit(ix, zone).value
  }

  /** At every tick, no edge of explicit capacity above one carries more robots
      than that. */
  ghost predicate EdgeCapacitiesHold(ix: Index, held: set<Holding>) {
    forall edge, tick: u64 | EdgeCapacity(ix, edge).Some? ::
      |RobotsOnEdge(held, edge, tick)| <= EdgeCapacity(ix, edge).value
  }

  ghost predicate FleetSafe(ix: Index, held: set<Holding>) {
    && PairwiseCompatible(Some(ix), held)
    && ZoneLimitsHold(ix, held)
    && EdgeCapacitiesHold(ix, held)
  }

  /** The two counts of a safe fleet, read off the index: at no tick are there two
      robots in an exclusive zone, or more in a zone than its explicit capacity, or
      more on an edge than an explicit capacity above one. */
  lemma LimitsInTheIndexesTerms(ix: Index, held: set<Holding>)
    ensures ZoneLimitsHold(ix, held) <==>
              forall zone, tick: u64 | zone in ix.zones ::
                && (ix.zones[zone].kind == ExclusiveAccess ==> |RobotsInZone(ix, held, zone, tick)| <= 1)
                && (ix.zones[zone].kind != ExclusiveAccess && ix.zones[zone].capacityIsExplicit ==>
                      |RobotsInZone(ix, held, zone, tick)| <= ix.zones[zone].capacity)
    ensures EdgeCapacitiesHold(ix, held) <==>
              forall edge, tick: u64 | edge in ix.edges ::
                var s := ix.edges[edge].semantics;
                s.capacityIsExplicit && s.capacity.Some? && s.capacity.value > 1 ==>
                  |RobotsOnEdge(held, edge, tick)| <= s.capacity.value
  {
    forall zone, tick: u64 | zone in ix.zones && ZoneLimitsHold(ix, held)
      ensures ix.zones[zone].kind == ExclusiveAccess ==> |RobotsInZone(ix, held, zone, tick)| <= 1
      ensures ix.zones[zone].kind != ExclusiveAccess && ix.zones[zone].capacityIsExplicit ==>
                |RobotsInZone(ix, held, zone, tick)| <= ix.zones[zone].capacity
    {
      assert ZoneLimit(ix, zone).Some? ==> |RobotsInZone(ix, held, zone, tick)| <= ZoneLimit(ix, zone).value;
    }
  }

  // ---------------------------------------------------------------------------
  // taking holdings away
  // ---------------------------------------------------------------------------

  /** Same robot, mode and targets, over a window that is no longer. */
  predicate Within(h: Holding, g: Holding) {
    h == g.(window := h.window) && Narrows(h.window, g.window)
  }

  /** Every holding is one there was before, or a shortened one. */
  predicate Shrunk(fewer: set<Holding>, held: set<Holding>) {
    forall h | h in fewer :: exists g | g in held :: Within(h, g)
  }

  lemma ShrinkingKeepsExclusion(fewer: set<Holding>, held: set<Holding>)
    requires Shrunk(fewer, held)
    requires Exclusion(held)
    ensures Exclusion(fewer)
  {
    forall a, b, tick: u64, target |
      a in fewer && b in fewer && a.robot != b.robot
      && Covers(a.window, tick) && Covers(b.window, tick)
      && target in a.targets && target in b.targets
      ensures BothShared(a, b)
    {
      var a' :| a' in held && Within(a, a');
      var b' :| b' in held && Within(b, b');
      assert Covers(a'.window, tick) && Covers(b'.window, tick);
      assert BothShared(a', b');
    }
  }

  lemma ShrinkingKeepsCompatibility(ix: Index, fewer: set<Holding>, held: set<Holding>)
    requires TreeShaped(ix)
    requires Shrunk(fewer, held)
    requires PairwiseCompatible(Some(ix), held)
    ensures PairwiseCompatible(Some(ix), fewer)
  {
    forall a, b | a in fewer && b in fewer && a.robot != b.robot
      ensures Compatible(Some(ix), a, b)
    {
      var a' :| a' in held && Within(a, a');
      var b' :| b' in held && Within(b, b');
      assert Compatible(Some(ix), a', b');
      NarrowingKeepsCompatibility(Some(ix), a', b', b.window);
      CompatibilityIsSymmetric(Some(ix), a', b);
      NarrowingKeepsCompatibility(Some(ix), b, a', a.window);
      CompatibilityIsSymmetric(Some(ix), b, a);
    }
  }

  lemma ShrinkingEmptiesZones(ix: Index, fewer: set<Holding>, held: set<Holding>, zone: Id, tick: u64)
    requires Shrunk(fewer, held)
    ensures RobotsInZone(ix, fewer, zone, tick) <= RobotsInZone(ix, held, zone, tick)
  {
    forall h | h in fewer && Covers(h.window, tick) && Occupies(ix, h.targets, zone)
      ensures h.robot in RobotsInZone(ix, held, zone, tick)
    {
      var g :| g in held && Within(h, g);
      assert Covers(g.window, tick) && Occupies(ix, g.targets, zone);
    }
  }

  lemma ShrinkingEmptiesEdges(fewer: set<Holding>, held: set<Holding>, edge: Id, tick: u64)
    requires Shrunk(fewer, held)
    ensures RobotsOnEdge(fewer, edge, tick) <= RobotsOnEdge(held, edge, tick)
  {
    forall h | h in fewer && Covers(h.window, tick) && Target(Edge, edge) in h.targets
      ensures h.robot in RobotsOnEdge(held, edge, tick)
    {
      var g :| g in held && Within(h, g);
      assert Covers(g.window, tick) && Target(Edge, edge) in g.targets;
    }
  }

  lemma ShrinkingKeepsFleetSafe(ix: Index, fewer: set<Holding>, held: set<Holding>)
    requires TreeShaped(ix)
    requires Shrunk(fewer, held)
    requires FleetSafe(ix, held)
    ensures FleetSafe(ix, fewer)
  {
    ShrinkingKeepsCompatibility(ix, fewer, held);
    forall zone, tick: u64 | ZoneLimit(ix, zone).Some?
      ensures |RobotsInZone(ix, fewer, zone, tick)| <= ZoneLimit(ix, zone).value
    {
      ShrinkingEmptiesZones(ix, fewer, held, zone, tick);
      SubsetSize(RobotsInZone(ix, fewer, zone, tick), RobotsInZone(ix, held, zone, tick));
    }
    forall edge, tick: u64 | EdgeCapacity(ix, edge).Some?
      ensures |RobotsOnEdge(fewer, edge, tick)| <= EdgeCapacity(ix, edge).value
    {
      ShrinkingEmptiesEdges(fewer, held, edge, tick);
      SubsetSize(RobotsOnEdge(fewer, edge, tick), RobotsOnEdge(held, edge, tick));
    }
  }
}
