/** Why recording a granted request keeps a safe fleet safe. */
module GrantSafety {
  import opened Basics
  import opened Workspace
  import opened Claims
  import opened Compatibility
  import opened Ledgers
  import opened LedgerSafety

  // ---------------------------------------------------------------------------
  // adding a granted holding
  // ---------------------------------------------------------------------------

  /** A grant means the new holding fits with every other robot's, over the true
      window of a lease although the check looks at a wider one. */
  lemma GrantFitsEveryHolding(index: Option<Index>, s: Ledger, q: Request, h: Holding)
    requires Grants(index, s, q) && UnusedRequestId(s, q.id)
    requires h in Holdings(s) && h.robot != q.robot
    ensures Compatible(index, q.Held(), h)
  {
    if r :| r in s.requests && r.Held() == h {
      assert Rival(r, q);
    } else {
      var l :| l in s.leases && l.active && l.Held() == h;
      assert RivalLease(l, q);
      NarrowingKeepsCompatibility(index, q.Held(), l.View(), Window(l.grantedAt, l.expiresAt));
    }
  }

  lemma GrantKeepsExclusion(index: Option<Index>, s: Ledger, q: Request)
    requires Grants(index, s, q) && UnusedRequestId(s, q.id)
    requires Exclusion(Holdings(s))
    ensures Exclusion(Holdings(s) + {q.Held()})
  {
    forall h, tick: u64, target |
      h in Holdings(s) && h.robot != q.robot && Covers(q.window, tick) && Covers(h.window, tick)
      && target in q.targets && target in h.targets
      ensures BothShared(q.Held(), h) && BothShared(h, q.Held())
    {
      GrantFitsEveryHolding(index, s, q, h);
      CompatibleSharesNothingExclusively(index, q.Held(), h, tick, target);
    }
  }

  lemma GrantKeepsCompatibility(ix: Index, s: Ledger, q: Request)
    requires TreeShaped(ix)
    requires Grants(Some(ix), s, q) && UnusedRequestId(s, q.id)
    requires PairwiseCompatible(Some(ix), Holdings(s))
    ensures PairwiseCompatible(Some(ix), Holdings(s) + {q.Held()})
  {
    forall h | h in Holdings(s) && h.robot != q.robot
      ensures Compatible(Some(ix), q.Held(), h) && Compatible(Some(ix), h, q.Held())
    {
      GrantFitsEveryHolding(Some(ix), s, q, h);
      CompatibilityIsSymmetric(Some(ix), q.Held(), h);
    }
  }

  lemma OccupantsAreCounted(ix: Index, s: Ledger, q: Request, zone: Id, tick: u64)
    requires UnusedRequestId(s, q.id) && Covers(q.window, tick)
    ensures RobotsInZone(ix, Holdings(s) + {q.Held()}, zone, tick) <= ZoneOccupants(ix, s, q, zone)
  {
    forall h | h in Holdings(s) && Covers(h.window, tick) && Occupies(ix, h.targets, zone)
      ensures h.robot in ZoneOccupants(ix, s, q, zone)
    {
      OccupiesImpliesTouches(ix, h.targets, zone);
      HoldingIsCounted(ix, s, q, zone, h);
    }
  }

  lemma GrantKeepsZoneLimit(ix: Index, s: Ledger, q: Request, zone: Id, tick: u64)
    requires Grants(Some(ix), s, q) && UnusedRequestId(s, q.id)
    requires ZoneLimit(ix, zone).Some?
    requires |RobotsInZone(ix, Holdings(s), zone, tick)| <= ZoneLimit(ix, zone).value
    ensures |RobotsInZone(ix, Holdings(s) + {q.Held()}, zone, tick)| <= ZoneLimit(ix, zone).value
  {
    if Covers(q.window, tick) && Occupies(ix, q.targets, zone) {
      assert ZoneWithinLimit(ix, s, q, zone);
      OccupantsAreCounted(ix, s, q, zone, tick);
      SubsetSize(RobotsInZone(ix, Holdings(s) + {q.Held()}, zone, tick), ZoneOccupants(ix, s, q, zone));
    } else {
      assert RobotsInZone(ix, Holdings(s) + {q.Held()}, zone, tick) == RobotsInZone(ix, Holdings(s), zone, tick);
    }
  }

  lemma HoldingIsCounted(ix: Index, s: Ledger, q: Request, zone: Id, h: Holding)
    requires UnusedRequestId(s, q.id)
    requires h in Holdings(s) && CountsInZone(ix, h, q, zone)
    ensures h.robot in ZoneOccupants(ix, s, q, zone)
  {
    if h.robot != q.robot {
      if r :| r in s.requests && r.Held() == h {
        assert Rival(r, q);
      } else {
        var l :| l in s.leases && l.active && l.Held() == h;
        assert RivalLease(l, q);
      }
    }
  }

  lemma GrantKeepsEdgeCapacity(ix: Index, s: Ledger, q: Request, edge: Id, tick: u64)
    requires Grants(Some(ix), s, q) && UnusedRequestId(s, q.id)
    requires EdgeCapacity(ix, edge).Some?
    requires |RobotsOnEdge(Holdings(s), edge, tick)| <= EdgeCapacity(ix, edge).value
    ensures |RobotsOnEdge(Holdings(s) + {q.Held()}, edge, tick)| <= EdgeCapacity(ix, edge).value
  {
    var held, target := Holdings(s), Target(Edge, edge);
    if Covers(q.window, tick) && target in q.targets {
      forall h | h in held && h.robot != q.robot && Covers(h.window, tick) && target in h.targets
        ensures BothShared(q.Held(), h) && h.robot in EdgeOccupants(s, q, target)
      {
        GrantFitsEveryHolding(Some(ix), s, q, h);
        CompatibleSharesNothingExclusively(Some(ix), q.Held(), h, tick, target);
        assert CountsOnEdge(h, q, target);
        SharerIsCounted(s, q, target, h);
      }
      if q.mode == Shared {
        assert EdgeWithinCapacity(ix, s, q, target);
        SubsetSize(RobotsOnEdge(held + {q.Held()}, edge, tick), EdgeOccupants(s, q, target));
      } else {
        SubsetSize(RobotsOnEdge(held + {q.Held()}, edge, tick), {q.robot});
      }
    } else {
      assert RobotsOnEdge(held + {q.Held()}, edge, tick) == RobotsOnEdge(held, edge, tick);
    }
  }

  lemma SharerIsCounted(s: Ledger, q: Request, target: Target, h: Holding)
    requires UnusedRequestId(s, q.id)
    requires h in Holdings(s) && h.robot != q.robot && CountsOnEdge(h, q, target)
    ensures h.robot in EdgeOccupants(s, q, target)
  {
    if r :| r in s.requests && r.Held() == h {
      assert Rival(r, q);
    } else {
      var l :| l in s.leases && l.active && l.Held() == h;
      assert RivalLease(l, q);
    }
  }

  /** A grant may be recorded: one more holding, and the fleet is still safe. */
  lemma GrantKeepsFleetSafe(ix: Index, s: Ledger, q: Request)
    requires TreeShaped(ix)
    requires Grants(Some(ix), s, q) && UnusedRequestId(s, q.id)
    requires FleetSafe(ix, Holdings(s))
    ensures FleetSafe(ix, Holdings(s) + {q.Held()})
  {
    GrantKeepsCompatibility(ix, s, q);
    forall zone, tick: u64 | ZoneLimit(ix, zone).Some?
      ensures |RobotsInZone(ix, Holdings(s) + {q.Held()}, zone, tick)| <= ZoneLimit(ix, zone).value
    {
      GrantKeepsZoneLimit(ix, s, q, zone, tick);
    }
    forall edge, tick: u64 | EdgeCapacity(ix, edge).Some?
      ensures |RobotsOnEdge(Holdings(s) + {q.Held()}, edge, tick)| <= EdgeCapacity(ix, edge).value
    {
      GrantKeepsEdgeCapacity(ix, s, q, edge, tick);
    }
  }
}
