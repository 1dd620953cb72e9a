/** Safety of the claim ledger over every run: whatever a step does to the
    holdings keeps the fleet safe. */
module RunSafety {
  import opened Basics
  import opened Workspace
  import opened Claims
  import opened Compatibility
  import opened Ledgers
  import opened LedgerSafety
  import opened GrantSafety
  import opened LedgerRuns
  import opened Rebinding

  // ---------------------------------------------------------------------------
  // when a step keeps exclusion
  // ---------------------------------------------------------------------------

  /** Exclusion means that no two robots' holdings collide. */
  lemma ExclusionMeansNoCollision(held: set<Holding>)
    ensures Exclusion(held) <==> forall a, b | a in held && b in held && a.robot != b.robot :: !Collide(a, b)
  {
    forall a, b | Exclusion(held) && a in held && b in held && a.robot != b.robot ensures !Collide(a, b) {
      if ShareTick(a.window, b.window) {
        var tick: u64 := Max(Start(a.window), Start(b.window));
        assert Covers(a.window, tick) && Covers(b.window, tick);
      }
    }
  }

  /** Adding a holding keeps exclusion exactly when it collides with nobody. */
  lemma AddingKeepsExclusionExactly(held: set<Holding>, h: Holding)
    requires Exclusion(held)
    ensures Exclusion(held + {h}) <==> forall g | g in held && g.robot != h.robot :: !Collide(h, g)
  {
    ExclusionMeansNoCollision(held);
    ExclusionMeansNoCollision(held + {h});
    assert forall g :: Collide(h, g) <==> Collide(g, h);
  }

  /** A refresh is not evaluated. It keeps exclusion exactly when the lease, over
      its new window, collides with nobody else's holding. */
  lemma RefreshKeepsExclusionExactly(s: Ledger, id: u64, now: u64, expires: Option<u64>)
    requires Exclusion(Holdings(s))
    ensures Exclusion(Holdings(RefreshLease(s, id, now, expires))) <==> RefreshFits(s, id, expires)
  {
    var after := Holdings(RefreshLease(s, id, now, expires));
    RefreshSwapsOneHolding(s, id, now, expires);
    ExclusionMeansNoCollision(Holdings(s));
    ExclusionMeansNoCollision(after);
    if MovesExpiry(s, id, expires) {
      var l := RefreshedLease(s, id);
      AddingKeepsExclusionExactly(Holdings(s), Extended(l, expires));
      assert forall h | h in Holdings(s) && h.robot != l.robot :: h in after;
    }
  }

  /** No live request that the evaluation takes for the one asked about, because
      it carries the same id, collides with it. */
  predicate SkipsNoCollision(s: Ledger, q: Request) {
    forall r | r in s.requests && r.id == q.id && r.robot != q.robot :: !Collide(q.Held(), r.Held())
  }

  lemma GrantCollidesWithSkippedOnly(index: Option<Index>, s: Ledger, q: Request)
    requires Grants(index, s, q)
    ensures (forall h | h in Holdings(s) && h.robot != q.robot :: !Collide(q.Held(), h)) <==> SkipsNoCollision(s, q)
  {
    forall h | h in Holdings(s) && h.robot != q.robot && Collide(q.Held(), h) ensures !SkipsNoCollision(s, q) {
      if r :| r in s.requests && r.Held() == h {
        if r.id != q.id {
          CompatibleDoNotCollide(index, q.Held(), h);
        }
      } else {
        var l :| l in s.leases && l.active && l.Held() == h;
        NarrowingKeepsCompatibility(index, q.Held(), l.View(), Window(l.grantedAt, l.expiresAt));
        CompatibleDoNotCollide(index, q.Held(), h);
      }
    }
    forall r | r in s.requests ensures r.Held() in Holdings(s) {
    }
  }

  lemma CompatibleDoNotCollide(index: Option<Index>, a: Holding, b: Holding)
    requires Compatible(index, a, b)
    ensures !Collide(a, b)
  {
    if Collide(a, b) {
      var t :| t in a.targets && t in b.targets;
      CompatibleSharesNothingExclusively(index, a, b, Max(Start(a.window), Start(b.window)), t);
    }
  }

  /** Claiming keeps exclusion exactly when the request is refused or the live
      entries that already carry the minted id do not collide with it. Below the
      top of the range there are none. */
  lemma ClaimKeepsExclusionExactly(index: Option<Index>, s: Ledger, q: Request)
    requires Exclusion(Holdings(s))
    ensures
      var claim := q.(id := MintedId(s));
      Exclusion(Holdings(Acquire(index, s, q))) <==> (Grants(index, s, claim) ==> SkipsNoCollision(s, claim))
    ensures IdsRemain(s) ==> SkipsNoCollision(s, q.(id := MintedId(s)))
  {
    var claim, after := q.(id := MintedId(s)), Acquire(index, s, q);
    MintIsUnusedByRequestsExactly(s);
    GrantIgnoresCounter(index, s, claim);
    if Grants(index, s, claim) {
      GrantCollidesWithSkippedOnly(index, s, claim);
      AddingKeepsExclusionExactly(Holdings(s), claim.Held());
      ClaimIsRecorded(s, after, claim);
      ExclusionMeansNoCollision(Holdings(after));
      if Exclusion(Holdings(s) + {claim.Held()}) {
        ShrinkingKeepsExclusion(Holdings(after), Holdings(s) + {claim.Held()});
      }
    } else {
      assert Holdings(after) == Holdings(s);
    }
  }

  lemma ClaimIsRecorded(s: Ledger, after: Ledger, claim: Request)
    requires after.leases == s.leases && after.requests == UpsertForRobot(s.requests, claim)
    ensures claim.Held() in Holdings(after)
    ensures forall h | h in Holdings(s) && h.robot != claim.robot :: h in Holdings(after)
    ensures Shrunk(Holdings(after), Holdings(s) + {claim.Held()})
  {
    var i := FirstIndex(s.requests, (a: Request) => a.robot == claim.robot && SameTargetSet(a.targets, claim.targets));
    assert after.requests[i] == claim;
    forall r | r in s.requests && r.robot != claim.robot ensures r in after.requests {
      var j :| 0 <= j < |s.requests| && s.requests[j] == r;
      assert after.requests[j] == r;
    }
    assert forall r | r in after.requests :: r == claim || r in s.requests;
    SubsetIsShrunk(Holdings(after), Holdings(s) + {claim.Held()});
  }

  // ---------------------------------------------------------------------------
  // exclusion over every run
  // ---------------------------------------------------------------------------

  lemma StepKeepsExclusion(sys: System, op: Op)
    requires Allowed(sys, op)
    requires Exclusion(Holdings(sys.ledger))
    ensures Exclusion(Holdings(Step(sys, op).ledger))
  {
    if op.AcquireOp? {
      ClaimKeepsExclusionExactly(sys.index, sys.ledger, op.request);
    } else if op.RefreshOp? {
      RefreshKeepsExclusionExactly(sys.ledger, op.id, op.now, op.expires);
    } else {
      var q := StepShrinksOrAdds(sys, op);
      ShrinkingKeepsExclusion(Holdings(Step(sys, op).ledger), Holdings(sys.ledger));
    }
  }

  /** Over every run, whatever indexes are bound along the way, no two robots
      hold one resource at one tick when either holds it exclusively. */
  lemma {:induction false} ExclusionOverEveryRun(sys: System, ops: seq<Op>)
    requires AllowedRun(sys, ops)
    requires Exclusion(Holdings(sys.ledger))
    ensures Exclusion(Holdings(Run(sys, ops).ledger))
    decreases |ops|
  {
    if ops != [] {
      StepKeepsExclusion(sys, ops[0]);
      ExclusionOverEveryRun(Step(sys, ops[0]), ops[1..]);
    }
  }

  // ---------------------------------------------------------------------------
  // when a step keeps the whole fleet safe
  // ---------------------------------------------------------------------------

  /** A holding fits into a fleet: it is compatible with every other robot's, and
      no zone or edge it is in is full without it at any tick it covers. */
  ghost predicate FitsFleet(ix: Index, held: set<Holding>, h: Holding) {
    && (forall g | g in held && g.robot != h.robot :: Compatible(Some(ix), h, g))
    && (forall zone, tick: u64 | ZoneLimit(ix, zone).Some? && Covers(h.window, tick) && Occupies(ix, h.targets, zone) ::
          |RobotsInZone(ix, held, zone, tick) + {h.robot}| <= ZoneLimit(ix, zone).value)
    && (forall edge, tick: u64 | EdgeCapacity(ix, edge).Some? && Covers(h.window, tick) && Target(Edge, edge) in h.targets ::
          |RobotsOnEdge(held, edge, tick) + {h.robot}| <= EdgeCapacity(ix, edge).value)
  }

  lemma RobotsWithOneMore(ix: Index, held: set<Holding>, h: Holding, place: Id, tick: u64)
    ensures RobotsInZone(ix, held + {h}, place, tick)
         == RobotsInZone(ix, held, place, tick) + if Covers(h.window, tick) && Occupies(ix, h.targets, place) then {h.robot} else {}
    ensures RobotsOnEdge(held + {h}, place, tick)
         == RobotsOnEdge(held, place, tick) + if Covers(h.window, tick) && Target(Edge, place) in h.targets then {h.robot} else {}
  {
  }

  /** Adding a holding keeps a safe fleet safe exactly when it fits. */
  lemma AddingKeepsFleetSafeExactly(ix: Index, held: set<Holding>, h: Holding)
    requires TreeShaped(ix) && FleetSafe(ix, held)
    ensures FleetSafe(ix, held + {h}) <==> FitsFleet(ix, held, h)
  {
    forall place, tick: u64
      ensures RobotsInZone(ix, held + {h}, place, tick)
           == RobotsInZone(ix, held, place, tick) + if Covers(h.window, tick) && Occupies(ix, h.targets, place) then {h.robot} else {}
      ensures RobotsOnEdge(held + {h}, place, tick)
           == RobotsOnEdge(held, place, tick) + if Covers(h.window, tick) && Target(Edge, place) in h.targets then {h.robot} else {}
    {
      RobotsWithOneMore(ix, held, h, place, tick);
    }
    forall g | g in held && g.robot != h.robot ensures Compatible(Some(ix), h, g) <==> Compatible(Some(ix), g, h) {
      CompatibilityIsSymmetric(Some(ix), h, g);
    }
  }

  /** A refresh fits into the fleet: it does not extend the lease, or the
      extended holding fits. */
  ghost predicate RefreshFitsFleet(ix: Index, s: Ledger, id: u64, expires: Option<u64>) {
    ExtendsLease(s, id, expires) ==> FitsFleet(ix, Holdings(s), Extended(RefreshedLease(s, id), expires))
  }

  lemma ExtendingIsAsSafeAsAdding(ix: Index, s: Ledger, id: u64, now: u64, expires: Option<u64>)
    requires TreeShaped(ix) && ExtendsLease(s, id, expires)
    ensures FleetSafe(ix, Holdings(RefreshLease(s, id, now, expires)))
       <==> FleetSafe(ix, Holdings(s) + {Extended(RefreshedLease(s, id), expires)})
  {
    var after, added := Holdings(RefreshLease(s, id, now, expires)), Holdings(s) + {Extended(RefreshedLease(s, id), expires)};
    if FleetSafe(ix, added) {
      ExtendingAddsTheExtension(s, id, now, expires);
      ShrinkingKeepsFleetSafe(ix, after, added);
    }
    if FleetSafe(ix, after) {
      ExtendingAddsNoLess(s, id, now, expires);
      ShrinkingKeepsFleetSafe(ix, added, after);
    }
  }

  lemma ShorteningKeepsFleetSafe(ix: Index, s: Ledger, id: u64, now: u64, expires: Option<u64>)
    requires TreeShaped(ix) && FleetSafe(ix, Holdings(s)) && !ExtendsLease(s, id, expires)
    ensures FleetSafe(ix, Holdings(RefreshLease(s, id, now, expires)))
  {
    RefreshShrinks(s, id, now, expires);
    ShrinkingKeepsFleetSafe(ix, Holdings(RefreshLease(s, id, now, expires)), Holdings(s));
  }

  /** A refresh keeps the fleet safe exactly when it fits in. */
  lemma RefreshKeepsFleetSafeExactly(ix: Index, s: Ledger, id: u64, now: u64, expires: Option<u64>)
    requires TreeShaped(ix) && FleetSafe(ix, Holdings(s))
    ensures FleetSafe(ix, Holdings(RefreshLease(s, id, now, expires))) <==> RefreshFitsFleet(ix, s, id, expires)
  {
    if ExtendsLease(s, id, expires) {
      ExtendingIsAsSafeAsAdding(ix, s, id, now, expires);
      AddingKeepsFleetSafeExactly(ix, Holdings(s), Extended(RefreshedLease(s, id), expires));
    } else {
      ShorteningKeepsFleetSafe(ix, s, id, now, expires);
    }
  }

  /** Asking the evaluation first is enough. */
  lemma GrantedRefreshFitsFleet(ix: Index, s: Ledger, id: u64, expires: Option<u64>)
    requires TreeShaped(ix) && FleetSafe(ix, Holdings(s))
    requires RefreshIsSafe(Some(ix), s, id, expires)
    ensures RefreshFitsFleet(ix, s, id, expires)
  {
    if ExtendsLease(s, id, expires) {
      var claim := RefreshClaim(s, RefreshedLease(s, id), expires);
      MintIsUnusedByRequestsExactly(s);
      GrantKeepsFleetSafe(ix, s, claim);
      AddingKeepsFleetSafeExactly(ix, Holdings(s), claim.Held());
    }
  }

  // ---------------------------------------------------------------------------
  // the whole fleet over every run
  // ---------------------------------------------------------------------------

  /** What the fleet asks of a step beyond exclusion: a refreshed lease fits in,
      and another index takes no leeway or room away. */
  ghost predicate KeepsFleet(ix: Index, s: Ledger, op: Op) {
    match op
    case RefreshOp(id, _, expires) => RefreshFitsFleet(ix, s, id, expires)
    case RebindOp(after) => SafeRebind(ix, after)
    case _ => true
  }

  ghost predicate FleetRun(sys: System, ops: seq<Op>)
    decreases |ops|
  {
    sys.index.Some? && (ops == [] || (KeepsFleet(sys.index.value, sys.ledger, ops[0]) && FleetRun(Step(sys, ops[0]), ops[1..])))
  }

  lemma StepKeepsFleetSafe(ix: Index, sys: System, op: Op)
    requires TreeShaped(ix) && sys.index == Some(ix)
    requires Allowed(sys, op) && KeepsFleet(ix, sys.ledger, op)
    requires FleetSafe(ix, Holdings(sys.ledger))
    ensures
      var next := Step(sys, op);
      next.index.Some? && TreeShaped(next.index.value) && FleetSafe(next.index.value, Holdings(next.ledger))
  {
    if op.RefreshOp? {
      RefreshKeepsFleetSafeExactly(ix, sys.ledger, op.id, op.now, op.expires);
    } else if op.RebindOp? {
      SafeRebindKeepsFleetSafe(ix, op.index, Holdings(sys.ledger));
    } else {
      var after := Holdings(Step(sys, op).ledger);
      var q := StepShrinksOrAdds(sys, op);
      if q.Some? {
        GrantKeepsFleetSafe(ix, sys.ledger, q.value);
        ShrinkingKeepsFleetSafe(ix, after, Holdings(sys.ledger) + {q.value.Held()});
      } else {
        ShrinkingKeepsFleetSafe(ix, after, Holdings(sys.ledger));
      }
    }
  }

  /** Over every run, holdings of different robots stay compatible, no zone
      exceeds its limit at any tick, and no edge of explicit capacity above one
      exceeds it, under whatever index is bound at the end. */
  lemma {:induction false} FleetSafeOverEveryRun(sys: System, ops: seq<Op>)
    requires AllowedRun(sys, ops) && FleetRun(sys, ops)
    requires TreeShaped(sys.index.value) && FleetSafe(sys.index.value, Holdings(sys.ledger))
    ensures
      var end := Run(sys, ops);
      end.index.Some? && TreeShaped(end.index.value) && FleetSafe(end.index.value, Holdings(end.ledger))
    decreases |ops|
  {
    if ops != [] {
      StepKeepsFleetSafe(sys.index.value, sys, ops[0]);
      FleetSafeOverEveryRun(Step(sys, ops[0]), ops[1..]);
    }
  }

  lemma NobodyIsSafe(ix: Index)
    ensures Holdings(EMPTY_LEDGER) == {} && Exclusion({}) && FleetSafe(ix, {})
  {
    assert forall zone, tick: u64 :: RobotsInZone(ix, {}, zone, tick) == {};
    assert forall edge, tick: u64 :: RobotsOnEdge({}, edge, tick) == {};
  }

  /** Every ledger a run reaches from an empty one is safe. */
  lemma EveryRunFromEmptyIsSafe(ix: Index, ops: seq<Op>)
    requires TreeShaped(ix)
    requires AllowedRun(System(Some(ix), EMPTY_LEDGER), ops)
    ensures
      var end := Run(System(Some(ix), EMPTY_LEDGER), ops);
      && Exclusion(Holdings(end.ledger))
      && (FleetRun(System(Some(ix), EMPTY_LEDGER), ops) ==> end.index.Some? && FleetSafe(end.index.value, Holdings(end.ledger)))
  {
    var sys := System(Some(ix), EMPTY_LEDGER);
    NobodyIsSafe(ix);
    ExclusionOverEveryRun(sys, ops);
    if FleetRun(sys, ops) {
      FleetSafeOverEveryRun(sys, ops);
    }
  }

  /** A run that neither refreshes a lease nor binds another index asks nothing
      beyond exclusion. */
  lemma {:induction false} PlainRunsKeepTheFleet(sys: System, ops: seq<Op>)
    requires sys.index.Some?
    requires forall op | op in ops :: !op.RefreshOp? && !op.RebindOp?
    ensures FleetRun(sys, ops) && Run(sys, ops).index == sys.index
    decreases |ops|
  {
    if ops != [] {
      assert ops[0] in ops;
      PlainRunsKeepTheFleet(Step(sys, ops[0]), ops[1..]);
    }
  }

  /** In a safe fleet, a robot that holds a zone exclusively shuts every other
      robot out of that zone, of every zone above or below it and of every node
      and edge inside it, at every tick it holds it. */
  lemma ExclusiveZoneShutsOthersOut(ix: Index, held: set<Holding>, holder: Holding, other: Holding,
                                    zone: Target, target: Target, tick: u64)
    requires FleetSafe(ix, held)
    requires holder in held && other in held && holder.robot != other.robot
    requires holder.mode == Exclusive || other.mode == Exclusive
    requires Covers(holder.window, tick) && Covers(other.window, tick)
    requires zone in holder.targets && target in other.targets
    ensures !SameGround(ix, zone, target)
  {
    assert Compatible(Some(ix), holder, other);
    if SameGround(ix, zone, target) {
      CompatibleSharesNoGround(ix, holder, other, zone, target);
    }
  }
}
