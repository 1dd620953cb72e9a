/** Runs of the claim ledger, and what one step may do to the holdings. A run is
    any sequence of ledger operations; they are serialized by one lock, so a
    concurrent history is such a sequence. */
module LedgerRuns {
  import opened Basics
  import opened Workspace
  import opened Claims
  import opened Compatibility
  import opened Ledgers
  import opened LedgerSafety

  // ---------------------------------------------------------------------------
  // minted ids
  // ---------------------------------------------------------------------------

  /** A minted id is unused exactly as long as no live id has reached the top of
      the 64-bit range; at the top the counter saturates onto a live id. */
  lemma MintIsUnusedExactlyBelowTheTop(s: Ledger)
    ensures MintedId(s) !in LiveIds(s) <==> U64_MAX !in LiveIds(s)
    ensures U64_MAX !in LiveIds(s) ==> forall id | id in LiveIds(s) :: id < MintedId(s)
  {
    var top := MaxOf(LiveIds(s));
    if U64_MAX in LiveIds(s) {
      assert top.value == U64_MAX;
    }
  }

  /** No live request is at the top of the 64-bit range. */
  predicate IdsRemain(s: Ledger) {
    UnusedRequestId(s, 0xFFFF_FFFF_FFFF_FFFF)
  }

  /** The evaluation compares request ids only, so what matters to it is that no
      live request carries the mint. That fails exactly when a live request is at
      the top; a lease whose claim is up there does no harm. */
  lemma MintIsUnusedByRequestsExactly(s: Ledger)
    ensures UnusedRequestId(s, MintedId(s)) <==> IdsRemain(s)
  {
    forall r | r in s.requests ensures r.id <= MaxOf(LiveIds(s)).GetOr(0) && r.id <= MintedId(s) {
      LiveIdsExactly(s, r.id);
    }
  }

  // ---------------------------------------------------------------------------
  // runs
  // ---------------------------------------------------------------------------

  datatype System = System(index: Option<Index>, ledger: Ledger)

  datatype Op =
    | AcquireOp(request: Request)
    | RemoveRequestOp(id: u64)
    | RemoveRobotOp(robot: u64)
    | ReleaseTargetOp(robot: u64, resource: Id)
    | ExpireRequestsOp(now: u64)
    | ExpireLeasesOp(now: u64)
    | PromoteOp(lease: Lease)
    | RefreshOp(id: u64, now: u64, expires: Option<u64>)
    | RemoveLeaseOp(id: u64)
    | ReleaseLeaseOp(id: u64, at: Option<u64>)
    | ReleaseRobotLeasesOp(robot: u64, at: Option<u64>)
    | RevokeLeaseOp(id: u64, reason: string, now: u64)
    | RestartOp
    | ClearOp
    | RebindOp(index: Index)

  function StepLedger(index: Option<Index>, s: Ledger, op: Op): Ledger
  {
    match op
    case AcquireOp(q) => Acquire(index, s, q)
    case RemoveRequestOp(id) => RemoveRequest(s, id)
    case RemoveRobotOp(robot) => RemoveRobotRequests(s, robot)
    case ReleaseTargetOp(robot, resource) => ReleaseTarget(s, robot, resource)
    case ExpireRequestsOp(now) => ExpireRequests(s, now)
    case ExpireLeasesOp(now) => ExpireLeases(s, now)
    case PromoteOp(lease) => s.(leases := UpsertLease(s.leases, lease))
    case RefreshOp(id, now, expires) => RefreshLease(s, id, now, expires)
    case RemoveLeaseOp(id) => RemoveLease(s, id)
    case ReleaseLeaseOp(id, at) => ReleaseLease(s, id, at)
    case ReleaseRobotLeasesOp(robot, at) => ReleaseRobotLeases(s, robot, at)
    case RevokeLeaseOp(id, reason, now) => RevokeLease(s, id, reason, now)
    case RestartOp => Restored(s)
    case ClearOp => Cleared(s)
    case RebindOp(_) => s
  }

  function Step(sys: System, op: Op): System {
    System(if op.RebindOp? then Some(op.index) else sys.index, StepLedger(sys.index, sys.ledger, op))
  }

  function Run(sys: System, ops: seq<Op>): System
    decreases |ops|
  {
    if ops == [] then sys else Run(Step(sys, ops[0]), ops[1..])
  }

  /** A lease enters as the image of a request that is live. */
  predicate ImageOfLiveRequest(s: Ledger, lease: Lease) {
    exists r | r in s.requests :: lease.claimId == r.id && lease.Held() == r.Held()
  }

  /** Some tick lies in both windows. */
  predicate ShareTick(a: Window, b: Window) {
    && Start(a) <= End(a) && Start(a) <= End(b)
    && Start(b) <= End(a) && Start(b) <= End(b)
  }

  /** Two holdings that must not belong to different robots. */
  predicate Collide(a: Holding, b: Holding) {
    !BothShared(a, b) && ShareTick(a.window, b.window) && exists t | t in a.targets :: t in b.targets
  }

  /** What a lease holds once its expiry has been moved. */
  function Extended(l: Lease, expires: Option<u64>): Holding {
    Holding(l.robot, l.mode, Window(l.grantedAt, expires), l.targets)
  }

  /** The lease a refresh moves the expiry of, if there is one and it is held. */
  predicate MovesExpiry(s: Ledger, id: u64, expires: Option<u64>) {
    var i := FirstIndex(s.leases, (l: Lease) => l.id == id);
    i < |s.leases| && s.leases[i].active && expires.Some?
  }

  function RefreshedLease(s: Ledger, id: u64): Lease
    requires FirstIndex(s.leases, (l: Lease) => l.id == id) < |s.leases|
  {
    s.leases[FirstIndex(s.leases, (l: Lease) => l.id == id)]
  }

  /** Over the new window the lease collides with nobody else's holding. */
  predicate RefreshFits(s: Ledger, id: u64, expires: Option<u64>) {
    MovesExpiry(s, id, expires) ==>
      forall h | h in Holdings(s) && h.robot != RefreshedLease(s, id).robot :: !Collide(Extended(RefreshedLease(s, id), expires), h)
  }

  /** The request that would ask for a lease's ground over a longer window. */
  function RefreshClaim(s: Ledger, l: Lease, expires: Option<u64>): Request {
    Request(MintedId(s), l.robot, 0, l.mode, 0, None, Window(l.grantedAt, expires), l.targets)
  }

  predicate ExtendsLease(s: Ledger, id: u64, expires: Option<u64>) {
    MovesExpiry(s, id, expires) && expires.value > End(RefreshedLease(s, id).Held().window)
  }

  /** A refresh that the evaluation would allow: it does not extend the lease, or
      asking for the longer window would be granted. */
  predicate RefreshIsSafe(index: Option<Index>, s: Ledger, id: u64, expires: Option<u64>) {
    ExtendsLease(s, id, expires) ==> IdsRemain(s) && Grants(index, s, RefreshClaim(s, RefreshedLease(s, id), expires))
  }

  /** What a caller must respect: no request id has reached the top, leases come
      from live requests, and refreshed leases collide with nobody. */
  predicate Allowed(sys: System, op: Op) {
    match op
    case AcquireOp(_) => IdsRemain(sys.ledger)
    case PromoteOp(lease) => lease.active ==> ImageOfLiveRequest(sys.ledger, lease)
    case RefreshOp(id, _, expires) => RefreshFits(sys.ledger, id, expires)
    case _ => true
  }

  predicate AllowedRun(sys: System, ops: seq<Op>)
    decreases |ops|
  {
    ops == [] || (Allowed(sys, ops[0]) && AllowedRun(Step(sys, ops[0]), ops[1..]))
  }

  lemma RunCons(sys: System, op: Op, rest: seq<Op>)
    ensures Run(sys, [op] + rest) == Run(Step(sys, op), rest)
    ensures AllowedRun(sys, [op] + rest) <==> Allowed(sys, op) && AllowedRun(Step(sys, op), rest)
  {
    assert ([op] + rest)[1..] == rest;
  }

  // ---------------------------------------------------------------------------
  // one step
  // ---------------------------------------------------------------------------

  lemma SubsetIsShrunk(fewer: set<Holding>, held: set<Holding>)
    requires fewer <= held
    ensures Shrunk(fewer, held)
  {
    forall h | h in fewer ensures exists g | g in held :: Within(h, g) {
      assert Within(h, h);
    }
  }

  /** What one step may do to the holdings: shrink them, or add one the
      evaluation granted. */
  predicate ShrinksOrAdds(index: Option<Index>, s: Ledger, after: Ledger, q: Option<Request>) {
    match q
    case None => Shrunk(Holdings(after), Holdings(s))
    case Some(claim) =>
      && Grants(index, s, claim) && UnusedRequestId(s, claim.id)
      && Shrunk(Holdings(after), Holdings(s) + {claim.Held()})
  }

  /** An allowed step other than a refresh, or a refresh the evaluation would
      allow, adds at most what the evaluation grants. */
  lemma StepShrinksOrAdds(sys: System, op: Op) returns (q: Option<Request>)
    requires if op.RefreshOp? then RefreshIsSafe(sys.index, sys.ledger, op.id, op.expires) else Allowed(sys, op)
    ensures ShrinksOrAdds(sys.index, sys.ledger, StepLedger(sys.index, sys.ledger, op), q)
    ensures q.Some? ==> op.AcquireOp? || op.RefreshOp?
  {
    var s, after := sys.ledger, StepLedger(sys.index, sys.ledger, op);
    q := None;
    match op {
      case AcquireOp(request) =>
        q := AcquireAddsOnlyGrants(sys.index, s, request);
      case RefreshOp(id, now, expires) =>
        q := RefreshAddsOnlyGrants(sys.index, s, id, now, expires);
      case PromoteOp(lease) =>
        PromoteAddsNothing(s, lease);
      case _ =>
        RemovalAddsNothing(sys, op);
    }
  }

  lemma RemovalAddsNothing(sys: System, op: Op)
    requires !op.AcquireOp? && !op.RefreshOp? && !op.PromoteOp?
    ensures Shrunk(Holdings(StepLedger(sys.index, sys.ledger, op)), Holdings(sys.ledger))
  {
    var s, after := sys.ledger, StepLedger(sys.index, sys.ledger, op);
    match op {
      case ExpireLeasesOp(now) => StayingMembers(s.leases, (l: Lease) => LeaseEnded(l, now));
      case ReleaseRobotLeasesOp(robot, _) => StayingMembers(s.leases, (l: Lease) => l.robot == robot);
      case _ =>
    }
    assert forall r | r in after.requests :: r in s.requests;
    assert forall l | l in after.leases :: l in s.leases;
    SubsetIsShrunk(Holdings(after), Holdings(s));
  }

  lemma PromoteAddsNothing(s: Ledger, lease: Lease)
    requires lease.active ==> ImageOfLiveRequest(s, lease)
    ensures Shrunk(Holdings(s.(leases := UpsertLease(s.leases, lease))), Holdings(s))
  {
    var after := s.(leases := UpsertLease(s.leases, lease));
    assert forall l | l in after.leases :: l == lease || l in s.leases;
    SubsetIsShrunk(Holdings(after), Holdings(s));
  }

  lemma AcquireAddsOnlyGrants(index: Option<Index>, s: Ledger, request: Request) returns (q: Option<Request>)
    requires IdsRemain(s)
    ensures ShrinksOrAdds(index, s, Acquire(index, s, request), q)
  {
    var claim, after := request.(id := MintedId(s)), Acquire(index, s, request);
    MintIsUnusedByRequestsExactly(s);
    GrantIgnoresCounter(index, s, claim);
    if Grants(index, s, claim) {
      q := Some(claim);
      assert forall r | r in after.requests :: r == claim || r in s.requests;
      SubsetIsShrunk(Holdings(after), Holdings(s) + {claim.Held()});
    } else {
      q := None;
      SubsetIsShrunk(Holdings(after), Holdings(s));
    }
  }

  lemma GrantIgnoresCounter(index: Option<Index>, s: Ledger, q: Request)
    ensures Grants(index, AfterMint(s), q) <==> Grants(index, s, q)
  {
  }

  /** A refresh that moves no held lease's expiry changes no holding; one that
      does swaps the lease's holding for the extended one. */
  lemma RefreshSwapsOneHolding(s: Ledger, id: u64, now: u64, expires: Option<u64>)
    ensures !MovesExpiry(s, id, expires) ==> Holdings(RefreshLease(s, id, now, expires)) <= Holdings(s)
    ensures MovesExpiry(s, id, expires) ==>
              && Extended(RefreshedLease(s, id), expires) in Holdings(RefreshLease(s, id, now, expires))
              && Holdings(RefreshLease(s, id, now, expires)) <= Holdings(s) + {Extended(RefreshedLease(s, id), expires)}
              && Holdings(s) <= Holdings(RefreshLease(s, id, now, expires)) + {RefreshedLease(s, id).Held()}
  {
    var after, i := RefreshLease(s, id, now, expires), FirstIndex(s.leases, (l: Lease) => l.id == id);
    if i < |s.leases| {
      var l, l' := s.leases[i], Refreshed(s.leases[i], now, expires);
      assert after.leases[i] == l';
      forall m | m in after.leases ensures m == l' || m in s.leases {
      }
      forall m | m in s.leases ensures m == l || m in after.leases {
        var j :| 0 <= j < |s.leases| && s.leases[j] == m;
        assert j != i ==> after.leases[j] == m;
      }
    }
  }

  lemma RefreshAddsOnlyGrants(index: Option<Index>, s: Ledger, id: u64, now: u64, expires: Option<u64>)
    returns (q: Option<Request>)
    requires RefreshIsSafe(index, s, id, expires)
    ensures ShrinksOrAdds(index, s, RefreshLease(s, id, now, expires), q)
  {
    var after := RefreshLease(s, id, now, expires);
    RefreshSwapsOneHolding(s, id, now, expires);
    q := None;
    if ExtendsLease(s, id, expires) {
      var claim := RefreshClaim(s, RefreshedLease(s, id), expires);
      MintIsUnusedByRequestsExactly(s);
      q := Some(claim);
      SubsetIsShrunk(Holdings(after), Holdings(s) + {claim.Held()});
    } else {
      RefreshShrinks(s, id, now, expires);
    }
  }

  lemma RefreshShrinks(s: Ledger, id: u64, now: u64, expires: Option<u64>)
    requires !ExtendsLease(s, id, expires)
    ensures Shrunk(Holdings(RefreshLease(s, id, now, expires)), Holdings(s))
  {
    RefreshSwapsOneHolding(s, id, now, expires);
    forall h | h in Holdings(RefreshLease(s, id, now, expires)) ensures exists g | g in Holdings(s) :: Within(h, g) {
      if h in Holdings(s) {
        assert Within(h, h);
      } else {
        assert RefreshedLease(s, id).Held() in Holdings(s);
        assert Within(h, RefreshedLease(s, id).Held());
      }
    }
  }

  /** Extending a lease comes to adding the extended holding: neither fleet holds
      more than the other. */
  lemma ExtendingAddsTheExtension(s: Ledger, id: u64, now: u64, expires: Option<u64>)
    requires ExtendsLease(s, id, expires)
    ensures Shrunk(Holdings(RefreshLease(s, id, now, expires)), Holdings(s) + {Extended(RefreshedLease(s, id), expires)})
  {
    RefreshSwapsOneHolding(s, id, now, expires);
    SubsetIsShrunk(Holdings(RefreshLease(s, id, now, expires)), Holdings(s) + {Extended(RefreshedLease(s, id), expires)});
  }

  lemma ExtendingAddsNoLess(s: Ledger, id: u64, now: u64, expires: Option<u64>)
    requires ExtendsLease(s, id, expires)
    ensures Shrunk(Holdings(s) + {Extended(RefreshedLease(s, id), expires)}, Holdings(RefreshLease(s, id, now, expires)))
  {
    var longer, after := Extended(RefreshedLease(s, id), expires), Holdings(RefreshLease(s, id, now, expires));
    RefreshSwapsOneHolding(s, id, now, expires);
    forall h | h in Holdings(s) + {longer} ensures exists g | g in after :: Within(h, g) {
      assert Within(h, if h in after then h else longer);
    }
  }
}
