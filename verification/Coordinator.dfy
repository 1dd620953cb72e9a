/** The coordinator around the ledger: heartbeat liveness, expiry, the sweep of
    silent robots, and the claim and release calls of the flat wire. */
module Coordination {
  import opened Basics
  import opened Workspace
  import opened Claims
  import opened Ledgers
  import opened LedgerRuns
  import opened ClaimManager

  datatype AliveInfo = AliveInfo(intervalSecs: u64, lastSeenMs: u64)

  const DEFAULT_ALIVE_SECS: u64 := 2
  const MAX_CLAIM_TARGETS: nat := 64

  function SaturatingMul(a: u64, b: u64): u64 {
    if a * b > U64_MAX then U64_MAX else a * b
  }

  /** Silent for more than twice the promised interval. */
  predicate Silent(info: AliveInfo, now: u64) {
    SaturatingSub(now, info.lastSeenMs) > SaturatingMul(info.intervalSecs, 2000)
  }

  /** Silence in plain numbers: nothing is lost to saturation. */
  lemma SilentExactly(info: AliveInfo, now: u64)
    ensures Silent(info, now) <==> now > info.lastSeenMs + 2000 * info.intervalSecs
  {
  }

  // ---------------------------------------------------------------------------
  // expiry and sweep on the ledger
  // ---------------------------------------------------------------------------

  function AfterExpiry(s: Ledger, now: u64): Ledger {
    Ledgers.ExpireLeases(Ledgers.ExpireRequests(s, now), now)
  }

  function FreeRobot(s: Ledger, robot: u64, now: u64): Ledger {
    ReleaseRobotLeases(RemoveRobotRequests(s, robot), robot, Some(now))
  }

  /** Frees the robots one after the other. */
  function Sweep(s: Ledger, robots: seq<u64>, now: u64): Ledger {
    if robots == [] then s
    else FreeRobot(Sweep(s, robots[..|robots| - 1], now), robots[|robots| - 1], now)
  }

  predicate HoldsAnything(s: Ledger, robot: u64) {
    (exists r | r in s.requests :: r.robot == robot) || (exists l | l in s.leases :: l.robot == robot)
  }

  lemma FreeKeepsOthers(s: Ledger, robot: u64, now: u64)
    ensures forall r :: r in FreeRobot(s, robot, now).requests <==> r in s.requests && r.robot != robot
    ensures forall l :: l in FreeRobot(s, robot, now).leases <==> l in s.leases && l.robot != robot
  {
    StayingMembers(s.leases, (l: Lease) => l.robot == robot);
  }

  /** A sweep keeps exactly the entries of the robots it does not free. */
  lemma {:induction false} SweepKeepsOthers(s: Ledger, robots: seq<u64>, now: u64)
    ensures forall r :: r in Sweep(s, robots, now).requests <==> r in s.requests && r.robot !in robots
    ensures forall l :: l in Sweep(s, robots, now).leases <==> l in s.leases && l.robot !in robots
  {
    if robots != [] {
      var front, last := robots[..|robots| - 1], robots[|robots| - 1];
      assert robots == front + [last];
      SweepKeepsOthers(s, front, now);
      FreeKeepsOthers(Sweep(s, front, now), last, now);
    }
  }

  lemma ExpireKeepsLive(s: Ledger, now: u64)
    ensures forall r :: r in AfterExpiry(s, now).requests <==> r in s.requests && !RequestEnded(r, now)
    ensures forall l :: l in AfterExpiry(s, now).leases <==> l in s.leases && !LeaseEnded(l, now)
  {
    StayingMembers(s.leases, (l: Lease) => LeaseEnded(l, now));
  }

  /** After expiring and sweeping at one time, exactly the entries that have not
      ended and whose robot is not swept are left. */
  lemma ExpireThenSweepLeavesExactly(s: Ledger, robots: seq<u64>, now: u64)
    ensures
      var after := Sweep(AfterExpiry(s, now), robots, now);
      && (forall r :: r in after.requests <==> r in s.requests && !RequestEnded(r, now) && r.robot !in robots)
      && (forall l :: l in after.leases <==> l in s.leases && !LeaseEnded(l, now) && l.robot !in robots)
    ensures
      var after := Sweep(AfterExpiry(s, now), robots, now);
      && (forall r | r in after.requests :: r.window.end.Some? ==> now < r.window.end.value)
      && (forall l | l in after.leases :: l.expiresAt.Some? ==> now < l.expiresAt.value)
      && (forall r | r in s.requests && r !in after.requests ::
            r.robot in robots || (r.window.end.Some? && r.window.end.value <= now))
      && (forall l | l in s.leases && l !in after.leases ::
            l.robot in robots || (l.expiresAt.Some? && l.expiresAt.value <= now))
  {
    ExpireKeepsLive(s, now);
    SweepKeepsOthers(AfterExpiry(s, now), robots, now);
  }

  /** A second expiry and sweep at the same time finds nothing to do. */
  lemma ExpireThenSweepIsIdempotent(s: Ledger, robots: seq<u64>, now: u64)
    ensures
      var after := Sweep(AfterExpiry(s, now), robots, now);
      && Sweep(AfterExpiry(after, now), robots, now) == after
      && forall robot | robot in robots :: !HoldsAnything(after, robot)
  {
    var after := Sweep(AfterExpiry(s, now), robots, now);
    ExpireThenSweepLeavesExactly(s, robots, now);
    NothingLeaves(after.leases, (l: Lease) => LeaseEnded(l, now), Expired, Some(now));
    FilterKeepsAll(after.requests, (r: Request) => !RequestEnded(r, now));
    assert AfterExpiry(after, now) == after;
    SweepOfAbsent(after, robots, now);
  }

  lemma {:induction false} NothingLeaves(leases: seq<Lease>, goes: Lease -> bool, how: Disposition, at: Option<u64>)
    requires forall l | l in leases :: !goes(l)
    ensures Staying(leases, goes) == leases && Leaving(leases, goes, how, at) == []
  {
    if leases != [] {
      NothingLeaves(leases[1..], goes, how, at);
    }
  }

  lemma {:induction false} FilterKeepsAll<T>(s: seq<T>, keep: T -> bool)
    requires forall x | x in s :: keep(x)
    ensures Filter(s, keep) == s
  {
    if s != [] {
      FilterKeepsAll(s[1..], keep);
    }
  }

  lemma {:induction false} SweepOfAbsent(s: Ledger, robots: seq<u64>, now: u64)
    requires forall robot | robot in robots :: !HoldsAnything(s, robot)
    ensures Sweep(s, robots, now) == s
  {
    if robots != [] {
      var front, last := robots[..|robots| - 1], robots[|robots| - 1];
      assert robots == front + [last];
      SweepOfAbsent(s, front, now);
      assert !HoldsAnything(s, last);
      FilterKeepsAll(s.requests, (r: Request) => r.robot != last);
      NothingLeaves(s.leases, (l: Lease) => l.robot == last, Released, Some(now));
    }
  }

  // ---------------------------------------------------------------------------
  // conservation of leases
  // ---------------------------------------------------------------------------

  /** A lease without the fields that archiving overwrites. */
  function Core(l: Lease): Lease {
    l.(active := false, disposition := Active, releasedAt := None)
  }

  function Cores(leases: seq<Lease>): multiset<Lease> {
    if leases == [] then multiset{} else multiset{Core(leases[0])} + Cores(leases[1..])
  }

  /** All leases the ledger has ever been given and not dropped. */
  function Stock(s: Ledger): multiset<Lease> {
    Cores(s.leases) + Cores(s.released)
  }

  lemma {:induction false} CoresOfBoth(a: seq<Lease>, b: seq<Lease>)
    ensures Cores(a + b) == Cores(a) + Cores(b)
  {
    if a == [] {
      assert a + b == b;
    } else {
      assert (a + b)[1..] == a[1..] + b;
      CoresOfBoth(a[1..], b);
    }
  }

  lemma {:induction false} SiftingConserves(leases: seq<Lease>, goes: Lease -> bool, how: Disposition, at: Option<u64>)
    ensures Cores(leases) == Cores(Staying(leases, goes)) + Cores(Leaving(leases, goes, how, at))
  {
    if leases != [] {
      SiftingConserves(leases[1..], goes, how, at);
      var kept, gone := Staying(leases[1..], goes), Leaving(leases[1..], goes, how, at);
      CoresOfBoth([leases[0]], kept);
      CoresOfBoth([Archived(leases[0], how, at)], gone);
    }
  }

  lemma ArchivingConserves(s: Ledger, goes: Lease -> bool, how: Disposition, at: Option<u64>)
    ensures Stock(ArchiveWhere(s, goes, how, at)) == Stock(s)
    ensures s.released <= ArchiveWhere(s, goes, how, at).released
  {
    SiftingConserves(s.leases, goes, how, at);
    CoresOfBoth(s.released, Leaving(s.leases, goes, how, at));
  }

  /** Expiring and sweeping loses no lease and duplicates none: what leaves the
      active ledger is appended to the released one, which only ever grows. */
  lemma {:induction false} ExpireThenSweepConservesLeases(s: Ledger, robots: seq<u64>, now: u64)
    ensures
      var after := Sweep(AfterExpiry(s, now), robots, now);
      Stock(after) == Stock(s) && s.released <= after.released
  {
    if robots == [] {
      ArchivingConserves(Ledgers.ExpireRequests(s, now), (l: Lease) => LeaseEnded(l, now), Expired, Some(now));
    } else {
      var front, last := robots[..|robots| - 1], robots[|robots| - 1];
      ExpireThenSweepConservesLeases(s, front, now);
      var before := RemoveRobotRequests(Sweep(AfterExpiry(s, now), front, now), last);
      ArchivingConserves(before, (l: Lease) => l.robot == last, Released, Some(now));
    }
  }

  /** A lease was moved to the archive at this time, for an end or a release. */
  predicate ArchivedAt(l: Lease, now: u64) {
    !l.active && l.releasedAt == Some(now) && (l.disposition == Expired || l.disposition == Released)
  }

  /** An archived lease is one of these with only the archive fields changed; it is
      marked expired where it had ended, else released, its robot being swept. */
  ghost predicate ComesFrom(l: Lease, leases: seq<Lease>, robots: seq<u64>, now: u64) {
    exists was | was in leases :: Core(was) == Core(l) &&
      if l.disposition == Expired then was.expiresAt.Some? && was.expiresAt.value <= now else was.robot in robots
  }

  lemma {:induction false} LeavingAreArchived(leases: seq<Lease>, goes: Lease -> bool, how: Disposition, at: Option<u64>, l: Lease)
    requires l in Leaving(leases, goes, how, at)
    ensures exists was | was in leases :: goes(was) && l == Archived(was, how, at)
  {
    if leases != [] {
      if goes(leases[0]) && l == Archived(leases[0], how, at) {
        assert leases[0] in leases;
      } else {
        LeavingAreArchived(leases[1..], goes, how, at, l);
      }
    }
  }

  /** What a sweep at one time adds to the archive says why and when each lease
      went, and whose it was. */
  lemma {:induction false} TheArchiveSaysWhy(s: Ledger, robots: seq<u64>, now: u64, i: nat)
    requires
      var after := Sweep(AfterExpiry(s, now), robots, now);
      |s.released| <= i < |after.released|
    ensures
      var after := Sweep(AfterExpiry(s, now), robots, now);
      ArchivedAt(after.released[i], now) && ComesFrom(after.released[i], s.leases, robots, now)
  {
    ExpireThenSweepConservesLeases(s, robots, now);
    if robots == [] {
      var gone := Leaving(s.leases, (l: Lease) => LeaseEnded(l, now), Expired, Some(now));
      var l := gone[i - |s.released|];
      assert l in gone;
      LeavingAreArchived(s.leases, (l: Lease) => LeaseEnded(l, now), Expired, Some(now), l);
    } else {
      var front, last := robots[..|robots| - 1], robots[|robots| - 1];
      assert robots == front + [last];
      var before := Sweep(AfterExpiry(s, now), front, now);
      var gone := Leaving(before.leases, (l: Lease) => l.robot == last, Released, Some(now));
      if i < |before.released| {
        TheArchiveSaysWhy(s, front, now, i);
        assert ComesFrom(before.released[i], s.leases, robots, now);
      } else {
        var l := gone[i - |before.released|];
        assert l in gone;
        LeavingAreArchived(before.leases, (l: Lease) => l.robot == last, Released, Some(now), l);
        ExpireThenSweepLeavesExactly(s, front, now);
      }
    }
  }

  // ---------------------------------------------------------------------------
  // ordered ids
  // ---------------------------------------------------------------------------

  predicate Smallest(x: u64, ids: set<u64>) {
    x in ids && forall y | y in ids :: x <= y
  }

  lemma {:induction false} SmallestExists(ids: set<u64>) returns (least: u64)
    requires ids != {}
    ensures Smallest(least, ids)
  {
    var x :| x in ids;
    least := x;
    if ids - {x} != {} {
      var m := SmallestExists(ids - {x});
      least := if x < m then x else m;
    }
    assert forall y | y in ids :: y == x || y in ids - {x};
  }

  predicate StrictlyAscending(order: seq<u64>) {
    forall i, j :: 0 <= i < j < |order| ==> order[i] < order[j]
  }

  /** The ids in ascending order, as an ordered map yields its keys. */
  function Ascending(ids: set<u64>): (order: seq<u64>)
    ensures forall x :: x in order <==> x in ids
    ensures StrictlyAscending(order)
  {
    if ids == {} then []
    else
      assert exists x :: Smallest(x, ids) by { var x := SmallestExists(ids); }
      var x :| Smallest(x, ids);
      PrependSmallest(x, Ascending(ids - {x}));
      [x] + Ascending(ids - {x})
  }

  lemma PrependSmallest(x: u64, rest: seq<u64>)
    requires StrictlyAscending(rest) && forall y | y in rest :: x < y
    ensures StrictlyAscending([x] + rest)
  {
    assert forall j | 1 <= j < |rest| + 1 :: ([x] + rest)[j] == rest[j - 1] && rest[j - 1] in rest;
  }

  // ---------------------------------------------------------------------------
  // the coordinator
  // ---------------------------------------------------------------------------

  datatype ReplyCode = OK | MISMATCHED_KEY | CONFLICT | CAPACITY | UNKNOWN_RESOURCE | BAD_REQUEST | NO_SUCH_CLAIM

  datatype Reply = Reply(code: ReplyCode, blocked: Option<Target>)

  function WindowFor(now: u64, leaseSeconds: Option<u64>): Window {
    if leaseSeconds.GetOr(0) == 0 then UNBOUNDED
    else Window(Some(now), Some(SaturatingAdd(now, SaturatingMul(leaseSeconds.value, 1000))))
  }

  function WireRequest(robot: u64, mode: AccessMode, window: Window, targets: seq<Target>): Request {
    Request(0, robot, 0, mode, 0, None, window, targets)
  }

  function ModeOf(accessMode: Option<u64>): AccessMode {
    if accessMode.GetOr(1) == 2 then Shared else Exclusive
  }

  /** The request a flat claim stands for. Only access mode 2 is shared. Without a
      lease time, or with one of 0, it has no window; else it runs from now for
      that many seconds, as far as the 64-bit range goes. */
  predicate StandsFor(q: Request, robot: u64, targets: seq<Target>, accessMode: Option<u64>, leaseSeconds: Option<u64>, now: u64) {
    && q.robot == robot && q.targets == targets
    && (q.mode == Shared <==> accessMode == Some(2))
    && match leaseSeconds
       case None => q.window == Window(None, None)
       case Some(seconds) =>
         if seconds == 0 then q.window == Window(None, None)
         else if now + 1000 * seconds <= 0xFFFF_FFFF_FFFF_FFFF then q.window == Window(Some(now), Some(now + 1000 * seconds))
         else q.window == Window(Some(now), Some(0xFFFF_FFFF_FFFF_FFFF))
  }

  lemma WireRequestStandsForTheClaim(robot: u64, targets: seq<Target>, accessMode: Option<u64>, leaseSeconds: Option<u64>, now: u64)
    ensures StandsFor(WireRequest(robot, ModeOf(accessMode), WindowFor(now, leaseSeconds), targets),
                      robot, targets, accessMode, leaseSeconds, now)
  {
  }

  /** Whether the evaluation that follows the mint grants the request. */
  predicate WouldGrant(index: Option<Index>, s: Ledger, q: Request) {
    Grants(index, AfterMint(s), q.(id := MintedId(s)))
  }

  /** Every rival entry is compatible with the request: only a count can refuse it. */
  predicate NobodyConflicts(index: Option<Index>, s: Ledger, q: Request) {
    CompatibleWithAll(index, AfterMint(s), q.(id := MintedId(s)))
  }

  /** The targets put a robot in a zone that admits at most one. */
  predicate EntersSingleSeat(index: Option<Index>, targets: seq<Target>) {
    index.Some? && exists z | z in index.value.zones ::
      Occupies(index.value, targets, z) && ZoneLimit(index.value, z).Some? && ZoneLimit(index.value, z).value <= 1
  }

  /** A refusal counts as one for capacity only when nobody conflicts, and as a
      conflict only when somebody does or a single-seat zone is taken. */
  lemma RefusalsByKind(index: Option<Index>, s: Ledger, q: Request, e: Evaluation)
    requires Explains(index, s, q, e) && e.decision == Deny
    requires q.targets != [] && TargetsExist(index, q.targets)
    ensures if e.deniedByCapacity then CompatibleWithAll(index, s, q)
            else CompatibleWithAll(index, s, q) ==> EntersSingleSeat(index, q.targets)
  {
  }

  predicate KnownMode(accessMode: Option<u64>) {
    accessMode.Some? ==> accessMode.value <= 2
  }

  /** A request that stands for the claim would be granted. */
  ghost predicate ClaimWouldBeGranted(index: Option<Index>, s: Ledger, robot: u64, targets: seq<Target>, accessMode: Option<u64>,
                                      leaseSeconds: Option<u64>, now: u64) {
    exists q :: StandsFor(q, robot, targets, accessMode, leaseSeconds, now) && WouldGrant(index, s, q)
  }

  lemma SameHoldingSameAnswer(index: Option<Index>, s: Ledger, p: Request, q: Request)
    requires p.Held() == q.Held()
    ensures WouldGrant(index, s, p) <==> WouldGrant(index, s, q)
  {
    var p', q' := p.(id := MintedId(s)), q.(id := MintedId(s));
    assert forall r :: Rival(r, p') <==> Rival(r, q');
    assert forall l :: RivalLease(l, p') <==> RivalLease(l, q');
    if index.Some? {
      SameCounts(index.value, AfterMint(s), p', q');
    }
  }

  lemma SameOccupants(ix: Index, s: Ledger, p: Request, q: Request, edge: Target, zone: Id)
    requires p.Held() == q.Held() && p.id == q.id
    ensures EdgeOccupants(s, p, edge) == EdgeOccupants(s, q, edge)
    ensures ZoneOccupants(ix, s, p, zone) == ZoneOccupants(ix, s, q, zone)
  {
    assert p.robot == q.robot && p.window == q.window;
  }

  lemma SameCounts(ix: Index, s: Ledger, p: Request, q: Request)
    requires p.Held() == q.Held() && p.id == q.id
    ensures EdgesWithinCapacity(ix, s, p) <==> EdgesWithinCapacity(ix, s, q)
    ensures ZonesWithinLimit(ix, s, p) <==> ZonesWithinLimit(ix, s, q)
  {
    assert p.targets == q.targets && p.mode == q.mode;
    forall t ensures EdgeWithinCapacity(ix, s, p, t) <==> EdgeWithinCapacity(ix, s, q, t) {
      SameOccupants(ix, s, p, q, t, t.resource);
    }
    forall zone ensures ZoneWithinLimit(ix, s, p, zone) <==> ZoneWithinLimit(ix, s, q, zone) {
      SameOccupants(ix, s, p, q, Target(Zone, zone), zone);
    }
  }

  /** The one request the call builds decides the claim. */
  lemma WireRequestDecides(index: Option<Index>, s: Ledger, robot: u64, targets: seq<Target>, accessMode: Option<u64>,
                           leaseSeconds: Option<u64>, now: u64)
    ensures
      var q := WireRequest(robot, ModeOf(accessMode), WindowFor(now, leaseSeconds), targets);
      && (forall id :: StandsFor(q.(id := id), robot, targets, accessMode, leaseSeconds, now))
      && (ClaimWouldBeGranted(index, s, robot, targets, accessMode, leaseSeconds, now) <==> WouldGrant(index, s, q))
  {
    var q := WireRequest(robot, ModeOf(accessMode), WindowFor(now, leaseSeconds), targets);
    WireRequestStandsForTheClaim(robot, targets, accessMode, leaseSeconds, now);
    forall p | StandsFor(p, robot, targets, accessMode, leaseSeconds, now)
      ensures WouldGrant(index, s, p) <==> WouldGrant(index, s, q)
    {
      SameHoldingSameAnswer(index, s, p, q);
    }
  }

  /** Resolves the requested targets one by one. */
  method FirstMissing(ix: Index, requested: seq<Target>) returns (missing: Option<Target>)
    ensures missing.None? <==> forall t | t in requested :: TargetExists(ix, t)
    ensures missing.Some? ==> missing.value in requested && !TargetExists(ix, missing.value)
  {
    for i := 0 to |requested|
      invariant forall t | t in requested[..i] :: TargetExists(ix, t)
    {
      if !TargetExists(ix, requested[i]) {
        return Some(requested[i]);
      }
    }
    return None;
  }

  class Coordinator {
    const claims: Manager
    var robotAlive: map<u64, AliveInfo>

    constructor (index: Option<Index>)
      ensures fresh(claims) && claims.index == index && claims.Model() == EMPTY_LEDGER
      ensures robotAlive == map[]
    {
      claims := new Manager(index);
      robotAlive := map[];
    }

    /** Records the interval a robot promised and stamps it as just seen. */
    method SetAlive(robot: u64, intervalSecs: u64, now: u64)
      modifies this`robotAlive
      ensures robotAlive == old(robotAlive)[robot := AliveInfo(if intervalSecs == 0 then DEFAULT_ALIVE_SECS else intervalSecs, now)]
      ensures RobotActiveAt(robot, now)
    {
      var interval := if intervalSecs == 0 then DEFAULT_ALIVE_SECS else intervalSecs;
      robotAlive := robotAlive[robot := AliveInfo(interval, now)];
    }

    /** Refreshes a known robot's last-seen time. */
    method TouchRobot(robot: u64, now: u64)
      modifies this`robotAlive
      ensures robotAlive.Keys == old(robotAlive).Keys
      ensures forall r | r in robotAlive ::
                robotAlive[r] == if r == robot then old(robotAlive)[r].(lastSeenMs := now) else old(robotAlive)[r]
      ensures RobotActiveAt(robot, now)
    {
      if robot in robotAlive {
        robotAlive := robotAlive[robot := robotAlive[robot].(lastSeenMs := now)];
      }
    }

    /** A robot that never promised an interval counts as active. */
    predicate RobotActiveAt(robot: u64, now: u64)
      reads this
    {
      robot in robotAlive ==> !Silent(robotAlive[robot], now)
    }

    /** The robots gone silent, in ascending order. */
    method InactiveRobotsAt(now: u64) returns (robots: seq<u64>)
      ensures forall robot :: robot in robots <==> !RobotActiveAt(robot, now)
      ensures forall robot :: robot in robots <==>
                robot in robotAlive && now > robotAlive[robot].lastSeenMs + 2000 * robotAlive[robot].intervalSecs
      ensures StrictlyAscending(robots)
    {
      var alive := robotAlive;
      robots := Filter(Ascending(alive.Keys), (r: u64) => r in alive && Silent(alive[r], now));
      FilterKeepsPairwise(Ascending(alive.Keys), (r: u64) => r in alive && Silent(alive[r], now), (a: u64, b: u64) => a < b);
    }

    /** Drops the claims whose window has closed. */
    method ExpireClaims(now: u64) returns (expired: nat)
      modifies claims
      ensures claims.index == old(claims.index)
      ensures claims.Model() == AfterExpiry(old(claims.Model()), now)
      ensures expired == |old(claims.activeRequests)| - |claims.activeRequests| + |old(claims.activeLeases)| - |claims.activeLeases|
    {
      var requests := claims.ExpireRequests(now);
      var leases := claims.ExpireLeases(now);
      expired := requests + leases;
    }

    /** Drops a robot's requests and archives its leases. */
    method ReleaseRobot(robot: u64, now: u64) returns (held: bool)
      modifies claims
      ensures claims.index == old(claims.index)
      ensures claims.Model() == FreeRobot(old(claims.Model()), robot, now)
      ensures held <==> HoldsAnything(old(claims.Model()), robot)
    {
      var removed := claims.RemoveRequestsForRobot(robot);
      var released := claims.ReleaseLeasesForRobot(robot, Some(now));
      RemovalCounts(old(claims.Model()), robot, now);
      held := removed + released > 0;
    }

    /** Frees every silent robot, and reports those that held something. */
    method SweepInactive(now: u64) returns (freed: seq<u64>, ghost silent: seq<u64>)
      modifies claims
      ensures claims.index == old(claims.index)
      ensures forall robot :: robot in silent <==> !RobotActiveAt(robot, now)
      ensures claims.Model() == Sweep(old(claims.Model()), silent, now)
      ensures forall robot :: robot in freed <==> robot in silent && HoldsAnything(old(claims.Model()), robot)
    {
      freed := [];
      var robots := InactiveRobotsAt(now);
      for i := 0 to |robots|
        invariant claims.index == old(claims.index) && robotAlive == old(robotAlive)
        invariant claims.Model() == Sweep(old(claims.Model()), robots[..i], now)
        invariant forall robot :: robot in freed <==> robot in robots[..i] && HoldsAnything(old(claims.Model()), robot)
      {
        SweepKeepsOthers(old(claims.Model()), robots[..i], now);
        assert robots[i] !in robots[..i];
        assert HoldsAnything(claims.Model(), robots[i]) <==> HoldsAnything(old(claims.Model()), robots[i]);
        var held := ReleaseRobot(robots[i], now);
        assert robots[..i + 1][..i] == robots[..i];
        if held {
          freed := freed + [robots[i]];
        }
        assert robots[..i + 1] == robots[..i] + [robots[i]];
      }
      assert robots[..|robots|] == robots;
      silent := robots;
    }

    /** The periodic sweep: expire, then free the silent. */
    method SweepNow(now: u64) returns (freed: seq<u64>, ghost silent: seq<u64>)
      modifies claims
      ensures forall robot :: robot in silent <==> !RobotActiveAt(robot, now)
      ensures claims.Model() == Sweep(AfterExpiry(old(claims.Model()), now), silent, now)
      ensures forall r | r in claims.activeRequests ::
                (r.window.end.Some? ==> now < r.window.end.value) && RobotActiveAt(r.robot, now)
      ensures forall l | l in claims.activeLeases ::
                (l.expiresAt.Some? ==> now < l.expiresAt.value) && RobotActiveAt(l.robot, now)
      ensures Stock(claims.Model()) == Stock(old(claims.Model()))
    {
      var expired := ExpireClaims(now);
      freed, silent := SweepInactive(now);
      ExpireThenSweepLeavesExactly(old(claims.Model()), silent, now);
      ExpireThenSweepConservesLeases(old(claims.Model()), silent, now);
      assert claims.activeRequests == claims.Model().requests && claims.activeLeases == claims.Model().leases;
    }

    /** Mints an id, evaluates, and records the claim if it is granted. */
    method RecordClaim(request: Request) returns (evaluation: Evaluation)
      requires claims.index.Some? ==> TreeShaped(claims.index.value)
      modifies claims
      ensures claims.index == old(claims.index)
      ensures claims.Model() == Acquire(claims.index, old(claims.Model()), request)
      ensures evaluation.decision == Grant <==> WouldGrant(claims.index, old(claims.Model()), request)
      ensures Explains(claims.index, AfterMint(old(claims.Model())), request.(id := MintedId(old(claims.Model()))), evaluation)
      ensures evaluation.decision == Grant ==> exists r | r in claims.activeRequests :: r == request.(id := r.id)
    {
      var id := claims.NextRequestId();
      var q := request.(id := id);
      evaluation := claims.EvaluateRequest(q);
      if evaluation.decision == Grant {
        UpsertRecords(claims.activeRequests, q);
        assert q == request.(id := q.id);
        var replaced := claims.UpsertRequestForRobot(q);
      }
    }

    /** Resolves the targets of a request and has it evaluated and recorded. */
    method ClaimTargets(q: Request) returns (reply: Reply, ghost evaluated: bool)
      requires claims.index.Some? ==> TreeShaped(claims.index.value)
      modifies claims
      ensures claims.index == old(claims.index)
      ensures claims.Model() == if evaluated then Acquire(claims.index, old(claims.Model()), q) else old(claims.Model())
      ensures reply.code == OK <==>
                |q.targets| <= MAX_CLAIM_TARGETS && claims.index.Some? && WouldGrant(claims.index, old(claims.Model()), q)
      ensures reply.code == OK ==> exists r | r in claims.activeRequests :: r == q.(id := r.id)
      ensures reply.code == BAD_REQUEST <==> q.targets == [] || |q.targets| > MAX_CLAIM_TARGETS || claims.index.None?
      ensures reply.code == UNKNOWN_RESOURCE <==>
                && 1 <= |q.targets| <= MAX_CLAIM_TARGETS && claims.index.Some?
                && exists t | t in q.targets :: !TargetExists(claims.index.value, t)
      ensures reply.code != MISMATCHED_KEY && reply.code != NO_SUCH_CLAIM
      ensures reply.code == CAPACITY ==> NobodyConflicts(claims.index, old(claims.Model()), q)
      ensures reply.code == CONFLICT && NobodyConflicts(claims.index, old(claims.Model()), q) ==> EntersSingleSeat(claims.index, q.targets)
    {
      evaluated := false;
      ghost var was := claims.Model();
      if q.targets == [] || |q.targets| > MAX_CLAIM_TARGETS || claims.index.None? {
        return Reply(BAD_REQUEST, None), evaluated;
      }
      var missing := FirstMissing(claims.index.value, q.targets);
      if missing.Some? {
        return Reply(UNKNOWN_RESOURCE, missing), evaluated;
      }
      var evaluation := RecordClaim(q);
      evaluated := true;
      if evaluation.decision == Grant {
        return Reply(OK, None), evaluated;
      }
      RefusalsByKind(claims.index, AfterMint(was), q.(id := MintedId(was)), evaluation);
      return Reply(if evaluation.deniedByCapacity then CAPACITY else CONFLICT, evaluation.blockingTarget), evaluated;
    }

    /** A claim over the flat wire: expire, resolve, mint, evaluate, record.
        Authentication has been decided by the caller. */
    method FlatClaim(now: u64, robot: Option<u64>, authorized: bool, requested: seq<Target>, accessMode: Option<u64>,
                     leaseSeconds: Option<u64>)
      returns (reply: Reply, ghost ops: seq<Op>)
      requires claims.index.Some? ==> TreeShaped(claims.index.value)
      modifies claims
      ensures claims.index == old(claims.index)
      ensures claims.Model() == Run(System(claims.index, old(claims.Model())), ops).ledger
      ensures IdsRemain(old(claims.Model())) ==> AllowedRun(System(claims.index, old(claims.Model())), ops)
      ensures !KnownMode(accessMode) ==> reply.code == BAD_REQUEST && ops == []
      ensures reply.code == MISMATCHED_KEY <==> KnownMode(accessMode) && (robot.None? || !authorized)
      ensures reply.code == OK <==>
                && KnownMode(accessMode) && robot.Some? && authorized && |requested| <= MAX_CLAIM_TARGETS && claims.index.Some?
                && ClaimWouldBeGranted(claims.index, AfterExpiry(old(claims.Model()), now), robot.value, requested, accessMode, leaseSeconds, now)
      ensures reply.code == OK ==> Recorded(robot.value, requested, accessMode, leaseSeconds, now)
      ensures reply.code == UNKNOWN_RESOURCE <==>
                && KnownMode(accessMode) && robot.Some? && authorized && 1 <= |requested| <= MAX_CLAIM_TARGETS && claims.index.Some?
                && exists t | t in requested :: !TargetExists(claims.index.value, t)
      ensures reply.code != NO_SUCH_CLAIM
    {
      ops := [];
      if accessMode.GetOr(1) > 2 {
        return Reply(BAD_REQUEST, None), ops;
      }
      var expired := ExpireClaims(now);
      ops := [ExpireRequestsOp(now), ExpireLeasesOp(now)];
      RunExpires(System(claims.index, old(claims.Model())), now, []);
      assert ops + [] == ops;
      if robot.None? || !authorized {
        return Reply(MISMATCHED_KEY, None), ops;
      }
      var q := WireRequest(robot.value, ModeOf(accessMode), WindowFor(now, leaseSeconds), requested);
      WireRequestDecides(claims.index, claims.Model(), robot.value, requested, accessMode, leaseSeconds, now);
      ghost var evaluated;
      reply, evaluated := ClaimTargets(q);
      if evaluated {
        RunAcquires(System(claims.index, old(claims.Model())), now, q);
        ops := ops + [AcquireOp(q)];
      }
    }

    /** The robot has a live claim as it asked for it. */
    predicate Recorded(robot: u64, targets: seq<Target>, accessMode: Option<u64>, leaseSeconds: Option<u64>, now: u64)
      reads claims
    {
      exists r | r in claims.activeRequests :: StandsFor(r, robot, targets, accessMode, leaseSeconds, now)
    }

    /** A release over the flat wire. */
    method FlatRelease(robot: Option<u64>, authorized: bool, target: Target) returns (reply: Reply, ghost ops: seq<Op>)
      modifies claims
      ensures claims.index == old(claims.index)
      ensures claims.Model() == Run(System(claims.index, old(claims.Model())), ops).ledger
      ensures AllowedRun(System(claims.index, old(claims.Model())), ops)
      ensures reply.code == OK ==> robot.Some? && ops == [ReleaseTargetOp(robot.value, target.resource)]
      ensures reply.code == OK ==> |claims.activeRequests| == |old(claims.activeRequests)| - 1
      ensures reply.code != OK ==> claims.Model() == old(claims.Model())
      ensures reply.code == MISMATCHED_KEY <==> robot.None? || !authorized
      ensures reply.code == UNKNOWN_RESOURCE <==>
                robot.Some? && authorized && (claims.index.None? || !TargetExists(claims.index.value, target))
      ensures reply.code == OK <==>
                && robot.Some? && authorized && claims.index.Some? && TargetExists(claims.index.value, target)
                && exists r | r in old(claims.activeRequests) :: r.robot == robot.value && exists t | t in r.targets :: t.resource == target.resource
      ensures reply.code in {OK, MISMATCHED_KEY, UNKNOWN_RESOURCE, NO_SUCH_CLAIM}
    {
      ops := [];
      if robot.None? || !authorized {
        return Reply(MISMATCHED_KEY, None), ops;
      }
      if claims.index.None? || !TargetExists(claims.index.value, target) {
        return Reply(UNKNOWN_RESOURCE, None), ops;
      }
      var removed := claims.ReleaseRequestForRobotTarget(robot.value, target.resource);
      ops := [ReleaseTargetOp(robot.value, target.resource)];
      assert ops[1..] == [];
      return Reply(if removed then OK else NO_SUCH_CLAIM, None), ops;
    }
  }

  lemma RemovalCounts(s: Ledger, robot: u64, now: u64)
    ensures HoldsAnything(s, robot) <==>
              |FreeRobot(s, robot, now).requests| < |s.requests| || |FreeRobot(s, robot, now).leases| < |s.leases|
  {
    FilterAllOrShorter(s.requests, (r: Request) => r.robot != robot);
    StayingAllOrShorter(s.leases, (l: Lease) => l.robot == robot);
  }

  lemma {:induction false} StayingAllOrShorter(leases: seq<Lease>, goes: Lease -> bool)
    ensures |Staying(leases, goes)| <= |leases|
    ensures |Staying(leases, goes)| == |leases| <==> forall l | l in leases :: !goes(l)
  {
    if leases != [] {
      StayingAllOrShorter(leases[1..], goes);
      assert leases == [leases[0]] + leases[1..];
    }
  }

  lemma StepExpires(sys: System, now: u64)
    ensures Step(Step(sys, ExpireRequestsOp(now)), ExpireLeasesOp(now)) == System(sys.index, AfterExpiry(sys.ledger, now))
    ensures Allowed(sys, ExpireRequestsOp(now)) && Allowed(Step(sys, ExpireRequestsOp(now)), ExpireLeasesOp(now))
  {
  }

  lemma RunExpires(sys: System, now: u64, rest: seq<Op>)
    ensures Run(sys, [ExpireRequestsOp(now), ExpireLeasesOp(now)] + rest)
         == Run(System(sys.index, AfterExpiry(sys.ledger, now)), rest)
    ensures AllowedRun(sys, [ExpireRequestsOp(now), ExpireLeasesOp(now)] + rest)
        <==> AllowedRun(System(sys.index, AfterExpiry(sys.ledger, now)), rest)
  {
    var a, b := ExpireRequestsOp(now), ExpireLeasesOp(now);
    var end := System(sys.index, AfterExpiry(sys.ledger, now));
    assert Step(Step(sys, a), b) == end && Allowed(sys, a) && Allowed(Step(sys, a), b) by {
      StepExpires(sys, now);
    }
    RunTwo(sys, a, b, rest);
  }

  lemma RunTwo(sys: System, a: Op, b: Op, rest: seq<Op>)
    ensures Run(sys, [a, b] + rest) == Run(Step(Step(sys, a), b), rest)
    ensures AllowedRun(sys, [a, b] + rest)
        <==> Allowed(sys, a) && Allowed(Step(sys, a), b) && AllowedRun(Step(Step(sys, a), b), rest)
  {
    assert [a, b] + rest == [a] + ([b] + rest);
    RunCons(sys, a, [b] + rest);
    RunCons(Step(sys, a), b, rest);
  }

  lemma RunAcquires(sys: System, now: u64, q: Request)
    ensures Run(sys, [ExpireRequestsOp(now), ExpireLeasesOp(now)] + [AcquireOp(q)]).ledger
         == Acquire(sys.index, AfterExpiry(sys.ledger, now), q)
    ensures IdsRemain(sys.ledger) ==>
              AllowedRun(sys, [ExpireRequestsOp(now), ExpireLeasesOp(now)] + [AcquireOp(q)])
  {
    RunExpires(sys, now, [AcquireOp(q)]);
    RunCons(System(sys.index, AfterExpiry(sys.ledger, now)), AcquireOp(q), []);
    assert [AcquireOp(q)] + [] == [AcquireOp(q)];
    assert forall r | r in AfterExpiry(sys.ledger, now).requests :: r in sys.ledger.requests;
  }

  lemma UpsertRecords(requests: seq<Request>, q: Request)
    ensures q in UpsertForRobot(requests, q)
  {
    var i := FirstIndex(requests, (a: Request) => a.robot == q.robot && SameTargetSet(a.targets, q.targets));
    if i < |requests| {
      assert requests[i := q][i] == q;
    }
  }
}
