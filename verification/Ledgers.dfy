/** The claim ledger as a value: when a request is granted, and what every
    ledger operation does to the entries. */
module Ledgers {
  import opened Basics
  import opened Workspace
  import opened Claims
  import opened Compatibility

  datatype Ledger = Ledger(requests: seq<Request>, leases: seq<Lease>, released: seq<Lease>, nextId: u64)

  const EMPTY_LEDGER: Ledger := Ledger([], [], [], 1)

  // ---------------------------------------------------------------------------
  // when a request is granted
  // ---------------------------------------------------------------------------

  /** The request under evaluation skips a live request of its own robot, and
      one that carries its own id. */
  predicate Rival(r: Request, q: Request) {
    r.id != q.id && r.robot != q.robot
  }

  predicate UnusedRequestId(s: Ledger, id: u64) {
    forall r | r in s.requests :: r.id != id
  }

  predicate RivalLease(l: Lease, q: Request) {
    l.active && l.robot != q.robot
  }

  predicate TargetsExist(index: Option<Index>, targets: seq<Target>) {
    index.Some? ==> forall t | t in targets :: TargetExists(index.value, t)
  }

  /** The capacity a shared edge claim is counted against, if any. */
  function EdgeCapacity(ix: Index, edge: Id): (capacity: Option<u64>)
    ensures capacity.Some? ==> capacity.value > 1
  {
    if edge in ix.edges && ix.edges[edge].semantics.capacityIsExplicit
       && ix.edges[edge].semantics.capacity.GetOr(0) > 1
    then ix.edges[edge].semantics.capacity
    else None
  }

  function ZoneLimit(ix: Index, zone: Id): Option<u64> {
    if zone in ix.zones then ZoneOccupancyLimit(ix.zones[zone]) else None
  }

  predicate CountsOnEdge(r: Holding, q: Request, edge: Target) {
    r.mode == Shared && WindowsOverlap(q.window, r.window) && edge in r.targets
  }

  predicate CountsInZone(ix: Index, r: Holding, q: Request, zone: Id) {
    WindowsOverlap(q.window, r.window) && TargetsOccupyZone(ix, r.targets, zone)
  }

  /** The robots a shared claim by `q` would put on `edge` together. */
  function EdgeOccupants(s: Ledger, q: Request, edge: Target): (robots: set<u64>)
    ensures q.robot in robots
  {
    {q.robot}
    + (set r | r in s.requests && Rival(r, q) && CountsOnEdge(r.Held(), q, edge) :: r.robot)
    + (set l | l in s.leases && RivalLease(l, q) && CountsOnEdge(l.Held(), q, edge) :: l.robot)
  }

  /** The robots a claim by `q` would put in `zone` together. */
  function ZoneOccupants(ix: Index, s: Ledger, q: Request, zone: Id): (robots: set<u64>)
    ensures q.robot in robots
  {
    {q.robot}
    + (set r | r in s.requests && Rival(r, q) && CountsInZone(ix, r.Held(), q, zone) :: r.robot)
    + (set l | l in s.leases && RivalLease(l, q) && CountsInZone(ix, l.Held(), q, zone) :: l.robot)
  }

  predicate EdgeWithinCapacity(ix: Index, s: Ledger, q: Request, edge: Target) {
    EdgeCapacity(ix, edge.resource).Some? ==> |EdgeOccupants(s, q, edge)| <= EdgeCapacity(ix, edge.resource).value
  }

  predicate ZoneWithinLimit(ix: Index, s: Ledger, q: Request, zone: Id) {
    ZoneLimit(ix, zone).Some? ==> |ZoneOccupants(ix, s, q, zone)| <= ZoneLimit(ix, zone).value
  }

  predicate EdgesWithinCapacity(ix: Index, s: Ledger, q: Request) {
    q.mode == Shared ==> forall t | t in q.targets && t.kind == Edge :: EdgeWithinCapacity(ix, s, q, t)
  }

  predicate ZonesWithinLimit(ix: Index, s: Ledger, q: Request) {
    forall z | z in ix.zones && Occupies(ix, q.targets, z) :: ZoneWithinLimit(ix, s, q, z)
  }

  predicate CompatibleWithRequests(index: Option<Index>, s: Ledger, q: Request) {
    forall r | r in s.requests && Rival(r, q) :: Compatible(index, q.Held(), r.Held())
  }

  predicate CompatibleWithLeases(index: Option<Index>, s: Ledger, q: Request) {
    forall l | l in s.leases && RivalLease(l, q) :: Compatible(index, q.Held(), l.View())
  }

  /** The decision of an evaluation: granted, or not. */
  predicate Grants(index: Option<Index>, s: Ledger, q: Request) {
    && q.targets != []
    && TargetsExist(index, q.targets)
    && CompatibleWithRequests(index, s, q)
    && CompatibleWithLeases(index, s, q)
    && (index.Some? ==> EdgesWithinCapacity(index.value, s, q) && ZonesWithinLimit(index.value, s, q))
  }

  // ---------------------------------------------------------------------------
  // what the operations do
  // ---------------------------------------------------------------------------

  function MaxOf(ids: seq<u64>): (m: Option<u64>)
    ensures m.None? <==> ids == []
    ensures m.Some? ==> m.value in ids && forall i | i in ids :: i <= m.value
  {
    if ids == [] then None
    else
      var rest := MaxOf(ids[1..]);
      assert ids == [ids[0]] + ids[1..];
      if rest.Some? && rest.value > ids[0] then rest else Some(ids[0])
  }

  /** Every id a fresh claim must stay clear of. */
  function LiveIds(s: Ledger): (ids: seq<u64>)
  {
    Map(s.requests, (r: Request) => r.id) + Map(s.leases, (l: Lease) => l.claimId)
  }

  lemma LiveIdsExactly(s: Ledger, id: u64)
    ensures id in LiveIds(s) <==> (exists r | r in s.requests :: r.id == id) || (exists l | l in s.leases :: l.claimId == id)
  {
    var n := |s.requests|;
    if id in LiveIds(s) {
      var i :| 0 <= i < |LiveIds(s)| && LiveIds(s)[i] == id;
      if i < n {
        assert s.requests[i] in s.requests && s.requests[i].id == id;
      } else {
        assert s.leases[i - n] in s.leases && s.leases[i - n].claimId == id;
      }
    }
    forall i | 0 <= i < n ensures s.requests[i].id in LiveIds(s) {
      assert LiveIds(s)[i] == s.requests[i].id;
    }
    forall i | 0 <= i < |s.leases| ensures s.leases[i].claimId in LiveIds(s) {
      assert LiveIds(s)[n + i] == s.leases[i].claimId;
    }
  }

  /** One past the largest live id, saturating; 1 when there is none. */
  function IdFloor(s: Ledger): (floor: u64)
    ensures floor >= 1
  {
    match MaxOf(LiveIds(s))
    case None => 1
    case Some(m) => Max(SaturatingAdd(m, 1), 1)
  }

  function MintedId(s: Ledger): (id: u64)
    ensures id >= s.nextId && id >= IdFloor(s)
  {
    Max(s.nextId, IdFloor(s))
  }

  function AfterMint(s: Ledger): Ledger {
    s.(nextId := SaturatingAdd(MintedId(s), 1))
  }

  function UpsertForRobot(requests: seq<Request>, q: Request): (r: seq<Request>)
  {
    var i := FirstIndex(requests, (a: Request) => a.robot == q.robot && SameTargetSet(a.targets, q.targets));
    if i < |requests| then requests[i := q] else requests + [q]
  }

  function RemoveFirst<T>(s: seq<T>, p: T -> bool): (r: seq<T>)
    ensures forall x | x in r :: x in s
  {
    var i := FirstIndex(s, p);
    if i < |s| then RemoveAt(s, i) else s
  }

  function UpsertLease(leases: seq<Lease>, lease: Lease): (r: seq<Lease>)
  {
    var i := FirstIndex(leases, (l: Lease) => l.id == lease.id);
    if i < |leases| then leases[i := lease] else leases + [lease]
  }

  function Archived(lease: Lease, how: Disposition, at: Option<u64>): Lease {
    lease.(active := false, disposition := how, releasedAt := at)
  }

  function ArchivedRevoked(lease: Lease, reason: string, at: u64): Lease {
    Archived(lease, Revoked, Some(at)).(revokedAt := Some(at), revokeReason := Some(reason))
  }

  predicate RequestEnded(r: Request, now: u64) {
    r.window.end.Some? && r.window.end.value <= now
  }

  predicate LeaseEnded(l: Lease, now: u64) {
    l.expiresAt.Some? && l.expiresAt.value <= now
  }

  function Staying(leases: seq<Lease>, goes: Lease -> bool): (kept: seq<Lease>) {
    if leases == [] then []
    else if goes(leases[0]) then Staying(leases[1..], goes)
    else [leases[0]] + Staying(leases[1..], goes)
  }

  function Leaving(leases: seq<Lease>, goes: Lease -> bool, how: Disposition, at: Option<u64>): (gone: seq<Lease>) {
    if leases == [] then []
    else if goes(leases[0]) then [Archived(leases[0], how, at)] + Leaving(leases[1..], goes, how, at)
    else Leaving(leases[1..], goes, how, at)
  }

  /** Exactly the leases that `goes` does not select stay. */
  lemma {:induction false} StayingMembers(leases: seq<Lease>, goes: Lease -> bool)
    ensures forall l :: l in Staying(leases, goes) <==> l in leases && !goes(l)
  {
    if leases != [] {
      StayingMembers(leases[1..], goes);
      assert leases == [leases[0]] + leases[1..];
    }
  }

  /** Moves every lease that `goes` selects to the released ledger, in order. */
  function ArchiveWhere(s: Ledger, goes: Lease -> bool, how: Disposition, at: Option<u64>): Ledger {
    s.(leases := Staying(s.leases, goes), released := s.released + Leaving(s.leases, goes, how, at))
  }

  function RemoveRequest(s: Ledger, id: u64): Ledger {
    s.(requests := RemoveFirst(s.requests, (r: Request) => r.id == id))
  }

  function RemoveRobotRequests(s: Ledger, robot: u64): Ledger {
    s.(requests := Filter(s.requests, (r: Request) => r.robot != robot))
  }

  function ReleaseTarget(s: Ledger, robot: u64, resource: Id): Ledger {
    s.(requests := RemoveFirst(s.requests,
         (r: Request) => r.robot == robot && exists t | t in r.targets :: t.resource == resource))
  }

  function ExpireRequests(s: Ledger, now: u64): Ledger {
    s.(requests := Filter(s.requests, (r: Request) => !RequestEnded(r, now)))
  }

  function ExpireLeases(s: Ledger, now: u64): Ledger {
    ArchiveWhere(s, (l: Lease) => LeaseEnded(l, now), Expired, Some(now))
  }

  function ReleaseRobotLeases(s: Ledger, robot: u64, at: Option<u64>): Ledger {
    ArchiveWhere(s, (l: Lease) => l.robot == robot, Released, at)
  }

  function RemoveLease(s: Ledger, id: u64): Ledger {
    s.(leases := RemoveFirst(s.leases, (l: Lease) => l.id == id))
  }

  /** Archives the first lease with this id, if there is one. */
  function ArchiveLease(s: Ledger, id: u64, archive: Lease -> Lease): Ledger {
    var i := FirstIndex(s.leases, (l: Lease) => l.id == id);
    if i < |s.leases| then
      s.(leases := RemoveAt(s.leases, i), released := s.released + [archive(s.leases[i])])
    else s
  }

  function ReleaseLease(s: Ledger, id: u64, at: Option<u64>): Ledger {
    ArchiveLease(s, id, l => Archived(l, Released, at))
  }

  function RevokeLease(s: Ledger, id: u64, reason: string, at: u64): Ledger {
    ArchiveLease(s, id, l => ArchivedRevoked(l, reason, at))
  }

  function Refreshed(l: Lease, at: u64, expires: Option<u64>): Lease {
    var touched := l.(refreshedAt := Some(at));
    if expires.Some? then touched.(expiresAt := expires) else touched
  }

  function RefreshLease(s: Ledger, id: u64, at: u64, expires: Option<u64>): Ledger {
    var i := FirstIndex(s.leases, (l: Lease) => l.id == id);
    if i < |s.leases| then s.(leases := s.leases[i := Refreshed(s.leases[i], at, expires)]) else s
  }

  /** What a snapshot keeps and a restore brings back: everything, with the
      counter floored at one. */
  function Restored(s: Ledger): Ledger {
    s.(nextId := Max(s.nextId, 1))
  }

  function Cleared(s: Ledger): Ledger {
    s.(requests := [], leases := [], released := [])
  }

  /** Mint, evaluate, and record on a grant: the only way in for a request. */
  function Acquire(index: Option<Index>, s: Ledger, q: Request): Ledger {
    var minted := AfterMint(s);
    var claim := q.(id := MintedId(s));
    if Grants(index, minted, claim) then minted.(requests := UpsertForRobot(minted.requests, claim)) else minted
  }
}
