/** Requests, leases and the rules that decide whether two of them may coexist.

    The conflict rules read only the access mode, the window and the targets of
    a claim, so they are stated on a `Holding`: what a robot would hold. */
module Claims {
  import opened Basics
  import opened Workspace

  datatype TargetKind = Zone | Node | Edge

  datatype AccessMode = Shared | Exclusive

  datatype Disposition = Active | Released | Expired | Revoked

  /** A closed tick interval; a missing bound is open. */
  datatype Window = Window(start: Option<u64>, end: Option<u64>)

  const UNBOUNDED: Window := Window(None, None)

  datatype Target = Target(kind: TargetKind, resource: Id)

  datatype Holding = Holding(robot: u64, mode: AccessMode, window: Window, targets: seq<Target>)

  datatype Request = Request(
    id: u64,
    robot: u64,
    mission: u64,
    mode: AccessMode,
    priority: u64,
    requestedAt: Option<u64>,
    window: Window,
    targets: seq<Target>)
  {
    function Held(): Holding {
      Holding(robot, mode, window, targets)
    }
  }

  datatype Lease = Lease(
    id: u64,
    claimId: u64,
    robot: u64,
    mode: AccessMode,
    targets: seq<Target>,
    grantedAt: Option<u64>,
    expiresAt: Option<u64>,
    refreshedAt: Option<u64>,
    releasedAt: Option<u64>,
    revokedAt: Option<u64>,
    revokeReason: Option<string>,
    disposition: Disposition,
    active: bool)
  {
    /** What the robot really holds: from the grant to the expiry. */
    function Held(): Holding {
      Holding(robot, mode, Window(grantedAt, expiresAt), targets)
    }

    /** What the conflict check compares against: it drops the start. */
    function View(): Holding {
      Holding(robot, mode, Window(None, expiresAt), targets)
    }
  }

  // ---------------------------------------------------------------------------
  // windows
  // ---------------------------------------------------------------------------

  function Start(w: Window): u64 {
    w.start.GetOr(0)
  }

  function End(w: Window): u64 {
    w.end.GetOr(0xFFFF_FFFF_FFFF_FFFF)
  }

  predicate Covers(w: Window, tick: u64) {
    Start(w) <= tick <= End(w)
  }

  predicate WindowsOverlap(lhs: Window, rhs: Window) {
    Start(lhs) <= End(rhs) && Start(rhs) <= End(lhs)
  }

  /** Two windows that end no earlier than they start overlap exactly when some
      tick lies in both; a missing start is tick 0 and a missing end the last. */
  lemma WindowsOverlapExactly(lhs: Window, rhs: Window)
    requires Start(lhs) <= End(lhs) && Start(rhs) <= End(rhs)
    ensures WindowsOverlap(lhs, rhs) <==> exists tick: u64 :: Covers(lhs, tick) && Covers(rhs, tick)
    ensures forall tick: u64 :: Covers(lhs, tick) <==>
              (lhs.start.Some? ==> lhs.start.value <= tick) && (lhs.end.Some? ==> tick <= lhs.end.value)
  {
    if WindowsOverlap(lhs, rhs) {
      var tick: u64 := Max(Start(lhs), Start(rhs));
      assert Covers(lhs, tick) && Covers(rhs, tick);
    }
  }

  // ---------------------------------------------------------------------------
  // places
  // ---------------------------------------------------------------------------

  /** The zones a node or edge target lists; none for a zone target. */
  function ZonesOf(ix: Index, target: Target): (zones: seq<Id>)
    ensures forall z | z in zones :: z in ix.zones
  {
    match target.kind
    case Zone => []
    case Node => ZonesOfNode(ix, target.resource)
    case Edge => ZonesOfEdge(ix, target.resource)
  }

  /** A node or edge that lies in `zone`, at any depth. */
  predicate LiesInside(ix: Index, target: Target, zone: Id) {
    exists z | z in ZonesOf(ix, target) :: ZoneContains(ix, zone, z)
  }

  predicate ZonesOverlap(ix: Index, lhs: Id, rhs: Id) {
    ZoneContains(ix, rhs, lhs) || ZoneContains(ix, lhs, rhs)
  }

  predicate TargetExists(ix: Index, target: Target) {
    match target.kind
    case Zone => target.resource in ix.zones
    case Node => target.resource in ix.nodes
    case Edge => target.resource in ix.edges
  }

  /** The target puts a robot in `zone`: it is the zone, a zone below it, or a
      node or edge in one of those. */
  predicate TargetOccupies(ix: Index, target: Target, zone: Id) {
    if target.kind == Zone then ZoneContains(ix, zone, target.resource)
    else LiesInside(ix, target, zone)
  }

  predicate Occupies(ix: Index, targets: seq<Target>, zone: Id) {
    exists t | t in targets :: TargetOccupies(ix, t, zone)
  }

  /** The wider relation the occupancy counter uses for other robots: a zone
      target also counts against the zones below it. */
  predicate TargetTouches(ix: Index, target: Target, zone: Id) {
    if target.kind == Zone then ZonesOverlap(ix, target.resource, zone)
    else LiesInside(ix, target, zone)
  }

  predicate TargetsOccupyZone(ix: Index, targets: seq<Target>, zone: Id) {
    exists t | t in targets :: TargetTouches(ix, t, zone)
  }

  lemma OccupiesImpliesTouches(ix: Index, targets: seq<Target>, zone: Id)
    requires Occupies(ix, targets, zone)
    ensures TargetsOccupyZone(ix, targets, zone)
  {
    var t :| t in targets && TargetOccupies(ix, t, zone);
    assert TargetTouches(ix, t, zone);
  }

  /** Two target lists name the same set of resources. */
  predicate SameTargetSet(lhs: seq<Target>, rhs: seq<Target>) {
    (forall t | t in lhs :: t in rhs) && (forall t | t in rhs :: t in lhs)
  }
}
