/** Binding another index while robots hold things: for which pairs of indexes
    everything that was safe stays safe. */
module Rebinding {
  import opened Basics
  import opened Workspace
  import opened Claims
  import opened Compatibility
  import opened Ledgers
  import opened LedgerSafety

  // ---------------------------------------------------------------------------
  // pairs of targets
  // ---------------------------------------------------------------------------

  /** How freely two robots may hold two targets at once: not at all (0), when
      both share (1), or however they like (2). */
  function Leeway(ix: Index, l: Target, r: Target): nat {
    if l.kind == Zone && r.kind == Zone then
      if ZonesOverlap(ix, l.resource, r.resource) then Room(OverlappingZonePolicy(ix, l.resource, r.resource)) else 2
    else if l.kind == Zone then
      if LiesInside(ix, r, l.resource) then Room(PolicyOrDefault(ix, l.resource)) else 2
    else if r.kind == Zone then
      if LiesInside(ix, l, r.resource) then Room(PolicyOrDefault(ix, r.resource)) else 2
    else if l.kind != r.kind then 2
    else if l.resource == r.resource then 1
    else if SharedConstrainedZone(ix, l, r) then 0
    else 2
  }

  function Room(policy: ZonePolicy): nat {
    if policy.capacity > 1 then 1 else 0
  }

  predicate Meets(ix: Index, a: Holding, b: Holding, l: Target, r: Target) {
    Leeway(ix, l, r) >= if BothShared(a, b) then 1 else 2
  }

  /** Two claims are compatible exactly when they do not overlap in time or every
      pair of their targets has the leeway their modes need. */
  lemma CompatibleByPairs(ix: Index, a: Holding, b: Holding)
    ensures CompatibleInIndex(ix, a, b) <==>
              (WindowsOverlap(a.window, b.window) ==> forall l, r | l in a.targets && r in b.targets :: Meets(ix, a, b, l, r))
  {
    if CompatibleInIndex(ix, a, b) && WindowsOverlap(a.window, b.window) {
      forall l, r | l in a.targets && r in b.targets ensures Meets(ix, a, b, l, r) {
        CompatiblePairMeets(ix, a, b, l, r);
      }
    }
    if WindowsOverlap(a.window, b.window) ==> forall l, r | l in a.targets && r in b.targets :: Meets(ix, a, b, l, r) {
      MeetingPairsAreCompatible(ix, a, b);
    }
  }

  lemma CompatiblePairMeets(ix: Index, a: Holding, b: Holding, l: Target, r: Target)
    requires CompatibleInIndex(ix, a, b) && WindowsOverlap(a.window, b.window)
    requires l in a.targets && r in b.targets
    ensures Meets(ix, a, b, l, r)
  {
    if l.kind == Zone && r.kind == Zone {
      assert ZonePairCompatible(ix, a, b, l.resource, r.resource);
    } else if l.kind == Zone {
      assert CrossPairCompatible(ix, a, b, l.resource, r);
    } else if r.kind == Zone {
      assert CrossPairCompatible(ix, b, a, r.resource, l);
    } else if l.kind == r.kind {
      assert SpatialClaimsCompatible(ix, a, b, l.kind);
      assert SpatialPairCompatible(ix, a, b, l, r);
    }
  }

  lemma MeetingPairsAreCompatible(ix: Index, a: Holding, b: Holding)
    requires WindowsOverlap(a.window, b.window) ==> forall l, r | l in a.targets && r in b.targets :: Meets(ix, a, b, l, r)
    ensures CompatibleInIndex(ix, a, b)
  {
    forall l, r | l in a.targets && r in b.targets && l.kind == Zone && r.kind == Zone
      ensures ZonePairCompatible(ix, a, b, l.resource, r.resource)
    {
      assert WindowsOverlap(a.window, b.window) ==> Meets(ix, a, b, l, r);
    }
    forall l, r | l in a.targets && r in b.targets && l.kind == r.kind && l.kind != Zone
      ensures SpatialPairCompatible(ix, a, b, l, r)
    {
      assert WindowsOverlap(a.window, b.window) ==> Meets(ix, a, b, l, r);
    }
    forall z, t | z in a.targets && t in b.targets && z.kind == Zone && t.kind != Zone
      ensures CrossPairCompatible(ix, a, b, z.resource, t)
    {
      assert WindowsOverlap(a.window, b.window) ==> Meets(ix, a, b, z, t);
    }
    forall z, t | z in b.targets && t in a.targets && z.kind == Zone && t.kind != Zone
      ensures CrossPairCompatible(ix, b, a, z.resource, t)
    {
      assert WindowsOverlap(a.window, b.window) ==> Meets(ix, a, b, t, z);
    }
  }

  predicate Known(before: Index, after: Index, t: Target) {
    TargetExists(before, t) || TargetExists(after, t)
  }

  /** No two targets of either index lose leeway: none newly overlap, no zone
      that overlaps loses its room for two, no single-occupant zone newly joins
      two resources. */
  ghost predicate PairsKeepLeeway(before: Index, after: Index) {
    forall l, r | Known(before, after, l) && Known(before, after, r) :: Leeway(before, l, r) <= Leeway(after, l, r)
  }

  /** A target neither index knows has the least leeway before and the most after. */
  lemma UnknownTargetsLoseNothing(before: Index, after: Index, l: Target, r: Target)
    requires TreeShaped(before) && TreeShaped(after)
    requires !Known(before, after, l) || !Known(before, after, r)
    ensures Leeway(before, l, r) <= Leeway(after, l, r)
  {
    if l.kind == Zone && r.kind == Zone && l != r && ZonesOverlap(after, l.resource, r.resource) {
      OverlappingZonesExist(after, l.resource, r.resource);
    } else if l.kind == Zone && r.kind != Zone && LiesInside(after, r, l.resource) {
      InsideExists(after, r, l.resource);
    } else if r.kind == Zone && l.kind != Zone && LiesInside(after, l, r.resource) {
      InsideExists(after, l, r.resource);
    }
  }

  lemma OverlappingZonesExist(ix: Index, a: Id, b: Id)
    requires TreeShaped(ix) && a != b && ZonesOverlap(ix, a, b)
    ensures a in ix.zones && b in ix.zones
  {
    if ZoneContains(ix, a, b) {
      AncestorIsZone(ix, a, b);
    } else {
      AncestorIsZone(ix, b, a);
    }
  }

  lemma InsideExists(ix: Index, t: Target, zone: Id)
    requires TreeShaped(ix) && t.kind != Zone && LiesInside(ix, t, zone)
    ensures TargetExists(ix, t) && zone in ix.zones
  {
    var z :| z in ZonesOf(ix, t) && ZoneContains(ix, zone, z);
    if z != zone {
      AncestorIsZone(ix, zone, z);
    }
  }

  function On(robot: u64, mode: AccessMode, window: Window, t: Target): Holding {
    Holding(robot, mode, window, [t])
  }

  /** Two robots on one target each fit together exactly with enough leeway. */
  lemma PairFits(ix: Index, l: Target, r: Target, mode: AccessMode, window: Window)
    requires TreeShaped(ix) && WindowsOverlap(UNBOUNDED, window)
    ensures PairwiseCompatible(Some(ix), {On(1, mode, UNBOUNDED, l), On(2, mode, window, r)})
       <==> Leeway(ix, l, r) >= if mode == Shared then 1 else 2
  {
    var a, b := On(1, mode, UNBOUNDED, l), On(2, mode, window, r);
    CompatibleByPairs(ix, a, b);
    CompatibilityIsSymmetric(Some(ix), a, b);
    assert l in a.targets && r in b.targets;
    assert Meets(ix, a, b, l, r) <==> Leeway(ix, l, r) >= if mode == Shared then 1 else 2;
    assert Compatible(Some(ix), a, b) <==> Meets(ix, a, b, l, r);
    assert PairwiseCompatible(Some(ix), {a, b}) <==> Compatible(Some(ix), a, b) && Compatible(Some(ix), b, a);
  }

  /** Two targets that lose leeway come with two holdings that lose
      compatibility. */
  lemma LosingPair(before: Index, after: Index, l: Target, r: Target, window: Window) returns (pair: set<Holding>)
    requires TreeShaped(before) && TreeShaped(after) && WindowsOverlap(UNBOUNDED, window)
    ensures PairwiseCompatible(Some(before), pair)
    ensures PairwiseCompatible(Some(after), pair) ==> Leeway(before, l, r) <= Leeway(after, l, r)
    ensures forall h | h in pair :: h.robot == 1 || h.window == window
  {
    if Leeway(before, l, r) == 0 {
      pair := {};
    } else {
      var mode := if Leeway(before, l, r) == 1 then Shared else Exclusive;
      pair := {On(1, mode, UNBOUNDED, l), On(2, mode, window, r)};
      PairFits(before, l, r, mode, window);
      PairFits(after, l, r, mode, window);
    }
  }

  lemma KeptLeewayKeepsCompatibility(before: Index, after: Index, held: set<Holding>)
    requires TreeShaped(before) && TreeShaped(after) && PairsKeepLeeway(before, after)
    requires PairwiseCompatible(Some(before), held)
    ensures PairwiseCompatible(Some(after), held)
  {
    forall a, b | a in held && b in held && a.robot != b.robot ensures Compatible(Some(after), a, b) {
      assert Compatible(Some(before), a, b);
      CompatibleByPairs(before, a, b);
      forall l, r | l in a.targets && r in b.targets && Meets(before, a, b, l, r) ensures Meets(after, a, b, l, r) {
        if !Known(before, after, l) || !Known(before, after, r) {
          UnknownTargetsLoseNothing(before, after, l, r);
        }
      }
      CompatibleByPairs(after, a, b);
    }
  }

  /** Binding another index keeps every compatible fleet compatible exactly when
      no two targets lose leeway. */
  lemma CompatibilitySurvivesExactly(before: Index, after: Index)
    requires TreeShaped(before) && TreeShaped(after)
    ensures (forall held :: PairwiseCompatible(Some(before), held) ==> PairwiseCompatible(Some(after), held))
       <==> PairsKeepLeeway(before, after)
  {
    if PairsKeepLeeway(before, after) {
      forall held | PairwiseCompatible(Some(before), held) ensures PairwiseCompatible(Some(after), held) {
        KeptLeewayKeepsCompatibility(before, after, held);
      }
    }
    if forall held :: PairwiseCompatible(Some(before), held) ==> PairwiseCompatible(Some(after), held) {
      forall l, r ensures Leeway(before, l, r) <= Leeway(after, l, r) {
        var pair := LosingPair(before, after, l, r, UNBOUNDED);
      }
    }
  }

  // ---------------------------------------------------------------------------
  // robots standing still
  // ---------------------------------------------------------------------------

  /** The robots posted in `zone`, each standing on one target. */
  function PostedIn(ix: Index, posts: map<u64, Target>, zone: Id): (robots: set<u64>) {
    set robot | robot in posts && TargetOccupies(ix, posts[robot], zone)
  }

  function PostedOn(posts: map<u64, Target>, edge: Id): (robots: set<u64>) {
    set robot | robot in posts && posts[robot] == Target(Edge, edge)
  }

  ghost predicate PostsMeet(ix: Index, posts: map<u64, Target>) {
    forall a, b | a in posts && b in posts && a != b :: Leeway(ix, posts[a], posts[b]) >= 1
  }

  /** No zone holds more posted robots than its limit, and no edge more than its
      capacity. */
  ghost predicate PostsCount(ix: Index, posts: map<u64, Target>) {
    && (forall zone | ZoneLimit(ix, zone).Some? :: |PostedIn(ix, posts, zone)| <= ZoneLimit(ix, zone).value)
    && (forall edge | EdgeCapacity(ix, edge).Some? :: |PostedOn(posts, edge)| <= EdgeCapacity(ix, edge).value)
  }

  /** However robots that share stand, one target each: if the old index lets
      them, the new one counts them within its limits. */
  ghost predicate PostsKeepCounting(before: Index, after: Index) {
    forall posts :: PostsMeet(before, posts) && PostsCount(before, posts) ==> PostsCount(after, posts)
  }

  function Standing(posts: map<u64, Target>): (held: set<Holding>) {
    set robot | robot in posts :: On(robot, Shared, UNBOUNDED, posts[robot])
  }

  lemma StandingInZone(ix: Index, posts: map<u64, Target>, zone: Id, tick: u64)
    ensures RobotsInZone(ix, Standing(posts), zone, tick) == PostedIn(ix, posts, zone)
  {
    forall robot | robot in PostedIn(ix, posts, zone) ensures robot in RobotsInZone(ix, Standing(posts), zone, tick) {
      var h := On(robot, Shared, UNBOUNDED, posts[robot]);
      assert h in Standing(posts) && posts[robot] in h.targets;
    }
  }

  lemma StandingOnEdge(posts: map<u64, Target>, edge: Id, tick: u64)
    ensures RobotsOnEdge(Standing(posts), edge, tick) == PostedOn(posts, edge)
  {
    forall robot | robot in PostedOn(posts, edge) ensures robot in RobotsOnEdge(Standing(posts), edge, tick) {
      assert On(robot, Shared, UNBOUNDED, posts[robot]) in Standing(posts);
    }
  }

  lemma StandingIsSafe(ix: Index, posts: map<u64, Target>)
    requires PostsMeet(ix, posts) && PostsCount(ix, posts)
    ensures FleetSafe(ix, Standing(posts))
  {
    forall a, b | a in Standing(posts) && b in Standing(posts) && a.robot != b.robot ensures Compatible(Some(ix), a, b) {
      CompatibleByPairs(ix, a, b);
    }
    forall zone, tick: u64 ensures |RobotsInZone(ix, Standing(posts), zone, tick)| == |PostedIn(ix, posts, zone)| {
      StandingInZone(ix, posts, zone, tick);
    }
    forall edge, tick: u64 ensures |RobotsOnEdge(Standing(posts), edge, tick)| == |PostedOn(posts, edge)| {
      StandingOnEdge(posts, edge, tick);
    }
  }

  lemma SafeStandingCounts(ix: Index, posts: map<u64, Target>)
    requires FleetSafe(ix, Standing(posts))
    ensures PostsCount(ix, posts)
  {
    forall zone | ZoneLimit(ix, zone).Some? ensures |PostedIn(ix, posts, zone)| <= ZoneLimit(ix, zone).value {
      StandingInZone(ix, posts, zone, 0);
      assert |RobotsInZone(ix, Standing(posts), zone, 0)| <= ZoneLimit(ix, zone).value;
    }
    forall edge | EdgeCapacity(ix, edge).Some? ensures |PostedOn(posts, edge)| <= EdgeCapacity(ix, edge).value {
      StandingOnEdge(posts, edge, 0);
      assert |RobotsOnEdge(Standing(posts), edge, 0)| <= EdgeCapacity(ix, edge).value;
    }
  }

  // ---------------------------------------------------------------------------
  // any fleet, at one tick
  // ---------------------------------------------------------------------------

  ghost predicate StandsOn(held: set<Holding>, tick: u64, robot: u64, t: Target) {
    exists h | h in held && h.robot == robot && Covers(h.window, tick) :: t in h.targets
  }

  ghost predicate CaughtAt(held: set<Holding>, tick: u64, posts: map<u64, Target>) {
    forall robot | robot in posts :: StandsOn(held, tick, robot, posts[robot])
  }

  /** A safe fleet caught at one tick, each robot on one of its targets, stands
      safely. */
  lemma CaughtFleetStandsSafely(ix: Index, held: set<Holding>, tick: u64, posts: map<u64, Target>)
    requires FleetSafe(ix, held) && CaughtAt(held, tick, posts)
    ensures PostsMeet(ix, posts) && PostsCount(ix, posts)
  {
    forall a, b | a in posts && b in posts && a != b ensures Leeway(ix, posts[a], posts[b]) >= 1 {
      var g :| g in held && g.robot == a && Covers(g.window, tick) && posts[a] in g.targets;
      var h :| h in held && h.robot == b && Covers(h.window, tick) && posts[b] in h.targets;
      assert Compatible(Some(ix), g, h);
      CompatiblePairMeets(ix, g, h, posts[a], posts[b]);
    }
    forall zone | ZoneLimit(ix, zone).Some? ensures |PostedIn(ix, posts, zone)| <= ZoneLimit(ix, zone).value {
      forall robot | robot in PostedIn(ix, posts, zone) ensures robot in RobotsInZone(ix, held, zone, tick) {
        var h :| h in held && h.robot == robot && Covers(h.window, tick) && posts[robot] in h.targets;
        assert Occupies(ix, h.targets, zone);
      }
      SubsetSize(PostedIn(ix, posts, zone), RobotsInZone(ix, held, zone, tick));
    }
    forall edge | EdgeCapacity(ix, edge).Some? ensures |PostedOn(posts, edge)| <= EdgeCapacity(ix, edge).value {
      forall robot | robot in PostedOn(posts, edge) ensures robot in RobotsOnEdge(held, edge, tick) {
        var h :| h in held && h.robot == robot && Covers(h.window, tick) && posts[robot] in h.targets;
      }
      SubsetSize(PostedOn(posts, edge), RobotsOnEdge(held, edge, tick));
    }
  }

  ghost predicate PutsInZone(ix: Index, held: set<Holding>, zone: Id, tick: u64, robot: u64, t: Target) {
    StandsOn(held, tick, robot, t) && TargetOccupies(ix, t, zone)
  }

  ghost function PostOf(ix: Index, held: set<Holding>, zone: Id, tick: u64, robot: u64): (t: Target)
    requires robot in RobotsInZone(ix, held, zone, tick)
    ensures PutsInZone(ix, held, zone, tick, robot, t)
  {
    RobotHasPost(ix, held, zone, tick, robot);
    var t :| PutsInZone(ix, held, zone, tick, robot, t);
    t
  }

  lemma RobotHasPost(ix: Index, held: set<Holding>, zone: Id, tick: u64, robot: u64)
    requires robot in RobotsInZone(ix, held, zone, tick)
    ensures exists t :: PutsInZone(ix, held, zone, tick, robot, t)
  {
    var h :| h in held && Covers(h.window, tick) && Occupies(ix, h.targets, zone) && h.robot == robot;
    var t :| t in h.targets && TargetOccupies(ix, t, zone);
    assert PutsInZone(ix, held, zone, tick, robot, t);
  }

  lemma CountsSurviveInZone(before: Index, after: Index, held: set<Holding>, zone: Id, tick: u64)
    requires PostsKeepCounting(before, after) && FleetSafe(before, held)
    requires ZoneLimit(after, zone).Some?
    ensures |RobotsInZone(after, held, zone, tick)| <= ZoneLimit(after, zone).value
  {
    var posts: map<u64, Target> := map robot | robot in RobotsInZone(after, held, zone, tick) :: PostOf(after, held, zone, tick, robot);
    forall robot | robot in posts ensures StandsOn(held, tick, robot, posts[robot]) && TargetOccupies(after, posts[robot], zone) {
      assert PutsInZone(after, held, zone, tick, robot, posts[robot]);
    }
    CaughtFleetStandsSafely(before, held, tick, posts);
    assert PostedIn(after, posts, zone) == RobotsInZone(after, held, zone, tick);
  }

  lemma CountsSurviveOnEdge(before: Index, after: Index, held: set<Holding>, edge: Id, tick: u64)
    requires PostsKeepCounting(before, after) && FleetSafe(before, held)
    requires EdgeCapacity(after, edge).Some?
    ensures |RobotsOnEdge(held, edge, tick)| <= EdgeCapacity(after, edge).value
  {
    var posts: map<u64, Target> := map robot | robot in RobotsOnEdge(held, edge, tick) :: Target(Edge, edge);
    CaughtFleetStandsSafely(before, held, tick, posts);
    assert PostedOn(posts, edge) == RobotsOnEdge(held, edge, tick);
  }

  // ---------------------------------------------------------------------------
  // safe rebinds
  // ---------------------------------------------------------------------------

  /** What to check before another index is bound: every pair of targets, and
      every way robots can stand still. */
  ghost predicate SafeRebind(before: Index, after: Index) {
    && TreeShaped(before) && TreeShaped(after)
    && PairsKeepLeeway(before, after) && PostsKeepCounting(before, after)
  }

  /** After a safe rebind every fleet that was safe is safe. */
  lemma SafeRebindKeepsFleetSafe(before: Index, after: Index, held: set<Holding>)
    requires SafeRebind(before, after) && FleetSafe(before, held)
    ensures FleetSafe(after, held)
  {
    KeptLeewayKeepsCompatibility(before, after, held);
    forall zone, tick: u64 | ZoneLimit(after, zone).Some?
      ensures |RobotsInZone(after, held, zone, tick)| <= ZoneLimit(after, zone).value
    {
      CountsSurviveInZone(before, after, held, zone, tick);
    }
    forall edge, tick: u64 | EdgeCapacity(after, edge).Some?
      ensures |RobotsOnEdge(held, edge, tick)| <= EdgeCapacity(after, edge).value
    {
      CountsSurviveOnEdge(before, after, held, edge, tick);
    }
  }

  /** A window that ends before it starts. It covers no tick, so no count sees
      it, but it conflicts like any other. */
  const BACKWARD: Window := Window(Some(1), Some(0))

  lemma UncountedIsSafe(ix: Index, pair: set<Holding>)
    requires ParsedPolicies(ix) && PairwiseCompatible(Some(ix), pair)
    requires forall h | h in pair :: h.robot == 1 || h.window == BACKWARD
    ensures FleetSafe(ix, pair)
  {
    forall zone, tick: u64 ensures |RobotsInZone(ix, pair, zone, tick)| <= 1 {
      SubsetSize(RobotsInZone(ix, pair, zone, tick), {1});
    }
    forall edge, tick: u64 ensures |RobotsOnEdge(pair, edge, tick)| <= 1 {
      SubsetSize(RobotsOnEdge(pair, edge, tick), {1});
    }
  }

  /** Every safe fleet stays safe exactly after a safe rebind. */
  lemma SafetySurvivesExactly(before: Index, after: Index)
    requires TreeShaped(before) && TreeShaped(after) && ParsedPolicies(before)
    ensures (forall held :: FleetSafe(before, held) ==> FleetSafe(after, held)) <==> SafeRebind(before, after)
  {
    if SafeRebind(before, after) {
      forall held | FleetSafe(before, held) ensures FleetSafe(after, held) {
        SafeRebindKeepsFleetSafe(before, after, held);
      }
    }
    if forall held :: FleetSafe(before, held) ==> FleetSafe(after, held) {
      forall l, r ensures Leeway(before, l, r) <= Leeway(after, l, r) {
        var pair := LosingPair(before, after, l, r, BACKWARD);
        UncountedIsSafe(before, pair);
      }
      forall posts | PostsMeet(before, posts) && PostsCount(before, posts) ensures PostsCount(after, posts) {
        StandingIsSafe(before, posts);
        SafeStandingCounts(after, posts);
      }
    }
  }

  /** A zone whose ground all lay in one zone of no larger limit. */
  ghost predicate Covered(before: Index, after: Index, zone: Id, cover: Id) {
    && ZoneLimit(after, zone).Some? && ZoneLimit(before, cover).Some?
    && ZoneLimit(before, cover).value <= ZoneLimit(after, zone).value
    && forall t :: TargetOccupies(after, t, zone) ==> TargetOccupies(before, t, cover)
  }

  predicate EdgeKeepsCapacity(before: Index, after: Index, edge: Id) {
    EdgeCapacity(after, edge).Some? ==>
      EdgeCapacity(before, edge).Some? && EdgeCapacity(before, edge).value <= EdgeCapacity(after, edge).value
  }

  /** A check per zone and edge that is enough for the counts. */
  lemma CoveredGroundKeepsCounting(before: Index, after: Index)
    requires forall zone | ZoneLimit(after, zone).Some? :: exists cover :: Covered(before, after, zone, cover)
    requires forall edge :: EdgeKeepsCapacity(before, after, edge)
    ensures PostsKeepCounting(before, after)
  {
    forall posts | PostsCount(before, posts) ensures PostsCount(after, posts) {
      forall zone | ZoneLimit(after, zone).Some? ensures |PostedIn(after, posts, zone)| <= ZoneLimit(after, zone).value {
        var cover :| Covered(before, after, zone, cover);
        SubsetSize(PostedIn(after, posts, zone), PostedIn(before, posts, cover));
      }
      forall edge | EdgeCapacity(after, edge).Some? ensures |PostedOn(posts, edge)| <= EdgeCapacity(after, edge).value {
        assert EdgeKeepsCapacity(before, after, edge);
      }
    }
  }
}
