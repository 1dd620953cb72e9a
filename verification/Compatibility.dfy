/** When two claims may coexist: by resource without an index, and by level,
    zone and capacity with one. */
module Compatibility {
  import opened Basics
  import opened Workspace
  import opened Claims

  // ---------------------------------------------------------------------------
  // compatibility without an index
  // ---------------------------------------------------------------------------

  predicate BothShared(lhs: Holding, rhs: Holding) {
    lhs.mode == Shared && rhs.mode == Shared
  }

  predicate TargetKindCompatible(lhs: Holding, rhs: Holding, kind: TargetKind) {
    forall l, r | l in lhs.targets && r in rhs.targets && l.kind == kind && r.kind == kind ::
      l.resource == r.resource ==> BothShared(lhs, rhs)
  }

  predicate ClaimsCompatible(lhs: Holding, rhs: Holding) {
    && TargetKindCompatible(lhs, rhs, Zone)
    && TargetKindCompatible(lhs, rhs, Node)
    && TargetKindCompatible(lhs, rhs, Edge)
  }

  // ---------------------------------------------------------------------------
  // compatibility against an index
  // ---------------------------------------------------------------------------

  function PolicyOrDefault(ix: Index, zone: Id): ZonePolicy {
    if zone in ix.zones then ix.zones[zone] else DEFAULT_POLICY
  }

  predicate IsParent(ix: Index, parent: Id, child: Id) {
    child in ix.parents && ix.parents[child] == parent && parent in ix.zones
  }

  /** The policy two overlapping zones are judged by: their own when they are
      the same zone, the child's when one is the parent of the other, and the
      empty policy when they are further apart. */
  function OverlappingZonePolicy(ix: Index, lhs: Id, rhs: Id): ZonePolicy {
    if lhs in ix.zones && lhs == rhs then PolicyOrDefault(ix, lhs)
    else if lhs in ix.zones && IsParent(ix, rhs, lhs) then PolicyOrDefault(ix, lhs)
    else if rhs in ix.zones && IsParent(ix, lhs, rhs) then PolicyOrDefault(ix, rhs)
    else EMPTY_POLICY
  }

  predicate ZonePairCompatible(ix: Index, lhs: Holding, rhs: Holding, l: Id, r: Id) {
    || !ZonesOverlap(ix, l, r)
    || !WindowsOverlap(lhs.window, rhs.window)
    || (BothShared(lhs, rhs) && OverlappingZonePolicy(ix, l, r).capacity > 1)
  }

  predicate ZoneClaimsCompatible(ix: Index, lhs: Holding, rhs: Holding) {
    forall l, r | l in lhs.targets && r in rhs.targets && l.kind == Zone && r.kind == Zone ::
      ZonePairCompatible(ix, lhs, rhs, l.resource, r.resource)
  }

  /** Whether a zone admits one robot only, by kind or by explicit capacity. */
  predicate SingleOccupant(policy: ZonePolicy) {
    policy.kind == ExclusiveAccess || (policy.capacityIsExplicit && policy.capacity <= 1)
  }

  /** Two resources of one kind listed directly in a common single-occupant zone. */
  predicate SharedConstrainedZone(ix: Index, l: Target, r: Target) {
    exists z | z in ZonesOf(ix, l) :: z in ZonesOf(ix, r) && SingleOccupant(ix.zones[z])
  }

  predicate SpatialPairCompatible(ix: Index, lhs: Holding, rhs: Holding, l: Target, r: Target) {
    || !WindowsOverlap(lhs.window, rhs.window)
    || (if l.resource == r.resource then BothShared(lhs, rhs) else !SharedConstrainedZone(ix, l, r))
  }

  predicate SpatialClaimsCompatible(ix: Index, lhs: Holding, rhs: Holding, kind: TargetKind) {
    forall l, r | l in lhs.targets && r in rhs.targets && l.kind == kind && r.kind == kind ::
      SpatialPairCompatible(ix, lhs, rhs, l, r)
  }

  predicate CrossPairCompatible(ix: Index, zside: Holding, sside: Holding, zone: Id, inner: Target) {
    || !LiesInside(ix, inner, zone)
    || !WindowsOverlap(zside.window, sside.window)
    || (BothShared(zside, sside) && PolicyOrDefault(ix, zone).capacity > 1)
  }

  /** No node or edge of `sside` lies in a zone of `zside` in a conflicting way. */
  predicate ZoneVsSpatialCompatible(ix: Index, zside: Holding, sside: Holding) {
    forall z, t | z in zside.targets && t in sside.targets && z.kind == Zone && t.kind != Zone ::
      CrossPairCompatible(ix, zside, sside, z.resource, t)
  }

  predicate CompatibleInIndex(ix: Index, lhs: Holding, rhs: Holding) {
    && ZoneClaimsCompatible(ix, lhs, rhs)
    && SpatialClaimsCompatible(ix, lhs, rhs, Node)
    && SpatialClaimsCompatible(ix, lhs, rhs, Edge)
    && ZoneVsSpatialCompatible(ix, lhs, rhs)
    && ZoneVsSpatialCompatible(ix, rhs, lhs)
  }

  /** Whether two claims may coexist, given the bound index if there is one. */
  predicate Compatible(index: Option<Index>, lhs: Holding, rhs: Holding) {
    match index
    case None => ClaimsCompatible(lhs, rhs)
    case Some(ix) => CompatibleInIndex(ix, lhs, rhs)
  }

  // ---------------------------------------------------------------------------
  // what compatibility means
  // ---------------------------------------------------------------------------

  lemma OverlappingPolicyIsSymmetric(ix: Index, l: Id, r: Id)
    requires TreeShaped(ix)
    ensures OverlappingZonePolicy(ix, l, r) == OverlappingZonePolicy(ix, r, l)
  {
    if l != r && IsParent(ix, r, l) && IsParent(ix, l, r) {
      ContainsIsAntisymmetric(ix, l, r);
    }
  }

  lemma CompatibilityIsSymmetric(index: Option<Index>, lhs: Holding, rhs: Holding)
    requires index.Some? ==> TreeShaped(index.value)
    ensures Compatible(index, lhs, rhs) <==> Compatible(index, rhs, lhs)
  {
    if index.Some? {
      CompatibleOneWay(index.value, lhs, rhs);
      CompatibleOneWay(index.value, rhs, lhs);
    }
  }

  lemma CompatibleOneWay(ix: Index, lhs: Holding, rhs: Holding)
    requires TreeShaped(ix)
    ensures CompatibleInIndex(ix, lhs, rhs) ==> CompatibleInIndex(ix, rhs, lhs)
  {
    if CompatibleInIndex(ix, lhs, rhs) {
      forall r, l | r in rhs.targets && l in lhs.targets && r.kind == Zone && l.kind == Zone
        ensures ZonePairCompatible(ix, rhs, lhs, r.resource, l.resource)
      {
        assert ZonePairCompatible(ix, lhs, rhs, l.resource, r.resource);
        OverlappingPolicyIsSymmetric(ix, l.resource, r.resource);
      }
      SpatialOneWay(ix, lhs, rhs, Node);
      SpatialOneWay(ix, lhs, rhs, Edge);
    }
  }

  lemma SpatialOneWay(ix: Index, lhs: Holding, rhs: Holding, kind: TargetKind)
    requires SpatialClaimsCompatible(ix, lhs, rhs, kind)
    ensures SpatialClaimsCompatible(ix, rhs, lhs, kind)
  {
    forall r, l | r in rhs.targets && l in lhs.targets && r.kind == kind && l.kind == kind
      ensures SpatialPairCompatible(ix, rhs, lhs, r, l)
    {
      assert SpatialPairCompatible(ix, lhs, rhs, l, r);
    }
  }

  /** A window that covers less conflicts with less. */
  predicate Narrows(narrow: Window, wide: Window) {
    Start(wide) <= Start(narrow) && End(narrow) <= End(wide)
  }

  lemma NarrowingKeepsCompatibility(index: Option<Index>, lhs: Holding, rhs: Holding, narrow: Window)
    requires Compatible(index, lhs, rhs)
    requires Narrows(narrow, rhs.window)
    ensures Compatible(index, lhs, rhs.(window := narrow))
  {
    if index.Some? {
      var ix, slim := index.value, rhs.(window := narrow);
      forall l, r | l in lhs.targets && r in slim.targets && l.kind == Zone && r.kind == Zone
        ensures ZonePairCompatible(ix, lhs, slim, l.resource, r.resource)
      {
        assert ZonePairCompatible(ix, lhs, rhs, l.resource, r.resource);
      }
      NarrowingSpatial(ix, lhs, rhs, narrow, Node);
      NarrowingSpatial(ix, lhs, rhs, narrow, Edge);
      forall z, t | z in lhs.targets && t in slim.targets && z.kind == Zone && t.kind != Zone
        ensures CrossPairCompatible(ix, lhs, slim, z.resource, t)
      {
        assert CrossPairCompatible(ix, lhs, rhs, z.resource, t);
      }
      forall z, t | z in slim.targets && t in lhs.targets && z.kind == Zone && t.kind != Zone
        ensures CrossPairCompatible(ix, slim, lhs, z.resource, t)
      {
        assert CrossPairCompatible(ix, rhs, lhs, z.resource, t);
      }
    }
  }

  lemma NarrowingSpatial(ix: Index, lhs: Holding, rhs: Holding, narrow: Window, kind: TargetKind)
    requires SpatialClaimsCompatible(ix, lhs, rhs, kind)
    requires Narrows(narrow, rhs.window)
    ensures SpatialClaimsCompatible(ix, lhs, rhs.(window := narrow), kind)
  {
    forall l, r | l in lhs.targets && r in rhs.targets && l.kind == kind && r.kind == kind
      ensures SpatialPairCompatible(ix, lhs, rhs.(window := narrow), l, r)
    {
      assert SpatialPairCompatible(ix, lhs, rhs, l, r);
    }
  }

  /** Whatever index is bound, compatible claims never share a resource
      exclusively at a common tick. */
  lemma CompatibleSharesNothingExclusively(index: Option<Index>, lhs: Holding, rhs: Holding, tick: u64, target: Target)
    requires Compatible(index, lhs, rhs)
    requires Covers(lhs.window, tick) && Covers(rhs.window, tick)
    requires target in lhs.targets && target in rhs.targets
    ensures BothShared(lhs, rhs)
  {
    if index.Some? {
      match target.kind {
        case Zone => assert ZonePairCompatible(index.value, lhs, rhs, target.resource, target.resource);
        case Node => assert SpatialPairCompatible(index.value, lhs, rhs, target, target);
        case Edge => assert SpatialPairCompatible(index.value, lhs, rhs, target, target);
      }
    }
  }

  /** Two targets touch the same ground when one is a zone that is, contains or
      lies in the other. */
  predicate SameGround(ix: Index, zone: Target, other: Target)
  {
    zone.kind == Zone &&
    if other.kind == Zone then ZonesOverlap(ix, zone.resource, other.resource)
    else LiesInside(ix, other, zone.resource)
  }

  /** A zone held exclusively shuts every other robot out of the zones above and
      below it and of everything inside it, for as long as it is held. */
  lemma CompatibleSharesNoGround(ix: Index, holder: Holding, other: Holding, zone: Target, target: Target)
    requires CompatibleInIndex(ix, holder, other)
    requires WindowsOverlap(holder.window, other.window)
    requires zone in holder.targets && target in other.targets
    requires SameGround(ix, zone, target)
    ensures BothShared(holder, other)
  {
    if target.kind == Zone {
      assert ZonePairCompatible(ix, holder, other, zone.resource, target.resource);
    } else {
      assert CrossPairCompatible(ix, holder, other, zone.resource, target);
    }
  }

  // ---------------------------------------------------------------------------
  // the verdict on each pair of targets
  // ---------------------------------------------------------------------------

  /** One target each, for some common time. */
  predicate OneEach(a: Holding, b: Holding, l: Target, r: Target) {
    a.targets == [l] && b.targets == [r] && WindowsOverlap(a.window, b.window)
  }

  predicate AdmitsTwo(ix: Index, zone: Id) {
    zone in ix.zones && ix.zones[zone].capacity > 1
  }

  /** Two claims on zones. One zone, or a zone and its child, may be shared when
      the zone, or the child, has room for two; zones further apart in one line
      never; zones side by side always. */
  lemma ZonesTogether(ix: Index, a: Holding, b: Holding, l: Id, r: Id)
    requires TreeShaped(ix) && OneEach(a, b, Target(Zone, l), Target(Zone, r))
    ensures
      var shared := a.mode == Shared && b.mode == Shared;
      CompatibleInIndex(ix, a, b) <==>
        if l == r then shared && AdmitsTwo(ix, l)
        else if r in ix.parents && ix.parents[r] == l then shared && ix.zones[r].capacity > 1
        else if l in ix.parents && ix.parents[l] == r then shared && ix.zones[l].capacity > 1
        else !(r in ix.ancestors && l in ix.ancestors[r]) && !(l in ix.ancestors && r in ix.ancestors[l])
  {
    assert Target(Zone, l) in a.targets && Target(Zone, r) in b.targets;
    assert CompatibleInIndex(ix, a, b) <==> ZonePairCompatible(ix, a, b, l, r);
    if l != r && IsParent(ix, r, l) && IsParent(ix, l, r) {
      ContainsIsAntisymmetric(ix, l, r);
    }
    if l in ix.parents {
      assert ix.ancestors[l] == {ix.parents[l]} + ix.ancestors[ix.parents[l]];
    }
    if r in ix.parents {
      assert ix.ancestors[r] == {ix.parents[r]} + ix.ancestors[ix.parents[r]];
    }
  }

  /** The zones a node or an edge is drawn in. */
  predicate DrawnIn(ix: Index, t: Target, zone: Id) {
    && zone in ix.zones
    && ((t.kind == Node && t.resource in ix.nodes && zone in ix.nodes[t.resource])
        || (t.kind == Edge && t.resource in ix.edges && zone in ix.edges[t.resource].zoneIds))
  }

  lemma DrawnInExactly(ix: Index, t: Target, zone: Id)
    ensures zone in ZonesOf(ix, t) <==> DrawnIn(ix, t, zone)
  {
  }

  /** Drawn in a zone, or in one below it. */
  ghost predicate DrawnInside(ix: Index, t: Target, zone: Id) {
    exists z :: DrawnIn(ix, t, z) && (z == zone || (z in ix.ancestors && zone in ix.ancestors[z]))
  }

  lemma LiesInsideExactly(ix: Index, t: Target, zone: Id)
    ensures LiesInside(ix, t, zone) <==> DrawnInside(ix, t, zone)
  {
    forall z ensures z in ZonesOf(ix, t) <==> DrawnIn(ix, t, z) {
      DrawnInExactly(ix, t, z);
    }
  }

  /** A target puts its robot in a zone when it is that zone, one below it, or drawn
      in one of those. The counter also charges other robots that claim a zone above. */
  lemma OccupancyExactly(ix: Index, t: Target, zone: Id)
    ensures TargetOccupies(ix, t, zone) <==>
              if t.kind == Zone then t.resource == zone || (t.resource in ix.ancestors && zone in ix.ancestors[t.resource])
              else DrawnInside(ix, t, zone)
    ensures TargetTouches(ix, t, zone) <==>
              TargetOccupies(ix, t, zone) || (t.kind == Zone && zone in ix.ancestors && t.resource in ix.ancestors[zone])
  {
    LiesInsideExactly(ix, t, zone);
  }

  /** A claim on a zone and one on a node or edge drawn in it, or in a zone below
      it, may be shared when the claimed zone has room for two; anything drawn
      elsewhere does not meet it. */
  lemma ZoneAndWhatIsInside(ix: Index, a: Holding, b: Holding, zone: Id, inner: Target)
    requires inner.kind != Zone
    requires OneEach(a, b, Target(Zone, zone), inner) || OneEach(b, a, Target(Zone, zone), inner)
    ensures
      var shared := a.mode == Shared && b.mode == Shared;
      CompatibleInIndex(ix, a, b) <==> (DrawnInside(ix, inner, zone) ==> shared && AdmitsTwo(ix, zone))
  {
    LiesInsideExactly(ix, inner, zone);
    if OneEach(a, b, Target(Zone, zone), inner) {
      assert Target(Zone, zone) in a.targets && inner in b.targets;
      assert CompatibleInIndex(ix, a, b) <==> CrossPairCompatible(ix, a, b, zone, inner);
    } else {
      assert Target(Zone, zone) in b.targets && inner in a.targets;
      assert CompatibleInIndex(ix, a, b) <==> CrossPairCompatible(ix, b, a, zone, inner);
    }
  }

  /** Two claims on nodes or edges: one resource must be shared by both; two of a
      kind must not be drawn in a common zone that admits one robot; a node and an
      edge never meet. */
  lemma ResourcesTogether(ix: Index, a: Holding, b: Holding, l: Target, r: Target)
    requires l.kind != Zone && r.kind != Zone && OneEach(a, b, l, r)
    ensures
      CompatibleInIndex(ix, a, b) <==>
        if l == r then a.mode == Shared && b.mode == Shared
        else l.kind == r.kind ==>
          !exists z :: DrawnIn(ix, l, z) && DrawnIn(ix, r, z)
                       && (ix.zones[z].kind == ExclusiveAccess || (ix.zones[z].capacityIsExplicit && ix.zones[z].capacity <= 1))
  {
    forall z ensures z in ZonesOf(ix, l) <==> DrawnIn(ix, l, z) {
      DrawnInExactly(ix, l, z);
    }
    forall z ensures z in ZonesOf(ix, r) <==> DrawnIn(ix, r, z) {
      DrawnInExactly(ix, r, z);
    }
    assert l in a.targets && r in b.targets;
    assert CompatibleInIndex(ix, a, b) <==> (l.kind == r.kind ==> SpatialPairCompatible(ix, a, b, l, r));
  }

  /** Claims apart in time are compatible, and claims on several targets are
      compatible exactly when each target of one is with each of the other. So the
      verdicts above decide every pair of claims. */
  lemma TargetByTarget(ix: Index, a: Holding, b: Holding)
    ensures !WindowsOverlap(a.window, b.window) ==> CompatibleInIndex(ix, a, b)
    ensures CompatibleInIndex(ix, a, b) <==>
              forall l, r | l in a.targets && r in b.targets :: CompatibleInIndex(ix, a.(targets := [l]), b.(targets := [r]))
  {
    forall l, r | l in a.targets && r in b.targets && CompatibleInIndex(ix, a, b)
      ensures CompatibleInIndex(ix, a.(targets := [l]), b.(targets := [r]))
    {
      assert forall x | x in [l] :: x in a.targets;
      assert forall x | x in [r] :: x in b.targets;
      FewerTargetsStayCompatible(ix, a, b, a.(targets := [l]), b.(targets := [r]));
    }
    if forall l, r | l in a.targets && r in b.targets :: CompatibleInIndex(ix, a.(targets := [l]), b.(targets := [r])) {
      forall l, r | l in a.targets && r in b.targets ensures PairCompatible(ix, a, b, l, r) {
        assert l in a.(targets := [l]).targets && r in b.(targets := [r]).targets;
        PairOfCompatible(ix, a.(targets := [l]), b.(targets := [r]), l, r);
      }
      PairsMakeCompatible(ix, a, b);
    }
  }

  /** The rule for one pair of targets, by their kinds. */
  predicate PairCompatible(ix: Index, a: Holding, b: Holding, l: Target, r: Target) {
    if l.kind == Zone && r.kind == Zone then ZonePairCompatible(ix, a, b, l.resource, r.resource)
    else if l.kind == Zone then CrossPairCompatible(ix, a, b, l.resource, r)
    else if r.kind == Zone then CrossPairCompatible(ix, b, a, r.resource, l)
    else l.kind == r.kind ==> SpatialPairCompatible(ix, a, b, l, r)
  }

  lemma PairOfCompatible(ix: Index, a: Holding, b: Holding, l: Target, r: Target)
    requires CompatibleInIndex(ix, a, b) && l in a.targets && r in b.targets
    ensures PairCompatible(ix, a, b, l, r)
  {
    if l.kind == r.kind && l.kind != Zone {
      assert SpatialClaimsCompatible(ix, a, b, l.kind);
    }
  }

  lemma PairsMakeCompatible(ix: Index, a: Holding, b: Holding)
    requires forall l, r | l in a.targets && r in b.targets :: PairCompatible(ix, a, b, l, r)
    ensures CompatibleInIndex(ix, a, b)
  {
    forall l, r | l in a.targets && r in b.targets && l.kind == Zone && r.kind == Zone
      ensures ZonePairCompatible(ix, a, b, l.resource, r.resource)
    {
      assert PairCompatible(ix, a, b, l, r);
    }
    forall l, r | l in a.targets && r in b.targets && l.kind == r.kind && l.kind != Zone ensures SpatialPairCompatible(ix, a, b, l, r) {
      assert PairCompatible(ix, a, b, l, r);
    }
    forall z, t | z in a.targets && t in b.targets && z.kind == Zone && t.kind != Zone ensures CrossPairCompatible(ix, a, b, z.resource, t) {
      assert PairCompatible(ix, a, b, z, t);
    }
    forall z, t | z in b.targets && t in a.targets && z.kind == Zone && t.kind != Zone ensures CrossPairCompatible(ix, b, a, z.resource, t) {
      assert PairCompatible(ix, a, b, t, z);
    }
  }

  lemma FewerTargetsStayCompatible(ix: Index, a: Holding, b: Holding, a': Holding, b': Holding)
    requires CompatibleInIndex(ix, a, b)
    requires a' == a.(targets := a'.targets) && forall x | x in a'.targets :: x in a.targets
    requires b' == b.(targets := b'.targets) && forall x | x in b'.targets :: x in b.targets
    ensures CompatibleInIndex(ix, a', b')
  {
    forall l, r | l in a'.targets && r in b'.targets ensures PairCompatible(ix, a', b', l, r) {
      PairOfCompatible(ix, a, b, l, r);
    }
    PairsMakeCompatible(ix, a', b');
  }

  /** Without an index only common targets matter, at any time. */
  lemma WithoutAnIndex(a: Holding, b: Holding)
    ensures Compatible(None, a, b) <==>
              ((exists t | t in a.targets :: t in b.targets) ==> a.mode == Shared && b.mode == Shared)
  {
    if t :| t in a.targets && t in b.targets {
      assert Compatible(None, a, b) ==> TargetKindCompatible(a, b, t.kind);
    }
    forall l, r | l in a.targets && r in b.targets && l.kind == r.kind && l.resource == r.resource ensures l == r {
    }
  }
}
