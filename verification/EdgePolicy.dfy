/** Traffic policy on edges: which way an edge may be walked, what makes it a
    wall, and what it costs to use. */
module EdgePolicy {
  import opened Basics
  import opened Workspace

  /** Whether the edge may be entered from its source (or else its target). */
  predicate AllowsTraversal(semantics: EdgeSemantics, fromSource: bool) {
    match semantics.direction
    case None => true
    case Some(Forward) => fromSource || semantics.reversible.GetOr(false)
    case Some(Reverse) => !fromSource || semantics.reversible.GetOr(false)
    case Some(EitherWay) => true
  }

  /** A zone that no edge inside it may cross. Needing a claim is not enough. */
  predicate Walls(policy: ZonePolicy) {
    policy.blocked.GetOr(false) || policy.kind == Restricted || policy.blocksTraversal
  }

  function BlockedZonesForEdge(ix: Index, edge: Id): (zones: seq<Id>)
    ensures forall z | z in zones :: z in ix.zones && z in ZonesOfEdge(ix, edge) && Walls(ix.zones[z])
    ensures forall z | z in ZonesOfEdge(ix, edge) && Walls(ix.zones[z]) :: z in zones
  {
    Filter(ZonesOfEdge(ix, edge), z => z in ix.zones && Walls(ix.zones[z]))
  }

  predicate IsEdgeHardBlocked(ix: Index, edge: Id) {
    edge !in ix.edges || ix.edges[edge].semantics.blocked.GetOr(false) || BlockedZonesForEdge(ix, edge) != []
  }

  // ---------------------------------------------------------------------------
  // effective semantics
  // ---------------------------------------------------------------------------

  function MinReal(a: real, b: real): real {
    if a < b then a else b
  }

  function MaxReal(a: real, b: real): real {
    if a < b then b else a
  }

  function Tighter(current: Option<real>, limit: Option<real>): Option<real> {
    if limit.None? then current
    else if current.None? then limit
    else Some(MinReal(current.value, limit.value))
  }

  /** One zone's policy laid over an edge's semantics. */
  function Overlay(s: EdgeSemantics, p: ZonePolicy): EdgeSemantics {
    var counted := p.capacityIsExplicit || p.kind == CapacityLimited;
    var walled := p.blocked.GetOr(false) || p.kind == Restricted;
    var stopless := walled || p.kind == NoStop;
    s.(speedLimit := Tighter(s.speedLimit, p.speedLimit),
       capacity :=
         if !counted then s.capacity
         else if s.capacity.None? || p.capacity < s.capacity.value then Some(p.capacity)
         else s.capacity,
       capacityIsExplicit := s.capacityIsExplicit || counted,
       waitingAllowed := if s.waitingAllowed.None? then p.waitingAllowed else s.waitingAllowed,
       stopAllowed := if stopless then Some(false) else if s.stopAllowed.None? then p.stopAllowed else s.stopAllowed,
       requiresClaim := if s.requiresClaim.None? then Some(p.requiresClaim) else s.requiresClaim,
       priority := if s.priority.None? then p.priority else s.priority,
       noStop := if stopless then Some(true) else s.noStop,
       blocked := if walled then Some(true) else s.blocked,
       costBias := if p.kind == Slowdown then Some(s.costBias.GetOr(0.0) + 1.0) else s.costBias)
  }

  function Overlaid(s: EdgeSemantics, policies: seq<ZonePolicy>): EdgeSemantics {
    if policies == [] then s
    else Overlay(Overlaid(s, policies[..|policies| - 1]), policies[|policies| - 1])
  }

  method OverlayZone(own: EdgeSemantics, p: ZonePolicy) returns (s: EdgeSemantics)
    ensures s == Overlay(own, p)
  {
    s := own;
    var walled := p.blocked.GetOr(false) || p.kind == Restricted;
    s := s.(speedLimit := Tighter(s.speedLimit, p.speedLimit));
    if p.capacityIsExplicit || p.kind == CapacityLimited {
      s := s.(capacity := Some(if s.capacity.None? || p.capacity < s.capacity.value then p.capacity else s.capacity.value),
              capacityIsExplicit := true);
    }
    s := s.(waitingAllowed := if s.waitingAllowed.None? then p.waitingAllowed else s.waitingAllowed,
            stopAllowed := if s.stopAllowed.None? then p.stopAllowed else s.stopAllowed,
            requiresClaim := if s.requiresClaim.None? then Some(p.requiresClaim) else s.requiresClaim,
            priority := if s.priority.None? then p.priority else s.priority);
    if p.kind == NoStop || walled {
      s := s.(noStop := Some(true), stopAllowed := Some(false));
    }
    if walled {
      s := s.(blocked := Some(true));
    }
    if p.kind == Slowdown {
      s := s.(costBias := Some(s.costBias.GetOr(0.0) + 1.0));
    }
  }

  /** The edge's own semantics with every zone around it applied in order. */
  method DeriveEffectiveEdgeSemantics(own: EdgeSemantics, policies: seq<ZonePolicy>) returns (s: EdgeSemantics)
    ensures s == Overlaid(own, policies)
  {
    s := own;
    for i := 0 to |policies|
      invariant s == Overlaid(own, policies[..i])
    {
      s := OverlayZone(s, policies[i]);
      assert policies[..i + 1][..i] == policies[..i];
    }
    assert policies[..|policies|] == policies;
  }

  /** The effective speed limit is the tightest one anybody sets. */
  lemma {:induction false} EffectiveSpeedIsTightest(own: EdgeSemantics, policies: seq<ZonePolicy>)
    ensures
      var limit := Overlaid(own, policies).speedLimit;
      && (limit.Some? ==> limit == own.speedLimit || exists p | p in policies :: p.speedLimit == limit)
      && (own.speedLimit.Some? ==> limit.Some? && limit.value <= own.speedLimit.value)
      && (forall p | p in policies && p.speedLimit.Some? :: limit.Some? && limit.value <= p.speedLimit.value)
  {
    if policies != [] {
      var front, last := policies[..|policies| - 1], policies[|policies| - 1];
      assert policies == front + [last];
      EffectiveSpeedIsTightest(own, front);
    }
  }

  /** An edge is effectively blocked exactly when it says so itself or a zone
      around it is blocked or restricted. */
  lemma {:induction false} EffectivelyBlocked(own: EdgeSemantics, policies: seq<ZonePolicy>)
    ensures Overlaid(own, policies).blocked.GetOr(false)
       <==> own.blocked.GetOr(false) || exists p | p in policies :: p.blocked.GetOr(false) || p.kind == Restricted
  {
    if policies != [] {
      var front, last := policies[..|policies| - 1], policies[|policies| - 1];
      assert policies == front + [last];
      EffectivelyBlocked(own, front);
    }
  }

  predicate SpeaksOfWaiting(p: ZonePolicy) {
    p.waitingAllowed.Some?
  }

  predicate SpeaksOfPriority(p: ZonePolicy) {
    p.priority.Some?
  }

  predicate SpeaksOfStopping(p: ZonePolicy) {
    p.stopAllowed.Some?
  }

  /** Where neither the edge nor an earlier zone has said anything, a zone's word
      on waiting counts; so it does on priority and claims. */
  lemma {:induction false} FirstWordOnWaiting(own: EdgeSemantics, policies: seq<ZonePolicy>)
    ensures
      var i := FirstIndex(policies, SpeaksOfWaiting);
      Overlaid(own, policies).waitingAllowed ==
        if own.waitingAllowed.Some? then own.waitingAllowed
        else if i < |policies| then policies[i].waitingAllowed
        else None
  {
    if policies != [] {
      var front, last := policies[..|policies| - 1], policies[|policies| - 1];
      assert policies == front + [last];
      FirstWordOnWaiting(own, front);
      FirstIndexGrows(front, last, SpeaksOfWaiting);
    }
  }

  lemma {:induction false} FirstWordOnPriority(own: EdgeSemantics, policies: seq<ZonePolicy>)
    ensures
      var i := FirstIndex(policies, SpeaksOfPriority);
      Overlaid(own, policies).priority ==
        if own.priority.Some? then own.priority
        else if i < |policies| then policies[i].priority
        else None
    ensures Overlaid(own, policies).requiresClaim ==
              if own.requiresClaim.Some? || policies == [] then own.requiresClaim else Some(policies[0].requiresClaim)
  {
    if policies != [] {
      var front, last := policies[..|policies| - 1], policies[|policies| - 1];
      assert policies == front + [last];
      FirstWordOnPriority(own, front);
      FirstIndexGrows(front, last, SpeaksOfPriority);
    }
  }

  predicate ForbidsStops(p: ZonePolicy) {
    p.kind == NoStop || p.kind == Restricted || p.blocked == Some(true)
  }

  /** Stopping is out, and priced, as soon as one zone forbids it; else the first
      word counts. */
  lemma {:induction false} StoppingIsRuledOutByAnyZone(own: EdgeSemantics, policies: seq<ZonePolicy>)
    ensures
      var s, i := Overlaid(own, policies), FirstIndex(policies, SpeaksOfStopping);
      if Any(policies, ForbidsStops) then s.stopAllowed == Some(false) && s.noStop == Some(true)
      else
        && s.noStop == own.noStop
        && s.stopAllowed ==
             if own.stopAllowed.Some? then own.stopAllowed
             else if i < |policies| then policies[i].stopAllowed
             else None
  {
    if policies != [] {
      var front, last := policies[..|policies| - 1], policies[|policies| - 1];
      assert policies == front + [last];
      StoppingIsRuledOutByAnyZone(own, front);
      FirstIndexGrows(front, last, SpeaksOfStopping);
      AnyGrows(front, last, ForbidsStops);
    }
  }

  predicate BoundsEdges(p: ZonePolicy) {
    p.capacityIsExplicit || p.kind == CapacityLimited
  }

  /** The effective capacity is the least among the edge's own and those of the
      zones that bound it. */
  lemma {:induction false} EffectiveCapacityIsLeast(own: EdgeSemantics, policies: seq<ZonePolicy>)
    ensures
      var s := Overlaid(own, policies);
      && (s.capacity.Some? ==> s.capacity == own.capacity || exists p | p in policies && BoundsEdges(p) :: s.capacity == Some(p.capacity))
      && (own.capacity.Some? ==> s.capacity.Some? && s.capacity.value <= own.capacity.value)
      && (forall p | p in policies && BoundsEdges(p) :: s.capacity.Some? && s.capacity.value <= p.capacity)
      && (s.capacityIsExplicit <==> own.capacityIsExplicit || Any(policies, BoundsEdges))
  {
    if policies != [] {
      var front, last := policies[..|policies| - 1], policies[|policies| - 1];
      assert policies == front + [last];
      EffectiveCapacityIsLeast(own, front);
      AnyGrows(front, last, BoundsEdges);
    }
  }

  function CountSlow(policies: seq<ZonePolicy>): nat {
    if policies == [] then 0
    else CountSlow(policies[..|policies| - 1]) + if policies[|policies| - 1].kind == Slowdown then 1 else 0
  }

  /** Each slowdown zone adds one to the edge's bias, and no zone touches the rest. */
  lemma {:induction false} SlowZonesAddUp(own: EdgeSemantics, policies: seq<ZonePolicy>)
    ensures
      var s := Overlaid(own, policies);
      && s.costBias == (if CountSlow(policies) == 0 then own.costBias else Some(own.costBias.GetOr(0.0) + CountSlow(policies) as real))
      && s.corridorLane == own.corridorLane && s.reversible == own.reversible && s.passingAllowed == own.passingAllowed
      && s.clearanceWidth == own.clearanceWidth && s.clearanceHeight == own.clearanceHeight && s.direction == own.direction
  {
    if policies != [] {
      SlowZonesAddUp(own, policies[..|policies| - 1]);
    }
  }

  function PoliciesOf(ix: Index, zones: seq<Id>): (policies: seq<ZonePolicy>)
    requires forall z | z in zones :: z in ix.zones
    ensures forall p :: p in policies <==> exists z | z in zones :: ix.zones[z] == p
  {
    if zones == [] then [] else [ix.zones[zones[0]]] + PoliciesOf(ix, zones[1..])
  }

  /** The policies of the zones around an edge. */
  function EdgeZonePolicies(ix: Index, edge: Id): seq<ZonePolicy> {
    PoliciesOf(ix, ZonesOfEdge(ix, edge))
  }

  /** The planner's wall and the effective semantics agree, except that a zone
      may also wall off traversal without being blocked or restricted. */
  lemma HardBlockedMeansWalled(ix: Index, edge: Id)
    requires edge in ix.edges
    ensures IsEdgeHardBlocked(ix, edge)
       <==> || Overlaid(ix.edges[edge].semantics, EdgeZonePolicies(ix, edge)).blocked.GetOr(false)
            || exists p | p in EdgeZonePolicies(ix, edge) :: p.blocksTraversal
  {
    EffectivelyBlocked(ix.edges[edge].semantics, EdgeZonePolicies(ix, edge));
    var walls := BlockedZonesForEdge(ix, edge);
    if walls != [] {
      assert walls[0] in walls;
      assert ix.zones[walls[0]] in EdgeZonePolicies(ix, edge);
    }
  }

  // ---------------------------------------------------------------------------
  // penalties
  // ---------------------------------------------------------------------------

  function Inverse(v: Option<real>): (r: real)
    ensures r >= 0.0
  {
    if v.Some? && v.value > 0.0 then 1.0 / v.value else 0.0
  }

  function Shortfall(priority: Option<real>, factor: real): (r: real)
    requires factor >= 0.0
    ensures r >= 0.0
  {
    if priority.Some? then MaxReal(10.0 - priority.value, 0.0) * factor else 0.0
  }

  function When(b: bool, cost: real): real {
    if b then cost else 0.0
  }

  /** What the semantics of an edge add to its weight. The planner never treats
      an edge as directed, so the price of a one-way edge does not arise. */
  function SemanticsPenalty(s: EdgeSemantics): (r: real)
    ensures r >= 0.0
    ensures s.noStop == Some(true) ==> r >= 2.0
  {
    When(s.costBias.Some?, MaxReal(s.costBias.GetOr(0.0), 0.0))
    + Inverse(s.speedLimit)
    + Shortfall(s.priority, 0.1)
    + Inverse(if s.capacity.Some? then Some(s.capacity.value as real) else None)
    + When(s.corridorLane, 0.75)
    + When(s.passingAllowed == Some(false), 0.5)
    + When(s.noStop.GetOr(false), 2.0)
    + Inverse(s.clearanceWidth)
    + Inverse(s.clearanceHeight)
  }

  predicate NeedsGrant(p: ZonePolicy) {
    p.requiresClaim || p.blocksEntry || p.blocksTraversal
  }

  function ZonePenalty(p: ZonePolicy): (r: real)
    ensures r >= 0.0
    ensures NeedsGrant(p) ==> r >= 100.0
  {
    When(NeedsGrant(p), 100.0)
    + Shortfall(p.priority, 0.05)
    + When(p.waitingAllowed == Some(false), 1.5)
    + When(p.stopAllowed == Some(false), 2.0)
    + When(p.kind == Corridor, 0.75)
  }

  function ZonePenalties(policies: seq<ZonePolicy>): (r: real)
    ensures r >= 0.0
  {
    if policies == [] then 0.0
    else ZonePenalties(policies[..|policies| - 1]) + ZonePenalty(policies[|policies| - 1])
  }

  /** What the penalised search adds for an edge; infinite (`None`) for an edge
      that does not exist. */
  function EdgePenalty(ix: Index, edge: Id): (r: Option<real>)
    ensures r.None? <==> edge !in ix.edges
    ensures r.Some? ==> r.value >= 0.0
  {
    if edge in ix.edges then
      var policies := EdgeZonePolicies(ix, edge);
      Some(SemanticsPenalty(Overlaid(ix.edges[edge].semantics, policies)) + ZonePenalties(policies))
    else
      None
  }

  method EdgeTraversalPenalty(ix: Index, edge: Id) returns (penalty: Option<real>)
    ensures penalty == EdgePenalty(ix, edge)
  {
    if edge !in ix.edges {
      return None;
    }
    var policies := EdgeZonePolicies(ix, edge);
    var semantics := DeriveEffectiveEdgeSemantics(ix.edges[edge].semantics, policies);
    var total := SemanticsPenalty(semantics);
    for i := 0 to |policies|
      invariant total == SemanticsPenalty(semantics) + ZonePenalties(policies[..i])
    {
      total := total + ZonePenalty(policies[i]);
      assert policies[..i + 1][..i] == policies[..i];
    }
    assert policies[..|policies|] == policies;
    penalty := Some(total);
  }

  function CountNeedingGrant(policies: seq<ZonePolicy>): nat {
    if policies == [] then 0
    else CountNeedingGrant(policies[..|policies| - 1]) + if NeedsGrant(policies[|policies| - 1]) then 1 else 0
  }

  /** A zone that needs a grant is priced, not walled off: it adds at least 100. */
  lemma {:induction false} GrantsArePriced(policies: seq<ZonePolicy>)
    ensures ZonePenalties(policies) >= 100.0 * CountNeedingGrant(policies) as real
  {
    if policies != [] {
      GrantsArePriced(policies[..|policies| - 1]);
    }
  }

  /** Parsed limits that make sense: positive, where there are any. */
  predicate PositiveLimits(s: EdgeSemantics) {
    && (s.speedLimit.Some? ==> s.speedLimit.value > 0.0)
    && (s.capacity.Some? ==> s.capacity.value >= 1)
  }

  /** One more zone around an edge never makes it cheaper, as long as the limits
      it tightens are positive. */
  lemma OverlayNeverCheapens(s: EdgeSemantics, p: ZonePolicy)
    requires PositiveLimits(s) && PositivePolicy(p)
    ensures PositiveLimits(Overlay(s, p))
    ensures SemanticsPenalty(s) <= SemanticsPenalty(Overlay(s, p))
  {
    var t := Overlay(s, p);
    InverseShrinks(s.speedLimit, t.speedLimit);
    var capacities := (if s.capacity.Some? then Some(s.capacity.value as real) else None,
                       if t.capacity.Some? then Some(t.capacity.value as real) else None);
    InverseShrinks(capacities.0, capacities.1);
    assert Shortfall(s.priority, 0.1) <= Shortfall(t.priority, 0.1);
  }

  predicate PositivePolicy(p: ZonePolicy) {
    (p.speedLimit.Some? ==> p.speedLimit.value > 0.0) && p.capacity >= 1
  }

  lemma {:induction false} OverlaidStaysPositive(own: EdgeSemantics, policies: seq<ZonePolicy>)
    requires PositiveLimits(own) && forall p | p in policies :: PositivePolicy(p)
    ensures PositiveLimits(Overlaid(own, policies))
  {
    if policies != [] {
      OverlaidStaysPositive(own, policies[..|policies| - 1]);
      OverlayNeverCheapens(Overlaid(own, policies[..|policies| - 1]), policies[|policies| - 1]);
    }
  }

  /** Listing one more zone for an edge never lowers its penalty. */
  lemma MoreZonesNeverCheapen(own: EdgeSemantics, policies: seq<ZonePolicy>, p: ZonePolicy)
    requires PositiveLimits(own) && PositivePolicy(p) && forall q | q in policies :: PositivePolicy(q)
    ensures SemanticsPenalty(Overlaid(own, policies)) + ZonePenalties(policies)
         <= SemanticsPenalty(Overlaid(own, policies + [p])) + ZonePenalties(policies + [p])
  {
    OverlaidStaysPositive(own, policies);
    OverlayNeverCheapens(Overlaid(own, policies), p);
    assert (policies + [p])[..|policies|] == policies;
  }

  lemma InverseShrinks(a: Option<real>, b: Option<real>)
    requires a.Some? ==> b.Some? && 0.0 < b.value <= a.value
    ensures Inverse(a) <= Inverse(b)
  {
    if a.Some? {
      ReciprocalsShrink(a.value, b.value);
    }
  }

  lemma ReciprocalsShrink(a: real, b: real)
    requires 0.0 < b <= a
    ensures 1.0 / a <= 1.0 / b
  {
    var x, y := 1.0 / a, 1.0 / b;
    assert x * a == 1.0 && y * b == 1.0;
    assert y * b <= y * a;
    assert (y - x) * a >= 0.0;
  }

  // ---------------------------------------------------------------------------
  // what makes an edge dearer
  // ---------------------------------------------------------------------------

  /** A limit that is no tighter: there is none, or it is positive and no larger
      than one there was, or it does not count at all. */
  predicate NoTighter(worse: Option<real>, better: Option<real>) {
    || better.None? || better.value <= 0.0
    || (worse.Some? && 0.0 < worse.value && worse.value <= better.value)
  }

  predicate NoLessUrgent(worse: Option<real>, better: Option<real>) {
    better.None? || better.value >= 10.0 || (worse.Some? && worse.value <= better.value)
  }

  function CapacityAsReal(capacity: Option<u64>): Option<real> {
    if capacity.Some? then Some(capacity.value as real) else None
  }

  /** Better in every respect the price looks at. */
  predicate NoWorse(worse: EdgeSemantics, better: EdgeSemantics) {
    && MaxReal(better.costBias.GetOr(0.0), 0.0) <= MaxReal(worse.costBias.GetOr(0.0), 0.0)
    && NoTighter(worse.speedLimit, better.speedLimit)
    && NoLessUrgent(worse.priority, better.priority)
    && NoTighter(CapacityAsReal(worse.capacity), CapacityAsReal(better.capacity))
    && (better.corridorLane ==> worse.corridorLane)
    && (better.passingAllowed == Some(false) ==> worse.passingAllowed == Some(false))
    && (better.noStop == Some(true) ==> worse.noStop == Some(true))
    && NoTighter(worse.clearanceWidth, better.clearanceWidth)
    && NoTighter(worse.clearanceHeight, better.clearanceHeight)
  }

  lemma NoTighterCostsNoMore(worse: Option<real>, better: Option<real>)
    requires NoTighter(worse, better)
    ensures Inverse(better) <= Inverse(worse)
  {
    if better.Some? && better.value > 0.0 {
      InverseShrinks(better, worse);
    }
  }

  /** A faster, wider, roomier or more urgent edge is never dearer, nor is one with
      less of a bias, off a corridor lane, or open to passing and stopping. */
  lemma BetterEdgesCostNoMore(worse: EdgeSemantics, better: EdgeSemantics)
    requires NoWorse(worse, better)
    ensures SemanticsPenalty(better) <= SemanticsPenalty(worse)
  {
    NoTighterCostsNoMore(worse.speedLimit, better.speedLimit);
    NoTighterCostsNoMore(CapacityAsReal(worse.capacity), CapacityAsReal(better.capacity));
    NoTighterCostsNoMore(worse.clearanceWidth, better.clearanceWidth);
    NoTighterCostsNoMore(worse.clearanceHeight, better.clearanceHeight);
    assert Shortfall(better.priority, 0.1) <= Shortfall(worse.priority, 0.1);
  }

  /** A higher priority never raises the price, of an edge or of a zone around it;
      each point below ten costs a tenth on an edge, a twentieth in a zone. */
  lemma HigherPriorityCostsNoMore(s: EdgeSemantics, p: ZonePolicy, low: real, high: real)
    requires low <= high
    ensures SemanticsPenalty(s.(priority := Some(high))) <= SemanticsPenalty(s.(priority := Some(low)))
    ensures ZonePenalty(p.(priority := Some(high))) <= ZonePenalty(p.(priority := Some(low)))
    ensures high <= 10.0 ==>
              && SemanticsPenalty(s.(priority := Some(low))) == SemanticsPenalty(s.(priority := Some(high))) + (high - low) * 0.1
              && ZonePenalty(p.(priority := Some(low))) == ZonePenalty(p.(priority := Some(high))) + (high - low) * 0.05
    ensures SemanticsPenalty(s.(priority := Some(10.0))) == SemanticsPenalty(s.(priority := None))
    ensures ZonePenalty(p.(priority := Some(10.0))) == ZonePenalty(p.(priority := None))
  {
    assert Shortfall(Some(high), 0.1) <= Shortfall(Some(low), 0.1) && Shortfall(Some(high), 0.05) <= Shortfall(Some(low), 0.05);
  }

  /** The price of each trait, all else equal; an edge and a zone without any are
      free. */
  lemma EachTraitHasItsPrice(s: EdgeSemantics, p: ZonePolicy)
    ensures SemanticsPenalty(s.(corridorLane := true)) == SemanticsPenalty(s.(corridorLane := false)) + 0.75
    ensures SemanticsPenalty(s.(passingAllowed := Some(false))) == SemanticsPenalty(s.(passingAllowed := None)) + 0.5
    ensures SemanticsPenalty(s.(noStop := Some(true))) == SemanticsPenalty(s.(noStop := None)) + 2.0
    ensures ZonePenalty(p.(waitingAllowed := Some(false))) == ZonePenalty(p.(waitingAllowed := None)) + 1.5
    ensures ZonePenalty(p.(stopAllowed := Some(false))) == ZonePenalty(p.(stopAllowed := None)) + 2.0
    ensures ZonePenalty(p.(kind := Corridor)) == ZonePenalty(p.(kind := Informational)) + 0.75
    ensures NeedsGrant(p) ==>
              ZonePenalty(p) == ZonePenalty(p.(requiresClaim := false, blocksEntry := false, blocksTraversal := false)) + 100.0
    ensures ZonePenalty(EMPTY_POLICY) == 0.0
  {
  }

  /** What a limit, a capacity or a bias adds, all else equal. */
  lemma EachLimitHasItsPrice(s: EdgeSemantics, v: real, c: u64)
    requires v > 0.0 && c >= 1
    ensures SemanticsPenalty(s.(speedLimit := Some(v))) == SemanticsPenalty(s.(speedLimit := None)) + 1.0 / v
    ensures SemanticsPenalty(s.(clearanceWidth := Some(v))) == SemanticsPenalty(s.(clearanceWidth := None)) + 1.0 / v
    ensures SemanticsPenalty(s.(clearanceHeight := Some(v))) == SemanticsPenalty(s.(clearanceHeight := None)) + 1.0 / v
    ensures SemanticsPenalty(s.(capacity := Some(c))) == SemanticsPenalty(s.(capacity := None)) + 1.0 / c as real
    ensures SemanticsPenalty(s.(costBias := Some(v))) == SemanticsPenalty(s.(costBias := None)) + v
  {
  }

  lemma {:induction false} SomeGrantIsPriced(policies: seq<ZonePolicy>, p: ZonePolicy)
    requires p in policies && NeedsGrant(p)
    ensures ZonePenalties(policies) >= 100.0
  {
    var front, last := policies[..|policies| - 1], policies[|policies| - 1];
    assert policies == front + [last];
    if p != last {
      SomeGrantIsPriced(front, p);
    }
  }

  /** An edge drawn in a zone that must be claimed first costs at least 100 to use;
      an edge outside every zone costs what its own semantics say. */
  lemma ClaimedZonesAreDear(ix: Index, edge: Id, zone: Id)
    requires edge in ix.edges
    ensures zone in ix.edges[edge].zoneIds && zone in ix.zones
            && (ix.zones[zone].requiresClaim || ix.zones[zone].blocksEntry || ix.zones[zone].blocksTraversal) ==>
              EdgePenalty(ix, edge).value >= 100.0
    ensures (forall z | z in ix.edges[edge].zoneIds :: z !in ix.zones) ==>
              EdgePenalty(ix, edge) == Some(SemanticsPenalty(ix.edges[edge].semantics))
  {
    var policies := EdgeZonePolicies(ix, edge);
    if zone in ix.edges[edge].zoneIds && zone in ix.zones && NeedsGrant(ix.zones[zone]) {
      SomeGrantIsPriced(policies, ix.zones[zone]);
    }
    var around := ZonesOfEdge(ix, edge);
    if around != [] {
      assert around[0] in around && around[0] in ix.edges[edge].zoneIds;
    }
  }
}
