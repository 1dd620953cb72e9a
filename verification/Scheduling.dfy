/** Reserving a route in time: when each resource on it is needed, who is in the
    way, and whether to go, wait or plan again. */
module Scheduling {
  import opened Basics
  import opened Workspace
  import opened EdgePolicy
  import opened RoutePlans
  import opened Claims
  import opened Ledgers

  // ---------------------------------------------------------------------------
  // what a resource demands
  // ---------------------------------------------------------------------------

  datatype TargetSemantics = TargetSemantics(
    target: Target,
    requiresClaim: bool,
    waitingAllowed: bool,
    stopAllowed: bool,
    blocked: bool,
    corridor: bool,
    slowdown: bool)

  function Undemanding(target: Target): TargetSemantics {
    TargetSemantics(target, false, true, true, false, false, false)
  }

  predicate Slow(limit: Option<real>) {
    limit.Some? && limit.value < 1.0
  }

  predicate NeedsEntryGrant(p: ZonePolicy) {
    p.blocked.GetOr(false) || p.blocksEntry || p.blocksTraversal
  }

  function ZoneSemantics(target: Target, p: ZonePolicy): TargetSemantics {
    TargetSemantics(target, p.requiresClaim, p.waitingAllowed.GetOr(true), p.stopAllowed.GetOr(!p.blocked.GetOr(false)),
                    NeedsEntryGrant(p), p.kind == Corridor, p.kind == Slowdown || Slow(p.speedLimit))
  }

  function EdgeTargetSemantics(target: Target, s: EdgeSemantics): TargetSemantics {
    TargetSemantics(target, s.requiresClaim.GetOr(false), s.waitingAllowed.GetOr(true), s.stopAllowed.GetOr(!s.blocked.GetOr(false)),
                    s.blocked.GetOr(false), s.corridorLane, Slow(s.speedLimit))
  }

  /** A node is as demanding as the most demanding zone around it. */
  function NodeSemantics(target: Target, ps: seq<ZonePolicy>): TargetSemantics {
    TargetSemantics(target,
      exists p | p in ps :: p.requiresClaim,
      forall p | p in ps :: p.waitingAllowed.GetOr(true),
      forall p | p in ps :: p.stopAllowed.GetOr(true),
      exists p | p in ps :: NeedsEntryGrant(p),
      exists p: ZonePolicy | p in ps :: p.kind == Corridor,
      exists p: ZonePolicy | p in ps :: p.kind == Slowdown || Slow(p.speedLimit))
  }

  function SemanticsOf(ix: Index, target: Target): (s: TargetSemantics)
    ensures s.target == target
  {
    match target.kind
    case Zone =>
      if target.resource in ix.zones then ZoneSemantics(target, ix.zones[target.resource]) else Undemanding(target)
    case Edge =>
      if target.resource in ix.edges
      then EdgeTargetSemantics(target, Overlaid(ix.edges[target.resource].semantics, EdgeZonePolicies(ix, target.resource)))
      else Undemanding(target)
    case Node =>
      NodeSemantics(target, PoliciesOf(ix, ZonesOfNode(ix, target.resource)))
  }

  method ClaimTargetSemantics(ix: Index, target: Target) returns (s: TargetSemantics)
    ensures s == SemanticsOf(ix, target)
  {
    match target.kind {
      case Zone =>
        s := if target.resource in ix.zones then ZoneSemantics(target, ix.zones[target.resource]) else Undemanding(target);
      case Edge =>
        if target.resource !in ix.edges {
          return Undemanding(target);
        }
        var effective := DeriveEffectiveEdgeSemantics(ix.edges[target.resource].semantics, EdgeZonePolicies(ix, target.resource));
        s := EdgeTargetSemantics(target, effective);
      case Node =>
        s := CombineNodeZones(target, PoliciesOf(ix, ZonesOfNode(ix, target.resource)));
    }
  }

  method CombineNodeZones(target: Target, ps: seq<ZonePolicy>) returns (s: TargetSemantics)
    ensures s == NodeSemantics(target, ps)
  {
    s := Undemanding(target);
    for i := 0 to |ps|
      invariant s == NodeSemantics(target, ps[..i])
    {
      var p := ps[i];
      OneMoreZone(target, ps[..i], p);
      assert ps[..i + 1] == ps[..i] + [p];
      s := TargetSemantics(target,
             s.requiresClaim || p.requiresClaim,
             s.waitingAllowed && p.waitingAllowed.GetOr(true),
             s.stopAllowed && p.stopAllowed.GetOr(true),
             s.blocked || NeedsEntryGrant(p),
             s.corridor || p.kind == Corridor,
             s.slowdown || p.kind == Slowdown || Slow(p.speedLimit));
    }
    assert ps[..|ps|] == ps;
  }

  lemma OneMoreZone(target: Target, ps: seq<ZonePolicy>, p: ZonePolicy)
    ensures
      var s := NodeSemantics(target, ps);
      NodeSemantics(target, ps + [p]) == TargetSemantics(target,
        s.requiresClaim || p.requiresClaim,
        s.waitingAllowed && p.waitingAllowed.GetOr(true),
        s.stopAllowed && p.stopAllowed.GetOr(true),
        s.blocked || NeedsEntryGrant(p),
        s.corridor || p.kind == Corridor,
        s.slowdown || p.kind == Slowdown || Slow(p.speedLimit))
  {
    assert forall q :: q in ps + [p] <==> q in ps || q == p;
  }

  // ---------------------------------------------------------------------------
  // ticks along a route
  // ---------------------------------------------------------------------------

  function Ceil(x: real): (n: int)
    ensures x <= n as real < x + 1.0
  {
    -((-x).Floor)
  }

  /** A cost in whole ticks, rounded up, never negative, cut off at the top of
      the 64-bit range. */
  function Offset(cost: real, rate: real): (ticks: u64)
    ensures cost * rate <= ticks as real || ticks == U64_MAX
  {
    if cost * rate <= 0.0 then 0
    else if Ceil(cost * rate) > U64_MAX then 0xFFFF_FFFF_FFFF_FFFF
    else Ceil(cost * rate)
  }

  /** The 64-bit sum of two ticks, which wraps around. */
  function WrappingAdd(a: u64, b: u64): (t: u64)
    ensures a + b <= U64_MAX ==> t == a + b
  {
    if a + b > U64_MAX then a + b - U64_MAX - 1 else a + b
  }

  lemma OffsetGrows(a: real, b: real, rate: real)
    requires 0.0 <= a <= b
    ensures Offset(a, rate) <= Offset(b, rate)
  {
    if rate >= 0.0 {
      CeilGrows(a * rate, b * rate);
    } else {
      assert a * rate <= 0.0;
    }
  }

  lemma CeilGrows(x: real, y: real)
    requires x <= y
    ensures Ceil(x) <= Ceil(y)
    ensures y > 0.0 ==> Ceil(y) >= 0
  {
    assert (Ceil(x) as real) < (Ceil(y) + 1) as real;
  }

  /** No step of the plan runs past the last tick. */
  predicate TicksFit(p: RoutePlan, start: u64, rate: real) {
    forall i | 0 <= i < |p.steps| :: start + Offset(p.steps[i].cumulative, rate) <= U64_MAX
  }

  function TickAt(p: RoutePlan, start: u64, rate: real, i: nat): (t: u64) {
    if i >= |p.steps| then start else WrappingAdd(start, Offset(p.steps[i].cumulative, rate))
  }

  datatype TargetWindow = TargetWindow(semantics: TargetSemantics, start: u64, end: u64)

  function ZoneWindows(ix: Index, zones: seq<Id>, from: u64, until: u64): seq<TargetWindow>
  {
    if zones == [] then []
    else ZoneWindows(ix, zones[..|zones| - 1], from, until)
         + [TargetWindow(SemanticsOf(ix, Target(Zone, zones[|zones| - 1])), from, until)]
  }

  function StayUntil(p: RoutePlan, start: u64, rate: real, i: nat): u64
  {
    var from := TickAt(p, start, rate, i);
    if i + 1 < |p.steps| then Max(from, TickAt(p, start, rate, i + 1)) else from
  }

  function NodeWindows(ix: Index, p: RoutePlan, start: u64, rate: real, i: nat): seq<TargetWindow>
    requires i < |p.nodes|
  {
    var from, until := TickAt(p, start, rate, i), StayUntil(p, start, rate, i);
    [TargetWindow(SemanticsOf(ix, Target(Node, p.nodes[i])), from, until)]
    + if i < |p.nodeZones| then ZoneWindows(ix, p.nodeZones[i], from, until) else []
  }

  function EdgeWindows(ix: Index, p: RoutePlan, start: u64, rate: real, i: nat): seq<TargetWindow>
  {
    if i >= |p.edges| then []
    else
      var from, until := TickAt(p, start, rate, i), Max(TickAt(p, start, rate, i), TickAt(p, start, rate, i + 1));
      [TargetWindow(SemanticsOf(ix, Target(Edge, p.edges[i])), from, until)]
      + if i < |p.edgeZones| then ZoneWindows(ix, p.edgeZones[i], from, until) else []
  }

  function WindowsAt(ix: Index, p: RoutePlan, start: u64, rate: real, i: nat): seq<TargetWindow>
    requires i < |p.nodes|
  {
    NodeWindows(ix, p, start, rate, i) + EdgeWindows(ix, p, start, rate, i)
  }

  /** The windows stop by stop: the node, its zones, the edge out of it, the
      edge's zones. */
  function WindowsByStop(ix: Index, p: RoutePlan, start: u64, rate: real): (parts: seq<seq<TargetWindow>>)
    ensures |parts| == |p.nodes| && forall i | 0 <= i < |parts| :: parts[i] == WindowsAt(ix, p, start, rate, i)
  {
    seq(|p.nodes|, i requires 0 <= i < |p.nodes| => WindowsAt(ix, p, start, rate, i))
  }

  function WindowsOf(ix: Index, p: RoutePlan, start: u64, rate: real): seq<TargetWindow>
  {
    if WellShaped(p) then Flat(WindowsByStop(ix, p, start, rate)) else []
  }

  method AddZoneWindows(ix: Index, windows: seq<TargetWindow>, zones: seq<Id>, from: u64, until: u64) returns (ws: seq<TargetWindow>)
    ensures ws == windows + ZoneWindows(ix, zones, from, until)
  {
    ws := windows;
    for i := 0 to |zones|
      invariant ws == windows + ZoneWindows(ix, zones[..i], from, until)
    {
      var semantics := ClaimTargetSemantics(ix, Target(Zone, zones[i]));
      ws := ws + [TargetWindow(semantics, from, until)];
      assert zones[..i + 1][..i] == zones[..i];
    }
    assert zones[..|zones|] == zones;
  }

  /** Every resource on the route with the ticks it is needed for; nothing for a
      plan that fails the shape check. */
  method ScheduledTargetWindowsFromRoute(ix: Index, p: RoutePlan, start: u64, rate: real) returns (windows: seq<TargetWindow>)
    ensures windows == WindowsOf(ix, p, start, rate)
  {
    var shape := ValidateRoutePlanShape(p);
    if shape.Err? {
      return [];
    }
    windows := ListWindows(ix, p, start, rate);
  }

  method ListWindows(ix: Index, p: RoutePlan, start: u64, rate: real) returns (windows: seq<TargetWindow>)
    ensures windows == Flat(WindowsByStop(ix, p, start, rate))
  {
    windows := [];
    ghost var parts := WindowsByStop(ix, p, start, rate);
    for i := 0 to |p.nodes|
      invariant windows == Flat(parts[..i])
    {
      FlatGrows(parts, i);
      windows := AddWindowsAt(ix, windows, p, start, rate, i);
    }
    assert parts[..|parts|] == parts;
  }

  method AddWindowsAt(ix: Index, windows: seq<TargetWindow>, p: RoutePlan, start: u64, rate: real, i: nat) returns (ws: seq<TargetWindow>)
    requires i < |p.nodes|
    ensures ws == windows + WindowsAt(ix, p, start, rate, i)
  {
    ws := AddNodeWindows(ix, windows, p, start, rate, i);
    ws := AddEdgeWindows(ix, ws, p, start, rate, i);
  }

  method AddNodeWindows(ix: Index, windows: seq<TargetWindow>, p: RoutePlan, start: u64, rate: real, i: nat) returns (ws: seq<TargetWindow>)
    requires i < |p.nodes|
    ensures ws == windows + NodeWindows(ix, p, start, rate, i)
  {
    var from := TickAt(p, start, rate, i);
    var next := if i + 1 < |p.steps| then TickAt(p, start, rate, i + 1) else from;
    var until := Max(from, next);
    var semantics := ClaimTargetSemantics(ix, Target(Node, p.nodes[i]));
    ws := windows + [TargetWindow(semantics, from, until)];
    if i < |p.nodeZones| {
      ws := AddZoneWindows(ix, ws, p.nodeZones[i], from, until);
    }
  }

  method AddEdgeWindows(ix: Index, windows: seq<TargetWindow>, p: RoutePlan, start: u64, rate: real, i: nat) returns (ws: seq<TargetWindow>)
    ensures ws == windows + EdgeWindows(ix, p, start, rate, i)
  {
    if i >= |p.edges| {
      return windows;
    }
    var from := TickAt(p, start, rate, i);
    var until := Max(from, TickAt(p, start, rate, i + 1));
    var semantics := ClaimTargetSemantics(ix, Target(Edge, p.edges[i]));
    ws := windows + [TargetWindow(semantics, from, until)];
    if i < |p.edgeZones| {
      ws := AddZoneWindows(ix, ws, p.edgeZones[i], from, until);
    }
  }

  // ---------------------------------------------------------------------------
  // the windows of a built plan
  // ---------------------------------------------------------------------------

  /** The window a claim for the whole route asks for. */
  function ClaimWindowFromRoute(p: RoutePlan, start: u64, rate: real): Window {
    Window(Some(start), Some(SaturatingAdd(start, Offset(p.totalCost, rate))))
  }

  /** Costs build up along the plan and end at its total. */
  predicate CostsBuildUp(p: RoutePlan) {
    && (forall i | 0 <= i < |p.steps| :: 0.0 <= p.steps[i].cumulative <= p.totalCost)
    && (forall i, j | 0 <= i < j < |p.steps| :: p.steps[i].cumulative <= p.steps[j].cumulative)
  }

  lemma {:induction false} CostsGrow(ix: Index, model: CostModel, nodes: seq<Id>, i: nat, j: nat)
    requires forall e | e in ix.graph :: e.weight >= 0.0
    requires i <= j < |nodes| && CostTo(ix, model, nodes, j).Ok?
    ensures CostTo(ix, model, nodes, i).Ok?
    ensures 0.0 <= CostTo(ix, model, nodes, i).value <= CostTo(ix, model, nodes, j).value
  {
    if j > 0 {
      PricesAreNonNegative(ix, model, nodes[j - 1], nodes[j]);
      CostsGrow(ix, model, nodes, if i < j then i else j - 1, j - 1);
    }
  }

  lemma PricesAreNonNegative(ix: Index, model: CostModel, a: Id, b: Id)
    requires forall e | e in ix.graph :: e.weight >= 0.0
    ensures PairCost(ix, model, a, b).Ok? ==> PairCost(ix, model, a, b).value >= 0.0
  {
    EdgeBetweenFinds(ix, a, b);
  }

  lemma BuiltCostsBuildUp(ix: Index, model: CostModel, p: RoutePlan)
    requires forall e | e in ix.graph :: e.weight >= 0.0
    requires Describes(ix, model, p.nodes, p)
    ensures CostsBuildUp(p)
  {
    forall i, j | 0 <= i <= j < |p.steps|
      ensures 0.0 <= p.steps[i].cumulative <= p.steps[j].cumulative
    {
      assert StepPriced(ix, model, p.nodes, p.edges, i, p.steps[i]) && StepPriced(ix, model, p.nodes, p.edges, j, p.steps[j]);
      CostsGrow(ix, model, p.nodes, i, j);
    }
    if p.steps != [] {
      var last := |p.steps| - 1;
      assert StepPriced(ix, model, p.nodes, p.edges, last, p.steps[last]);
      assert forall i | 0 <= i < |p.steps| :: p.steps[i].cumulative <= p.steps[last].cumulative;
    }
  }

  lemma TicksGrow(p: RoutePlan, start: u64, rate: real, i: nat, j: nat)
    requires TicksFit(p, start, rate) && CostsBuildUp(p) && i <= j < |p.steps|
    ensures TickAt(p, start, rate, i) <= TickAt(p, start, rate, j)
    ensures TickAt(p, start, rate, j) <= End(ClaimWindowFromRoute(p, start, rate))
  {
    OffsetGrows(p.steps[i].cumulative, p.steps[j].cumulative, rate);
    OffsetGrows(p.steps[j].cumulative, p.totalCost, rate);
  }

  /** The reservation has no gap: a stop is held until the next one begins. */
  lemma NoGapBetweenStops(ix: Index, model: CostModel, p: RoutePlan, start: u64, rate: real, i: nat)
    requires forall e | e in ix.graph :: e.weight >= 0.0
    requires Describes(ix, model, p.nodes, p) && TicksFit(p, start, rate) && i + 1 < |p.nodes|
    ensures StayUntil(p, start, rate, i) == TickAt(p, start, rate, i + 1)
  {
    BuiltCostsBuildUp(ix, model, p);
    TicksGrow(p, start, rate, i, i + 1);
  }

  /** A window for stop `i`: it starts when the stop does, ends no earlier, and
      lies inside the claim window. */
  predicate WindowOfStop(p: RoutePlan, start: u64, rate: real, i: nat, w: TargetWindow)
  {
    && w.start == TickAt(p, start, rate, i) && w.start <= w.end
    && Covers(ClaimWindowFromRoute(p, start, rate), w.start) && Covers(ClaimWindowFromRoute(p, start, rate), w.end)
  }

  lemma {:induction false} ZoneWindowsSpan(ix: Index, zones: seq<Id>, from: u64, until: u64)
    ensures forall w | w in ZoneWindows(ix, zones, from, until) :: w.start == from && w.end == until
  {
    if zones != [] {
      ZoneWindowsSpan(ix, zones[..|zones| - 1], from, until);
    }
  }

  /** Whatever the plan's costs, a stop's windows start with the stop and end no
      earlier. */
  lemma WindowsStartWithTheStop(ix: Index, p: RoutePlan, start: u64, rate: real, i: nat)
    requires i < |p.nodes|
    ensures forall w | w in WindowsAt(ix, p, start, rate, i) :: w.start == TickAt(p, start, rate, i) && w.start <= w.end
  {
    var from := TickAt(p, start, rate, i);
    if i < |p.nodeZones| {
      ZoneWindowsSpan(ix, p.nodeZones[i], from, StayUntil(p, start, rate, i));
    }
    if i < |p.edges| && i < |p.edgeZones| {
      ZoneWindowsSpan(ix, p.edgeZones[i], from, Max(from, TickAt(p, start, rate, i + 1)));
    }
    forall w | w in WindowsAt(ix, p, start, rate, i) ensures w.start == from && w.start <= w.end {
      assert w in NodeWindows(ix, p, start, rate, i) || w in EdgeWindows(ix, p, start, rate, i);
    }
  }

  lemma WindowsAtFit(ix: Index, p: RoutePlan, start: u64, rate: real, i: nat)
    requires TicksFit(p, start, rate) && CostsBuildUp(p) && i < |p.nodes| == |p.steps| && |p.edges| + 1 == |p.nodes|
    ensures forall w | w in WindowsAt(ix, p, start, rate, i) :: WindowOfStop(p, start, rate, i, w)
  {
    var from, until := TickAt(p, start, rate, i), StayUntil(p, start, rate, i);
    TicksGrow(p, start, rate, i, if i + 1 < |p.steps| then i + 1 else i);
    if i < |p.nodeZones| {
      ZoneWindowsSpan(ix, p.nodeZones[i], from, until);
    }
    if i < |p.edges| && i < |p.edgeZones| {
      ZoneWindowsSpan(ix, p.edgeZones[i], from, until);
    }
    forall w | w in WindowsAt(ix, p, start, rate, i) ensures w.start == from && w.end == until {
      assert w in NodeWindows(ix, p, start, rate, i) || w in EdgeWindows(ix, p, start, rate, i);
    }
  }

  ghost predicate StartsAscend(ws: seq<TargetWindow>) {
    forall i, j | 0 <= i < j < |ws| :: ws[i].start <= ws[j].start
  }

  lemma AscendsInBoth(before: seq<TargetWindow>, here: seq<TargetWindow>, tick: u64)
    requires StartsAscend(before)
    requires forall w | w in before :: w.start <= tick
    requires forall w | w in here :: w.start == tick
    ensures StartsAscend(before + here)
  {
    forall i, j | 0 <= i < j < |before + here| ensures (before + here)[i].start <= (before + here)[j].start {
      if i < |before| {
        assert before[i] in before;
      } else {
        assert here[i - |before|] in here;
      }
      if j >= |before| {
        assert here[j - |before|] in here;
      }
    }
  }

  ghost predicate StartAt(ws: seq<TargetWindow>, tick: u64) {
    forall w | w in ws :: w.start == tick
  }

  lemma {:induction false} FlatAscends(parts: seq<seq<TargetWindow>>, ticks: seq<u64>)
    requires |parts| == |ticks| && forall i | 0 <= i < |parts| :: StartAt(parts[i], ticks[i])
    requires forall i, j | 0 <= i < j < |ticks| :: ticks[i] <= ticks[j]
    ensures StartsAscend(Flat(parts))
  {
    if parts != [] {
      var last := |parts| - 1;
      FlatAscends(parts[..last], ticks[..last]);
      forall w | w in Flat(parts[..last]) ensures w.start <= ticks[last] {
        FlatMembers(parts[..last], w);
        var i :| 0 <= i < last && w in parts[..last][i];
        assert StartAt(parts[i], ticks[i]);
      }
      assert StartAt(parts[last], ticks[last]);
      AscendsInBoth(Flat(parts[..last]), parts[last], ticks[last]);
    }
  }

  lemma EveryWindowHasAStop(ix: Index, p: RoutePlan, start: u64, rate: real, w: TargetWindow) returns (i: nat)
    requires w in WindowsOf(ix, p, start, rate)
    ensures i < |p.nodes| && w in WindowsAt(ix, p, start, rate, i)
  {
    var parts := WindowsByStop(ix, p, start, rate);
    FlatMembers(parts, w);
    i :| 0 <= i < |parts| && w in parts[i];
  }

  lemma EveryStopIsListed(ix: Index, p: RoutePlan, start: u64, rate: real, i: nat, w: TargetWindow)
    requires WellShaped(p) && i < |p.nodes|
    requires w in WindowsAt(ix, p, start, rate, i)
    ensures w in WindowsOf(ix, p, start, rate)
  {
    var parts := WindowsByStop(ix, p, start, rate);
    assert w in parts[i];
    FlatMembers(parts, w);
  }

  lemma StopsAscend(ix: Index, p: RoutePlan, start: u64, rate: real)
    requires TicksFit(p, start, rate) && CostsBuildUp(p) && |p.nodes| == |p.steps|
    ensures StartsAscend(Flat(WindowsByStop(ix, p, start, rate)))
  {
    var parts := WindowsByStop(ix, p, start, rate);
    var ticks: seq<u64> := seq(|p.nodes|, i requires 0 <= i < |p.nodes| => TickAt(p, start, rate, i));
    forall i | 0 <= i < |parts| ensures StartAt(parts[i], ticks[i]) {
      WindowsStartWithTheStop(ix, p, start, rate, i);
    }
    forall i, j | 0 <= i < j < |ticks| ensures ticks[i] <= ticks[j] {
      TicksGrow(p, start, rate, i, j);
    }
    FlatAscends(parts, ticks);
  }

  /** Every window of a built plan ends no earlier than it starts and lies inside
      the claim window; the starts follow the route. */
  lemma WindowsLieInTheClaim(ix: Index, model: CostModel, p: RoutePlan, start: u64, rate: real)
    requires forall e | e in ix.graph :: e.weight >= 0.0
    requires WellShaped(p) && Describes(ix, model, p.nodes, p) && TicksFit(p, start, rate)
    ensures StartsAscend(WindowsOf(ix, p, start, rate))
    ensures forall w | w in WindowsOf(ix, p, start, rate) ::
              && w.start <= w.end
              && Covers(ClaimWindowFromRoute(p, start, rate), w.start) && Covers(ClaimWindowFromRoute(p, start, rate), w.end)
  {
    if p.nodes != [] {
      BuiltCostsBuildUp(ix, model, p);
      StopsAscend(ix, p, start, rate);
    }
    forall w | w in WindowsOf(ix, p, start, rate)
      ensures w.start <= w.end && Covers(ClaimWindowFromRoute(p, start, rate), w.start) && Covers(ClaimWindowFromRoute(p, start, rate), w.end)
    {
      var i := EveryWindowHasAStop(ix, p, start, rate, w);
      WindowsAtFit(ix, p, start, rate, i);
    }
  }

  lemma {:induction false} EveryZoneIsListed(ix: Index, zones: seq<Id>, z: Id, from: u64, until: u64)
    requires z in zones
    ensures TargetWindow(SemanticsOf(ix, Target(Zone, z)), from, until) in ZoneWindows(ix, zones, from, until)
  {
    if z != zones[|zones| - 1] {
      assert zones == zones[..|zones| - 1] + [zones[|zones| - 1]];
      EveryZoneIsListed(ix, zones[..|zones| - 1], z, from, until);
    }
  }

  // ---------------------------------------------------------------------------
  // when each resource is reserved
  // ---------------------------------------------------------------------------

  lemma WrapsExactly(a: u64, b: u64)
    ensures (WrappingAdd(a, b) - a) % (U64_MAX + 1) == b
  {
  }

  /** A stop begins on the first whole tick its cost is due, counted from the
      start around the 64-bit clock; a cost beyond the clock counts as its top. */
  lemma StopsBeginOnTime(p: RoutePlan, start: u64, rate: real, i: nat)
    requires i < |p.steps|
    ensures
      var due, waited := p.steps[i].cumulative * rate, (TickAt(p, start, rate, i) - start) % (U64_MAX + 1);
      if due <= 0.0 then waited == 0
      else if due > U64_MAX as real then waited == U64_MAX
      else due <= waited as real && waited as real < due + 1.0
    ensures TicksFit(p, start, rate) ==> TickAt(p, start, rate, i) >= start
  {
    var due := p.steps[i].cumulative * rate;
    var offset := Offset(p.steps[i].cumulative, rate);
    assert Ceil(due) > U64_MAX <==> due > U64_MAX as real;
    WrapsExactly(start, offset);
  }

  /** What is reserved while the robot stands at stop `i` ... */
  predicate StandingTarget(p: RoutePlan, i: nat, t: Target)
    requires i < |p.nodes|
  {
    t == Target(Node, p.nodes[i]) || (i < |p.nodeZones| && t.kind == Zone && t.resource in p.nodeZones[i])
  }

  /** ... and while it drives on to the next. */
  predicate DrivingTarget(p: RoutePlan, i: nat, t: Target) {
    i < |p.edges| && (t == Target(Edge, p.edges[i]) || (i < |p.edgeZones| && t.kind == Zone && t.resource in p.edgeZones[i]))
  }

  lemma {:induction false} ZoneWindowsExactly(ix: Index, zones: seq<Id>, from: u64, until: u64, w: TargetWindow)
    ensures w in ZoneWindows(ix, zones, from, until) <==>
              exists z | z in zones :: w == TargetWindow(SemanticsOf(ix, Target(Zone, z)), from, until)
  {
    if zones != [] {
      assert zones == zones[..|zones| - 1] + [zones[|zones| - 1]];
      ZoneWindowsExactly(ix, zones[..|zones| - 1], from, until, w);
    }
  }

  lemma StandingWindows(ix: Index, p: RoutePlan, start: u64, rate: real, i: nat, w: TargetWindow)
    requires i < |p.nodes|
    ensures w in NodeWindows(ix, p, start, rate, i) <==>
              && w.semantics == SemanticsOf(ix, w.semantics.target) && StandingTarget(p, i, w.semantics.target)
              && w.start == TickAt(p, start, rate, i) && w.end == StayUntil(p, start, rate, i)
  {
    var t := w.semantics.target;
    if i < |p.nodeZones| {
      ZoneWindowsExactly(ix, p.nodeZones[i], TickAt(p, start, rate, i), StayUntil(p, start, rate, i), w);
      if t.kind == Zone && t.resource in p.nodeZones[i] {
        assert t == Target(Zone, t.resource);
      }
    }
  }

  lemma DrivingWindows(ix: Index, p: RoutePlan, start: u64, rate: real, i: nat, w: TargetWindow)
    ensures w in EdgeWindows(ix, p, start, rate, i) <==>
              && w.semantics == SemanticsOf(ix, w.semantics.target) && DrivingTarget(p, i, w.semantics.target)
              && w.start == TickAt(p, start, rate, i)
              && w.end == Max(TickAt(p, start, rate, i), TickAt(p, start, rate, i + 1))
  {
    var t := w.semantics.target;
    if i < |p.edges| && i < |p.edgeZones| {
      ZoneWindowsExactly(ix, p.edgeZones[i], TickAt(p, start, rate, i), Max(TickAt(p, start, rate, i), TickAt(p, start, rate, i + 1)), w);
      if t.kind == Zone && t.resource in p.edgeZones[i] {
        assert t == Target(Zone, t.resource);
      }
    }
  }

  /** A window of stop `i`: for what is reserved there, from when the stop begins to
      when the next one does. */
  predicate ReservedAt(p: RoutePlan, start: u64, rate: real, i: nat, t: Target, from: u64, until: u64)
    requires i < |p.nodes|
  {
    && from == TickAt(p, start, rate, i)
    && ((StandingTarget(p, i, t) && until == StayUntil(p, start, rate, i))
        || (DrivingTarget(p, i, t) && until == Max(from, TickAt(p, start, rate, i + 1))))
  }

  /** The windows of a route are exactly these. */
  lemma WindowsExactly(ix: Index, p: RoutePlan, start: u64, rate: real, w: TargetWindow)
    requires WellShaped(p)
    ensures w in WindowsOf(ix, p, start, rate) <==>
              && w.semantics == SemanticsOf(ix, w.semantics.target)
              && exists i | 0 <= i < |p.nodes| :: ReservedAt(p, start, rate, i, w.semantics.target, w.start, w.end)
  {
    if w in WindowsOf(ix, p, start, rate) {
      var i := EveryWindowHasAStop(ix, p, start, rate, w);
      StandingWindows(ix, p, start, rate, i, w);
      DrivingWindows(ix, p, start, rate, i, w);
      assert ReservedAt(p, start, rate, i, w.semantics.target, w.start, w.end);
    }
    if w.semantics == SemanticsOf(ix, w.semantics.target) {
      if i :| 0 <= i < |p.nodes| && ReservedAt(p, start, rate, i, w.semantics.target, w.start, w.end) {
        StandingWindows(ix, p, start, rate, i, w);
        DrivingWindows(ix, p, start, rate, i, w);
        assert w in WindowsAt(ix, p, start, rate, i);
        EveryStopIsListed(ix, p, start, rate, i, w);
      }
    }
  }

  /** A node, an edge or a listed zone of the route. */
  predicate RouteTarget(p: RoutePlan, t: Target) {
    exists i | 0 <= i < |p.nodes| :: StandingTarget(p, i, t) || DrivingTarget(p, i, t)
  }

  /** The windows of a route are for exactly its nodes, edges and listed zones;
      where ticks do not run out, none starts before the route or ends before it
      starts. */
  lemma WindowsAreForTheRoute(ix: Index, p: RoutePlan, start: u64, rate: real, t: Target)
    requires WellShaped(p)
    ensures RouteTarget(p, t) <==> exists w | w in WindowsOf(ix, p, start, rate) :: w.semantics.target == t
    ensures RouteTarget(p, t) && TicksFit(p, start, rate) ==>
              exists w | w in WindowsOf(ix, p, start, rate) :: w.semantics.target == t && start <= w.start && w.start <= w.end
  {
    if RouteTarget(p, t) {
      var i :| 0 <= i < |p.nodes| && (StandingTarget(p, i, t) || DrivingTarget(p, i, t));
      var until := if StandingTarget(p, i, t) then StayUntil(p, start, rate, i)
                   else Max(TickAt(p, start, rate, i), TickAt(p, start, rate, i + 1));
      var w := TargetWindow(SemanticsOf(ix, t), TickAt(p, start, rate, i), until);
      assert ReservedAt(p, start, rate, i, t, w.start, w.end);
      WindowsExactly(ix, p, start, rate, w);
    }
    forall w | w in WindowsOf(ix, p, start, rate) ensures RouteTarget(p, w.semantics.target) {
      WindowsExactly(ix, p, start, rate, w);
    }
  }

  // ---------------------------------------------------------------------------
  // where a robot may wait
  // ---------------------------------------------------------------------------

  /** A zone lets a robot wait: it is open to whoever comes, no corridor, and rules
      out neither waiting nor stopping. */
  predicate ZoneLetsWait(p: ZonePolicy) {
    && p.blocked != Some(true) && !p.blocksEntry && !p.blocksTraversal && p.kind != Corridor
    && p.waitingAllowed != Some(false) && p.stopAllowed != Some(false)
  }

  /** A robot may wait at a zone that lets it, at a node all of whose zones do, and
      on an edge that is neither closed nor a corridor lane and where waiting and
      stopping are not ruled out. */
  predicate LetsWait(ix: Index, t: Target) {
    match t.kind
    case Zone => t.resource in ix.zones ==> ZoneLetsWait(ix.zones[t.resource])
    case Node => t.resource in ix.nodes ==> forall z | z in ix.nodes[t.resource] && z in ix.zones :: ZoneLetsWait(ix.zones[z])
    case Edge => t.resource in ix.edges ==> EdgeLetsWait(ix, t.resource)
  }

  predicate EdgeLetsWait(ix: Index, edge: Id)
    requires edge in ix.edges
  {
    var own := ix.edges[edge].semantics;
    var effective := Overlaid(own, EdgeZonePolicies(ix, edge));
    && own.blocked != Some(true) && !own.corridorLane
    && (forall z | z in ix.edges[edge].zoneIds && z in ix.zones :: ix.zones[z].blocked != Some(true) && ix.zones[z].kind != Restricted)
    && effective.waitingAllowed != Some(false) && effective.stopAllowed != Some(false)
  }

  predicate Queueable(s: TargetSemantics) {
    !s.blocked && !s.corridor && s.waitingAllowed && s.stopAllowed
  }

  lemma NodeLetsWaitExactly(ix: Index, t: Target)
    requires t.kind == Node
    ensures Queueable(SemanticsOf(ix, t)) <==> LetsWait(ix, t)
  {
    var ps := PoliciesOf(ix, ZonesOfNode(ix, t.resource));
    assert Queueable(NodeSemantics(t, ps)) <==> forall p | p in ps :: ZoneLetsWait(p);
    forall z | z in ZonesOfNode(ix, t.resource) ensures ix.zones[z] in ps {
    }
  }

  lemma EdgeLetsWaitExactly(ix: Index, t: Target)
    requires t.kind == Edge
    ensures Queueable(SemanticsOf(ix, t)) <==> LetsWait(ix, t)
  {
    if t.resource in ix.edges {
      var own, ps := ix.edges[t.resource].semantics, EdgeZonePolicies(ix, t.resource);
      EffectivelyBlocked(own, ps);
      SlowZonesAddUp(own, ps);
      forall z | z in ZonesOfEdge(ix, t.resource) ensures ix.zones[z] in ps {
      }
    }
  }

  /** What a resource demands lets a robot wait there exactly when the policies do. */
  lemma LetsWaitExactly(ix: Index, t: Target)
    ensures Queueable(SemanticsOf(ix, t)) <==> LetsWait(ix, t)
  {
    match t.kind {
      case Zone =>
      case Node => NodeLetsWaitExactly(ix, t);
      case Edge => EdgeLetsWaitExactly(ix, t);
    }
  }

  /** A slowdown or a limit below one metre per second slows; a claim is demanded
      where a zone demands one. */
  predicate Slows(p: ZonePolicy) {
    p.kind == Slowdown || (p.speedLimit.Some? && p.speedLimit.value < 1.0)
  }

  lemma ClaimsAndSlowdowns(ix: Index, t: Target)
    ensures t.kind == Zone && t.resource in ix.zones ==>
              && (SemanticsOf(ix, t).requiresClaim <==> ix.zones[t.resource].requiresClaim)
              && (SemanticsOf(ix, t).slowdown <==> Slows(ix.zones[t.resource]))
    ensures t.kind == Node && t.resource in ix.nodes ==>
              && (SemanticsOf(ix, t).requiresClaim <==>
                    exists z | z in ix.nodes[t.resource] :: z in ix.zones && ix.zones[z].requiresClaim)
              && (SemanticsOf(ix, t).slowdown <==> exists z | z in ix.nodes[t.resource] :: z in ix.zones && Slows(ix.zones[z]))
  {
    if t.kind == Node && t.resource in ix.nodes {
      var around := ZonesOfNode(ix, t.resource);
      assert forall z :: z in around <==> z in ix.nodes[t.resource] && z in ix.zones;
      assert forall p :: p in PoliciesOf(ix, around) <==> exists z | z in around :: ix.zones[z] == p;
    }
  }

  predicate KeepsOut(p: ZonePolicy) {
    p.blocked == Some(true) || p.blocksEntry || p.blocksTraversal
  }

  /** A zone rules out stopping in so many words, or by being blocked and silent. */
  predicate RulesOutStops(p: ZonePolicy) {
    p.stopAllowed == Some(false) || (p.stopAllowed.None? && p.blocked == Some(true))
  }

  predicate IsCorridor(p: ZonePolicy) {
    p.kind == Corridor
  }

  predicate RulesOutWaiting(p: ZonePolicy) {
    p.waitingAllowed == Some(false)
  }

  predicate ForbidsStopping(p: ZonePolicy) {
    p.stopAllowed == Some(false)
  }

  predicate SomePolicy(ps: seq<ZonePolicy>, g: ZonePolicy -> bool) {
    exists p | p in ps :: g(p)
  }

  /** A node lists a zone of the tree whose policy has the property. */
  predicate SomeZoneAround(ix: Index, node: Id, g: ZonePolicy -> bool)
    requires node in ix.nodes
  {
    exists z | z in ix.nodes[node] :: z in ix.zones && g(ix.zones[z])
  }

  lemma PoliciesAroundNode(ix: Index, node: Id, g: ZonePolicy -> bool)
    requires node in ix.nodes
    ensures SomePolicy(PoliciesOf(ix, ZonesOfNode(ix, node)), g) <==> SomeZoneAround(ix, node, g)
  {
    var around := ZonesOfNode(ix, node);
    forall z | z in ix.nodes[node] && z in ix.zones ensures z in around && ix.zones[z] in PoliciesOf(ix, around) {
    }
  }

  lemma EachRefusalOfPolicies(t: Target, ps: seq<ZonePolicy>)
    ensures var s := NodeSemantics(t, ps);
            && (s.blocked <==> SomePolicy(ps, KeepsOut)) && (s.corridor <==> SomePolicy(ps, IsCorridor))
            && (s.waitingAllowed <==> !SomePolicy(ps, RulesOutWaiting)) && (s.stopAllowed <==> !SomePolicy(ps, ForbidsStopping))
  {
    var s := NodeSemantics(t, ps);
    assert s.blocked <==> exists p | p in ps :: KeepsOut(p);
    assert s.corridor <==> exists p | p in ps :: IsCorridor(p);
    assert s.waitingAllowed <==> !exists p | p in ps :: RulesOutWaiting(p);
    assert s.stopAllowed <==> !exists p | p in ps :: ForbidsStopping(p);
  }

  /** Each refusal by itself. */
  lemma EachRefusalOfAZone(ix: Index, t: Target)
    requires t.kind == Zone && t.resource in ix.zones
    ensures var s, p := SemanticsOf(ix, t), ix.zones[t.resource];
            && (s.blocked <==> KeepsOut(p)) && (s.corridor <==> p.kind == Corridor)
            && (s.waitingAllowed <==> p.waitingAllowed != Some(false)) && (s.stopAllowed <==> !RulesOutStops(p))
  {
  }

  /** A blocked zone that is silent on stopping does not rule it out at its nodes. */
  lemma EachRefusalAtANode(ix: Index, t: Target)
    requires t.kind == Node && t.resource in ix.nodes
    ensures var s := SemanticsOf(ix, t);
            && (s.blocked <==> SomeZoneAround(ix, t.resource, KeepsOut))
            && (s.corridor <==> SomeZoneAround(ix, t.resource, IsCorridor))
            && (s.waitingAllowed <==> !SomeZoneAround(ix, t.resource, RulesOutWaiting))
            && (s.stopAllowed <==> !SomeZoneAround(ix, t.resource, ForbidsStopping))
  {
    EachRefusalOfPolicies(t, PoliciesOf(ix, ZonesOfNode(ix, t.resource)));
    PoliciesAroundNode(ix, t.resource, KeepsOut);
    PoliciesAroundNode(ix, t.resource, IsCorridor);
    PoliciesAroundNode(ix, t.resource, RulesOutWaiting);
    PoliciesAroundNode(ix, t.resource, ForbidsStopping);
  }

  predicate Closes(p: ZonePolicy) {
    p.blocked == Some(true) || p.kind == Restricted
  }

  /** On an edge, what its zones leave of its own word decides; the lane is its own. */
  lemma EachRefusalOnAnEdge(ix: Index, t: Target)
    requires t.kind == Edge && t.resource in ix.edges
    ensures var s, own := SemanticsOf(ix, t), ix.edges[t.resource].semantics;
            var left := Overlaid(own, EdgeZonePolicies(ix, t.resource));
            && (s.corridor <==> own.corridorLane)
            && (s.blocked <==> own.blocked == Some(true) || exists z | z in ix.edges[t.resource].zoneIds :: z in ix.zones && Closes(ix.zones[z]))
            && (s.waitingAllowed <==> left.waitingAllowed != Some(false))
            && (s.stopAllowed <==> left.stopAllowed != Some(false) && (left.stopAllowed.Some? || !s.blocked))
            && (s.requiresClaim <==> left.requiresClaim == Some(true))
  {
    EffectivelyBlocked(ix.edges[t.resource].semantics, EdgeZonePolicies(ix, t.resource));
    SlowZonesAddUp(ix.edges[t.resource].semantics, EdgeZonePolicies(ix, t.resource));
    forall z | z in ZonesOfEdge(ix, t.resource) ensures ix.zones[z] in EdgeZonePolicies(ix, t.resource) {
    }
  }
}
