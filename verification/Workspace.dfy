/** The workspace as the other components see it: parsed traffic policies and
    the immutable lookup record that an index build leaves behind. */
module Workspace {
  import opened Basics

  /** A UUID. Only equality is ever used. */
  datatype Id = Id(raw: nat)

  datatype ZonePolicyKind =
    | Informational
    | ExclusiveAccess
    | SharedAccess
    | CapacityLimited
    | Corridor
    | Replanning
    | Restricted
    | NoStop
    | Slowdown

  datatype ZonePolicy = ZonePolicy(
    kind: ZonePolicyKind,
    capacity: u64,
    capacityIsExplicit: bool,
    requiresClaim: bool,
    blocksTraversal: bool,
    blocksEntry: bool,
    priority: Option<real>,
    speedLimit: Option<real>,
    waitingAllowed: Option<bool>,
    stopAllowed: Option<bool>,
    blocked: Option<bool>)

  /** What parsing starts from: one occupant, nothing explicit. */
  const EMPTY_POLICY: ZonePolicy :=
    ZonePolicy(Informational, 1, false, false, false, false, None, None, None, None, None)

  /** The all-zero policy that stands in for a zone without one. */
  const DEFAULT_POLICY: ZonePolicy := EMPTY_POLICY.(capacity := 0)

  /** What `traffic.preferred_direction` can mean to the planner. */
  datatype Direction = Forward | Reverse | EitherWay

  datatype EdgeSemantics = EdgeSemantics(
    speedLimit: Option<real>,
    corridorLane: bool,
    reversible: Option<bool>,
    passingAllowed: Option<bool>,
    requiresClaim: Option<bool>,
    waitingAllowed: Option<bool>,
    stopAllowed: Option<bool>,
    blocked: Option<bool>,
    priority: Option<real>,
    capacity: Option<u64>,
    capacityIsExplicit: bool,
    clearanceWidth: Option<real>,
    clearanceHeight: Option<real>,
    costBias: Option<real>,
    noStop: Option<bool>,
    direction: Option<Direction>)

  datatype EdgeRecord = EdgeRecord(zoneIds: seq<Id>, semantics: EdgeSemantics)

  datatype GraphEdge = GraphEdge(id: Id, source: Id, target: Id, weight: real)

  /** One step out of a node; `fromSource` says which way the edge is walked. */
  datatype Adjacency = Adjacency(node: Id, edge: Id, weight: real, fromSource: bool)

  datatype Index = Index(
    zones: map<Id, ZonePolicy>,
    parents: map<Id, Id>,
    children: map<Id, seq<Id>>,
    ancestors: map<Id, set<Id>>,
    nodes: map<Id, seq<Id>>,
    edges: map<Id, EdgeRecord>,
    graph: seq<GraphEdge>,
    adjacency: map<Id, seq<Adjacency>>)

  /** The zone links form a forest and the cached ancestor sets agree with it.
      Every build from a tree with distinct ids establishes this
      (`IndexBuild.BuiltIndexIsTreeShaped`). */
  predicate TreeShaped(ix: Index)
  {
    && ix.ancestors.Keys == ix.zones.Keys
    && (forall z | z in ix.parents :: z in ix.zones && ix.parents[z] in ix.zones)
    && (forall z | z in ix.zones :: z !in ix.ancestors[z])
    && (forall z {:trigger ix.parents[z]} | z in ix.parents ::
          ix.ancestors[z] == {ix.parents[z]} + ix.ancestors[ix.parents[z]])
    && (forall z | z in ix.zones && z !in ix.parents :: ix.ancestors[z] == {})
  }

  /** Whether `ancestor` is `zone` itself or one of its ancestors. */
  predicate ZoneContains(ix: Index, ancestor: Id, zone: Id)
  {
    ancestor == zone || (zone in ix.ancestors && ancestor in ix.ancestors[zone])
  }

  lemma {:induction false} ContainsIsTransitive(ix: Index, a: Id, b: Id, c: Id)
    requires TreeShaped(ix)
    requires ZoneContains(ix, a, b) && ZoneContains(ix, b, c)
    ensures ZoneContains(ix, a, c)
    decreases if c in ix.ancestors then |ix.ancestors[c]| else 0
  {
    if a != b && b != c {
      var p := ix.parents[c];
      assert p !in ix.ancestors[p];
      assert ix.ancestors[c] == {p} + ix.ancestors[p];
      assert |ix.ancestors[c]| == 1 + |ix.ancestors[p]|;
      ContainsIsTransitive(ix, a, b, p);
    }
  }

  /** Containment is a partial order on a well-formed tree. */
  lemma {:induction false} ContainsIsAntisymmetric(ix: Index, a: Id, b: Id)
    requires TreeShaped(ix)
    requires ZoneContains(ix, a, b) && ZoneContains(ix, b, a)
    ensures a == b
  {
    if a != b {
      AncestorIsZone(ix, a, b);
      var p := ix.parents[b];
      assert ix.ancestors[b] == {p} + ix.ancestors[p];
      ContainsIsTransitive(ix, b, a, p);
    }
  }

  lemma {:induction false} AncestorIsZone(ix: Index, a: Id, z: Id)
    requires TreeShaped(ix)
    requires z in ix.ancestors && a in ix.ancestors[z]
    ensures a in ix.zones && z in ix.parents
    decreases |ix.ancestors[z]|
  {
    var p := ix.parents[z];
    assert p !in ix.ancestors[p];
    assert ix.ancestors[z] == {p} + ix.ancestors[p];
    if a != p {
      assert |ix.ancestors[z]| == 1 + |ix.ancestors[p]|;
      AncestorIsZone(ix, a, p);
    }
  }

  // ---------------------------------------------------------------------------
  // ancestor walk
  // ---------------------------------------------------------------------------

  lemma ParentIsCloser(ix: Index, zone: Id)
    requires TreeShaped(ix) && zone in ix.parents
    ensures ix.parents[zone] in ix.ancestors && zone in ix.ancestors
    ensures ix.ancestors[zone] == {ix.parents[zone]} + ix.ancestors[ix.parents[zone]]
    ensures |ix.ancestors[zone]| == 1 + |ix.ancestors[ix.parents[zone]]|
  {
    var p := ix.parents[zone];
    assert p !in ix.ancestors[p];
    assert ix.ancestors[zone] == {p} + ix.ancestors[p];
  }

  /** The chain of parents above `zone`, nearest first. */
  function AncestorChain(ix: Index, zone: Id): (chain: seq<Id>)
    requires TreeShaped(ix)
    decreases if zone in ix.ancestors then |ix.ancestors[zone]| else 0
  {
    if zone in ix.parents then
      ParentIsCloser(ix, zone);
      [ix.parents[zone]] + AncestorChain(ix, ix.parents[zone])
    else
      []
  }

  /** The chain lists exactly the zones that strictly contain `zone`. */
  lemma {:induction false} ChainListsAncestors(ix: Index, zone: Id)
    requires TreeShaped(ix)
    ensures forall a :: a in AncestorChain(ix, zone) <==> a != zone && ZoneContains(ix, a, zone)
    decreases if zone in ix.ancestors then |ix.ancestors[zone]| else 0
  {
    if zone in ix.parents {
      var p := ix.parents[zone];
      ParentIsCloser(ix, zone);
      ChainListsAncestors(ix, p);
      forall a ensures a in AncestorChain(ix, zone) <==> a != zone && ZoneContains(ix, a, zone) {
        assert a in AncestorChain(ix, zone) <==> a == p || a in AncestorChain(ix, p);
      }
    }
  }

  function ChainFrom(ix: Index, current: Option<Id>): (chain: seq<Id>)
    requires TreeShaped(ix)
  {
    if current.Some? then [current.value] + AncestorChain(ix, current.value) else []
  }

  /** The walk `ancestor_zones` makes: follow the parent links to the root. */
  method AncestorZones(ix: Index, zone: Id) returns (out: seq<Id>)
    requires TreeShaped(ix)
    ensures out == AncestorChain(ix, zone)
    ensures forall a :: a in out <==> a != zone && ZoneContains(ix, a, zone)
  {
    out := [];
    var current := if zone in ix.parents then Some(ix.parents[zone]) else None;
    while current.Some?
      invariant out + ChainFrom(ix, current) == AncestorChain(ix, zone)
      invariant current.Some? ==> current.value in ix.zones
      decreases |ChainFrom(ix, current)|
    {
      var pid := current.value;
      if pid in ix.zones {
        out := out + [pid];
      }
      current := if pid in ix.parents then Some(ix.parents[pid]) else None;
    }
    ChainListsAncestors(ix, zone);
  }

  // ---------------------------------------------------------------------------
  // policies
  // ---------------------------------------------------------------------------

  /** How many distinct robots a zone admits at once; `None` is unlimited. */
  function ZoneOccupancyLimit(policy: ZonePolicy): (limit: Option<u64>)
  {
    if policy.kind == ExclusiveAccess then Some(1)
    else if policy.capacityIsExplicit then Some(policy.capacity)
    else None
  }

  /** A zone's `traffic.*` entry, its value already parsed. Entries whose value
      does not parse are dropped before they get here. */
  datatype ZoneProperty =
    | PolicyKind(kind: ZonePolicyKind)
    | Capacity(limit: u64)
    | ClaimRequired(on: bool)
    | Blocked(on: bool)
    | BlocksEntry(on: bool)
    | BlocksTraversal(on: bool)
    | Priority(value: real)
    | SpeedLimit(value: real)
    | WaitingAllowed(on: bool)
    | StopAllowed(on: bool)
    | NoStopping(on: bool)
    | ReplanTrigger(on: bool)

  // -- which entries decide a field ---------------------------------------------

  predicate SetsCapacity(p: ZoneProperty) {
    p.Capacity? && p.limit >= 1
  }

  /** An entry that sets the kind whatever it was before. */
  predicate SetsKind(p: ZoneProperty) {
    p.PolicyKind? || (p.Blocked? && p.on) || (p.NoStopping? && p.on) || (p.ReplanTrigger? && p.on)
  }

  predicate SetsEntry(p: ZoneProperty) {
    p.ClaimRequired? || p.BlocksEntry? || (p.Blocked? && p.on)
  }

  predicate SetsTraversal(p: ZoneProperty) {
    p.BlocksTraversal? || (p.Blocked? && p.on)
  }

  predicate SetsStop(p: ZoneProperty) {
    p.StopAllowed? || p.NoStopping?
  }

  predicate IsClaimRequired(p: ZoneProperty) { p.ClaimRequired? }

  predicate IsBlocked(p: ZoneProperty) { p.Blocked? }

  predicate IsPriority(p: ZoneProperty) { p.Priority? }

  predicate IsSpeedLimit(p: ZoneProperty) { p.SpeedLimit? }

  predicate IsWaitingAllowed(p: ZoneProperty) { p.WaitingAllowed? }

  predicate IsReplanTrigger(p: ZoneProperty) { p.ReplanTrigger? }

  /** The kind the entries leave: that of the last entry that sets one; where that
      is informational, a later capacity above one makes it capacity-limited. */
  function LeftKind(properties: seq<ZoneProperty>): ZonePolicyKind {
    var setter := LastWith(properties, SetsKind);
    var base :=
      if setter.None? then Informational
      else if setter.value.PolicyKind? then setter.value.kind
      else if setter.value.Blocked? then Restricted
      else if setter.value.NoStopping? then NoStop
      else Replanning;
    if base == Informational && exists p | p in Since(properties, SetsKind) :: p.Capacity? && p.limit > 1 then CapacityLimited else base
  }

  // What each field says when the last entry that sets it has the last word.

  predicate CapacityFollows(properties: seq<ZoneProperty>, capacity: u64, explicit: bool) {
    var last := LastWith(properties, SetsCapacity);
    explicit == last.Some? && capacity == if last.Some? then last.value.limit else 1
  }

  predicate ClaimFollows(properties: seq<ZoneProperty>, required: bool) {
    var last := LastWith(properties, IsClaimRequired);
    required == (last.Some? && last.value.on)
  }

  predicate EntryFollows(properties: seq<ZoneProperty>, blocks: bool) {
    var last := LastWith(properties, SetsEntry);
    blocks == (last.Some? && last.value.on)
  }

  predicate TraversalFollows(properties: seq<ZoneProperty>, blocks: bool) {
    var last := LastWith(properties, SetsTraversal);
    blocks == (last.Some? && last.value.on)
  }

  predicate ReplanFollows(properties: seq<ZoneProperty>, replan: Option<bool>) {
    var last := LastWith(properties, IsReplanTrigger);
    replan == if last.Some? then Some(last.value.on) else None
  }

  predicate BlockedFollows(properties: seq<ZoneProperty>, blocked: Option<bool>) {
    var last := LastWith(properties, IsBlocked);
    blocked == if last.Some? then Some(last.value.on) else None
  }

  predicate PriorityFollows(properties: seq<ZoneProperty>, priority: Option<real>) {
    var last := LastWith(properties, IsPriority);
    priority == if last.Some? then Some(last.value.value) else None
  }

  predicate SpeedFollows(properties: seq<ZoneProperty>, limit: Option<real>) {
    var last := LastWith(properties, IsSpeedLimit);
    limit == if last.Some? then Some(last.value.value) else None
  }

  predicate WaitingFollows(properties: seq<ZoneProperty>, allowed: Option<bool>) {
    var last := LastWith(properties, IsWaitingAllowed);
    allowed == if last.Some? then Some(last.value.on) else None
  }

  predicate StopFollows(properties: seq<ZoneProperty>, allowed: Option<bool>) {
    var last := LastWith(properties, SetsStop);
    allowed == if last.Some? then Some(last.value.on == last.value.StopAllowed?) else None
  }

  predicate FieldsFollow(properties: seq<ZoneProperty>, policy: ZonePolicy) {
    && CapacityFollows(properties, policy.capacity, policy.capacityIsExplicit)
    && ClaimFollows(properties, policy.requiresClaim)
    && BlockedFollows(properties, policy.blocked)
    && PriorityFollows(properties, policy.priority)
    && SpeedFollows(properties, policy.speedLimit)
    && WaitingFollows(properties, policy.waitingAllowed)
    && StopFollows(properties, policy.stopAllowed)
  }

  predicate Gathered(properties: seq<ZoneProperty>, policy: ZonePolicy, replan: Option<bool>) {
    && FieldsFollow(properties, policy)
    && policy.kind == LeftKind(properties)
    && EntryFollows(properties, policy.blocksEntry)
    && TraversalFollows(properties, policy.blocksTraversal)
    && ReplanFollows(properties, replan)
  }

  /** A policy is what its zone's properties say: for each field the last entry
      that sets it decides. A blocked zone is restricted and blocks entry and
      traversal; else a replan trigger, else a stop rule, decides the kind. */
  predicate FromProperties(properties: seq<ZoneProperty>, policy: ZonePolicy) {
    FieldsFollow(properties, policy) && SettledFor(properties, policy)
  }

  predicate SettledFor(properties: seq<ZoneProperty>, policy: ZonePolicy) {
    if policy.blocked == Some(true) then
      policy.kind == Restricted && policy.blocksEntry && policy.blocksTraversal
    else
      && EntryFollows(properties, policy.blocksEntry) && TraversalFollows(properties, policy.blocksTraversal)
      && policy.kind ==
           if ReplanFollows(properties, Some(true)) then Replanning
           else if policy.stopAllowed == Some(false) && LeftKind(properties) != Restricted then NoStop
           else LeftKind(properties)
  }

  /** One entry applied to the policy so far. */
  function WithEntry(policy: ZonePolicy, property: ZoneProperty): ZonePolicy {
    match property
    case PolicyKind(kind) => policy.(kind := kind)
    case Capacity(limit) =>
      if limit < 1 then policy
      else policy.(capacity := limit, capacityIsExplicit := true,
                   kind := if limit > 1 && policy.kind == Informational then CapacityLimited else policy.kind)
    case ClaimRequired(on) => policy.(requiresClaim := on, blocksEntry := on)
    case Blocked(on) =>
      if on then policy.(blocked := Some(true), kind := Restricted, blocksEntry := true, blocksTraversal := true)
      else policy.(blocked := Some(false))
    case BlocksEntry(on) => policy.(blocksEntry := on)
    case BlocksTraversal(on) => policy.(blocksTraversal := on)
    case Priority(value) => policy.(priority := Some(value))
    case SpeedLimit(value) => policy.(speedLimit := Some(value))
    case WaitingAllowed(on) => policy.(waitingAllowed := Some(on))
    case StopAllowed(on) => policy.(stopAllowed := Some(on))
    case NoStopping(on) => policy.(stopAllowed := Some(!on), kind := if on then NoStop else policy.kind)
    case ReplanTrigger(on) => policy.(kind := if on then Replanning else policy.kind)
  }

  lemma EntryKeepsCapacity(before: seq<ZoneProperty>, was: ZonePolicy, e: ZoneProperty)
    requires CapacityFollows(before, was.capacity, was.capacityIsExplicit)
    ensures CapacityFollows(before + [e], WithEntry(was, e).capacity, WithEntry(was, e).capacityIsExplicit)
  {
    LastGrows(before, e, SetsCapacity);
  }

  lemma EntryKeepsClaim(before: seq<ZoneProperty>, was: ZonePolicy, e: ZoneProperty)
    requires ClaimFollows(before, was.requiresClaim)
    ensures ClaimFollows(before + [e], WithEntry(was, e).requiresClaim)
  {
    LastGrows(before, e, IsClaimRequired);
  }

  lemma EntryKeepsBlocked(before: seq<ZoneProperty>, was: ZonePolicy, e: ZoneProperty)
    requires BlockedFollows(before, was.blocked)
    ensures BlockedFollows(before + [e], WithEntry(was, e).blocked)
  {
    LastGrows(before, e, IsBlocked);
  }

  lemma EntryKeepsPriority(before: seq<ZoneProperty>, was: ZonePolicy, e: ZoneProperty)
    requires PriorityFollows(before, was.priority)
    ensures PriorityFollows(before + [e], WithEntry(was, e).priority)
  {
    LastGrows(before, e, IsPriority);
  }

  lemma EntryKeepsSpeed(before: seq<ZoneProperty>, was: ZonePolicy, e: ZoneProperty)
    requires SpeedFollows(before, was.speedLimit)
    ensures SpeedFollows(before + [e], WithEntry(was, e).speedLimit)
  {
    LastGrows(before, e, IsSpeedLimit);
  }

  lemma EntryKeepsWaiting(before: seq<ZoneProperty>, was: ZonePolicy, e: ZoneProperty)
    requires WaitingFollows(before, was.waitingAllowed)
    ensures WaitingFollows(before + [e], WithEntry(was, e).waitingAllowed)
  {
    LastGrows(before, e, IsWaitingAllowed);
  }

  lemma EntryKeepsStop(before: seq<ZoneProperty>, was: ZonePolicy, e: ZoneProperty)
    requires StopFollows(before, was.stopAllowed)
    ensures StopFollows(before + [e], WithEntry(was, e).stopAllowed)
  {
    LastGrows(before, e, SetsStop);
  }

  lemma EntryKeepsKind(before: seq<ZoneProperty>, was: ZonePolicy, e: ZoneProperty)
    requires was.kind == LeftKind(before)
    ensures WithEntry(was, e).kind == LeftKind(before + [e])
  {
    LastGrows(before, e, SetsKind);
    var since := Since(before, SetsKind);
    assert forall p :: p in since + [e] <==> p in since || p == e;
  }

  lemma EntryKeepsBlocking(before: seq<ZoneProperty>, was: ZonePolicy, e: ZoneProperty)
    requires EntryFollows(before, was.blocksEntry) && TraversalFollows(before, was.blocksTraversal)
    ensures EntryFollows(before + [e], WithEntry(was, e).blocksEntry)
    ensures TraversalFollows(before + [e], WithEntry(was, e).blocksTraversal)
  {
    LastGrows(before, e, SetsEntry);
    LastGrows(before, e, SetsTraversal);
  }

  lemma EntryIsGathered(before: seq<ZoneProperty>, was: ZonePolicy, replan: Option<bool>, e: ZoneProperty)
    requires Gathered(before, was, replan)
    ensures Gathered(before + [e], WithEntry(was, e), if e.ReplanTrigger? then Some(e.on) else replan)
  {
    EntryKeepsCapacity(before, was, e);
    EntryKeepsClaim(before, was, e);
    EntryKeepsBlocked(before, was, e);
    EntryKeepsPriority(before, was, e);
    EntryKeepsSpeed(before, was, e);
    EntryKeepsWaiting(before, was, e);
    EntryKeepsStop(before, was, e);
    EntryKeepsKind(before, was, e);
    EntryKeepsBlocking(before, was, e);
    LastGrows(before, e, IsReplanTrigger);
  }

  /** What the whole list of entries settles: blocking first, then a replan
      trigger, then a stop rule. */
  function Finished(policy: ZonePolicy, replan: Option<bool>): ZonePolicy {
    if policy.blocked.GetOr(false) then policy.(kind := Restricted, blocksEntry := true, blocksTraversal := true)
    else if replan.GetOr(false) then policy.(kind := Replanning)
    else if policy.kind != Restricted && policy.stopAllowed == Some(false) then policy.(kind := NoStop)
    else policy
  }

  lemma FinishingFollows(properties: seq<ZoneProperty>, policy: ZonePolicy, replan: Option<bool>)
    requires Gathered(properties, policy, replan)
    ensures FromProperties(properties, Finished(policy, replan))
  {
    FinishingKeepsFields(properties, policy, replan);
    FinishingSettles(properties, policy, replan);
  }

  lemma FinishingKeepsFields(properties: seq<ZoneProperty>, policy: ZonePolicy, replan: Option<bool>)
    requires FieldsFollow(properties, policy)
    ensures FieldsFollow(properties, Finished(policy, replan))
  {
    FinishingLeavesTheRest(policy, replan);
  }

  lemma FinishingLeavesTheRest(policy: ZonePolicy, replan: Option<bool>)
    ensures
      var f := Finished(policy, replan);
      f == policy.(kind := f.kind, blocksEntry := f.blocksEntry, blocksTraversal := f.blocksTraversal)
  {
  }

  lemma FinishingSettles(properties: seq<ZoneProperty>, policy: ZonePolicy, replan: Option<bool>)
    requires policy.kind == LeftKind(properties) && ReplanFollows(properties, replan)
    requires EntryFollows(properties, policy.blocksEntry) && TraversalFollows(properties, policy.blocksTraversal)
    ensures SettledFor(properties, Finished(policy, replan))
  {
  }

  /** Folds a zone's properties, in key order, into its policy. */
  method ParseZonePolicy(properties: seq<ZoneProperty>) returns (policy: ZonePolicy)
    ensures FromProperties(properties, policy)
    ensures policy.capacity >= 1
    ensures policy.capacityIsExplicit <==> exists p | p in properties :: p.Capacity? && p.limit >= 1
    ensures policy.blocked == Some(true) ==>
              policy.kind == Restricted && policy.blocksEntry && policy.blocksTraversal
    ensures ZoneOccupancyLimit(policy).Some? ==> ZoneOccupancyLimit(policy).value >= 1
  {
    policy := EMPTY_POLICY;
    var replan: Option<bool> := None;
    for i := 0 to |properties|
      invariant Gathered(properties[..i], policy, replan)
    {
      assert properties[..i + 1] == properties[..i] + [properties[i]];
      EntryIsGathered(properties[..i], policy, replan, properties[i]);
      policy := WithEntry(policy, properties[i]);
      if properties[i].ReplanTrigger? {
        replan := Some(properties[i].on);
      }
    }
    assert properties[..|properties|] == properties;
    LastWithFinds(properties, SetsCapacity);
    FinishingFollows(properties, policy, replan);
    policy := Finished(policy, replan);
  }

  /** How many robots a zone admits, from its properties: one in a zone that stays
      exclusive, else its last capacity of at least one, else any number. */
  lemma LimitFromProperties(properties: seq<ZoneProperty>, policy: ZonePolicy)
    requires FromProperties(properties, policy)
    ensures ZoneOccupancyLimit(policy) ==
              if policy.kind == ExclusiveAccess then Some(1)
              else match LastWith(properties, SetsCapacity) case Some(p) => Some(p.limit) case None => None
    ensures policy.kind == ExclusiveAccess <==>
              && LastWith(properties, SetsKind) == Some(PolicyKind(ExclusiveAccess))
              && policy.blocked != Some(true) && !ReplanFollows(properties, Some(true)) && policy.stopAllowed != Some(false)
  {
  }

  /** Every policy in the index came out of parsing. */
  predicate ParsedPolicies(ix: Index)
  {
    forall z | z in ix.zones :: ix.zones[z].capacity >= 1
  }

  // ---------------------------------------------------------------------------
  // membership of nodes and edges
  // ---------------------------------------------------------------------------

  /** The zones a node lists that exist in the tree. */
  function ZonesOfNode(ix: Index, node: Id): (zones: seq<Id>)
    ensures forall z | z in zones :: z in ix.zones
  {
    if node in ix.nodes then Filter(ix.nodes[node], z => z in ix.zones) else []
  }

  /** The zones an edge lists that exist in the tree. */
  function ZonesOfEdge(ix: Index, edge: Id): (zones: seq<Id>)
    ensures forall z | z in zones :: z in ix.zones
  {
    if edge in ix.edges then Filter(ix.edges[edge].zoneIds, z => z in ix.zones) else []
  }

  /** The steps listed for a node; none for an unknown one. */
  function StepsOf(adjacency: map<Id, seq<Adjacency>>, node: Id): (steps: seq<Adjacency>) {
    if node in adjacency then adjacency[node] else []
  }
}
