/** The claim manager: the ledger updated in place, and the evaluation of a
    request against it. Every method is tied to the operation of `Ledgers` it
    performs, so that what is proved of runs there holds of this object. */
module ClaimManager {
  import opened Basics
  import opened Workspace
  import opened Claims
  import opened Compatibility
  import opened Ledgers

  datatype Decision = Grant | Deny

  datatype Reason =
    | CompatibleWithState
    | NoTargets
    | MissingResource
    | ConflictWithRequest
    | ConflictWithLease
    | EdgeFull
    | ZoneFull

  datatype Evaluation = Evaluation(
    decision: Decision,
    reason: Reason,
    conflictingClaim: Option<u64>,
    conflictingLease: Option<u64>,
    conflictingTargets: seq<Target>,
    blockingTarget: Option<Target>,
    deniedByCapacity: bool)

  datatype Violation = Violation(
    target: Target,
    claim: Option<u64>,
    lease: Option<u64>,
    deniedByCapacity: bool)

  /** Where robots are counted. */
  datatype Place = OnEdge(edge: Target) | InZone(ix: Index, zone: Id)

  predicate CountsAt(place: Place, h: Holding, q: Request) {
    match place
    case OnEdge(edge) => CountsOnEdge(h, q, edge)
    case InZone(ix, zone) => CountsInZone(ix, h, q, zone)
  }

  predicate RequestCounts(place: Place, r: Request, q: Request) {
    Rival(r, q) && CountsAt(place, r.Held(), q)
  }

  predicate LeaseCounts(place: Place, l: Lease, q: Request) {
    RivalLease(l, q) && CountsAt(place, l.Held(), q)
  }

  function CountedRobots(requests: seq<Request>, q: Request, place: Place): (robots: set<u64>) {
    {q.robot} + set r | r in requests && RequestCounts(place, r, q) :: r.robot
  }

  /** The first rival request that counts. */
  function FirstCounting(requests: seq<Request>, q: Request, place: Place): Option<u64> {
    var i := FirstIndex(requests, (r: Request) => RequestCounts(place, r, q));
    if i < |requests| then Some(requests[i].id) else None
  }

  /** The first rival lease that counts and whose robot no request has counted. */
  function FirstNewcomer(leases: seq<Lease>, q: Request, place: Place, counted: set<u64>): Option<u64> {
    var i := FirstIndex(leases, (l: Lease) => LeaseCounts(place, l, q) && l.robot !in counted);
    if i < |leases| then Some(leases[i].id) else None
  }

  /** A capacity refusal names the first request in the way, and the first lease
      of a robot not counted before. */
  predicate NamesFirstHolders(s: Ledger, q: Request, place: Place, claim: Option<u64>, lease: Option<u64>) {
    && claim == FirstCounting(s.requests, q, place)
    && lease == FirstNewcomer(s.leases, q, place, CountedRobots(s.requests, q, place))
  }

  function FirstOf(targets: seq<Target>): Option<Target> {
    if targets == [] then None else Some(targets[0])
  }

  /** A requested target that clashes with `other`, on its own level or across
      levels. */
  predicate Clashes(index: Option<Index>, t: Target, other: seq<Target>) {
    || t in other
    || (index.Some? && exists o | o in other :: ClashAcrossLevels(index.value, t, o))
  }

  /** One target is a zone and the other a node or edge inside it. */
  predicate ClashAcrossLevels(ix: Index, a: Target, b: Target) {
    if a.kind == Zone && b.kind != Zone then LiesInside(ix, b, a.resource)
    else if a.kind != Zone && b.kind == Zone then LiesInside(ix, a, b.resource)
    else false
  }

  /** A conflict is reported on a requested target that the other side names too, and
      on one that is drawn in a zone the other claims or has something it claims
      drawn in it; never between two zones, even where one contains the other. */
  lemma ClashesExactly(index: Option<Index>, t: Target, other: seq<Target>)
    ensures Clashes(index, t, other) <==>
              || t in other
              || (index.Some? && exists o | o in other ::
                    || (t.kind == Zone && o.kind != Zone && DrawnInside(index.value, o, t.resource))
                    || (t.kind != Zone && o.kind == Zone && DrawnInside(index.value, t, o.resource)))
  {
    if index.Some? {
      forall x, zone ensures LiesInside(index.value, x, zone) <==> DrawnInside(index.value, x, zone) {
        LiesInsideExactly(index.value, x, zone);
      }
    }
  }

  /** The requested targets a conflict is reported on. */
  method ConflictsIncludingCrossLevel(index: Option<Index>, q: seq<Target>, other: seq<Target>) returns (out: seq<Target>)
    ensures forall t :: t in out <==> t in q && Clashes(index, t, other)
  {
    out := [];
    for i := 0 to |q|
      invariant forall t :: t in out <==> t in q[..i] && t in other
    {
      for j := 0 to |other|
        invariant forall t :: t in out <==> (t in other && t in q[..i]) || (t == q[i] && t in other[..j])
      {
        if q[i] == other[j] {
          out := out + [q[i]];
        }
      }
      assert other[..|other|] == other;
      assert q[..i + 1] == q[..i] + [q[i]];
    }
    assert q[..|q|] == q;
    if index.Some? {
      ghost var same := out;
      for i := 0 to |q|
        invariant forall t :: t in out <==> t in same || (t in q[..i] && Clashes(index, t, other))
      {
        if q[i] !in out && exists o | o in other :: ClashAcrossLevels(index.value, q[i], o) {
          out := out + [q[i]];
        }
        assert q[..i + 1] == q[..i] + [q[i]];
      }
    }
  }

  function AppendNew(ids: seq<Id>, id: Id): (r: seq<Id>)
    requires NoDuplicates(ids)
    ensures NoDuplicates(r)
    ensures forall z :: z in r <==> z in ids || z == id
  {
    if id in ids then ids else ids + [id]
  }

  method AppendAllNew(seen: seq<Id>, ids: seq<Id>) returns (out: seq<Id>)
    requires NoDuplicates(seen)
    ensures NoDuplicates(out)
    ensures forall z :: z in out <==> z in seen || z in ids
  {
    out := seen;
    for i := 0 to |ids|
      invariant NoDuplicates(out)
      invariant forall z :: z in out <==> z in seen || z in ids[..i]
    {
      assert ids[..i + 1] == ids[..i] + [ids[i]];
      out := AppendNew(out, ids[i]);
    }
    assert ids[..|ids|] == ids;
  }

  class Manager {
    var index: Option<Index>
    var activeRequests: seq<Request>
    var activeLeases: seq<Lease>
    var releasedLeases: seq<Lease>
    var nextId: u64

    /** The ledger this object holds. */
    function Model(): Ledger
      reads this
    {
      Ledger(activeRequests, activeLeases, releasedLeases, nextId)
    }

    constructor (index: Option<Index>)
      ensures this.index == index && Model() == EMPTY_LEDGER
    {
      this.index := index;
      activeRequests, activeLeases, releasedLeases := [], [], [];
      nextId := 1;
    }

    method BindIndex(index: Index)
      modifies this`index
      ensures this.index == Some(index)
    {
      this.index := Some(index);
    }

    method Clear()
      modifies this
      ensures index == old(index) && Model() == Cleared(old(Model()))
    {
      activeRequests, activeLeases, releasedLeases := [], [], [];
    }

    // -- persistence ----------------------------------------------------------

    method Snapshot() returns (snapshot: Ledger)
      ensures snapshot == Model()
    {
      snapshot := Ledger(activeRequests, activeLeases, releasedLeases, nextId);
    }

    constructor Restore(snapshot: Ledger, index: Option<Index>)
      ensures this.index == index && Model() == Restored(snapshot)
    {
      this.index := index;
      activeRequests, activeLeases, releasedLeases := snapshot.requests, snapshot.leases, snapshot.released;
      nextId := Max(snapshot.nextId, 1);
    }

    // -- request lifecycle ----------------------------------------------------

    method UpsertRequestForRobot(request: Request) returns (replaced: bool)
      modifies this`activeRequests
      ensures activeRequests == UpsertForRobot(old(activeRequests), request)
      ensures replaced <==> exists r | r in old(activeRequests) :: r.robot == request.robot && SameTargetSet(r.targets, request.targets)
      ensures |activeRequests| == |old(activeRequests)| + if replaced then 0 else 1
    {
      for i := 0 to |activeRequests|
        invariant activeRequests == old(activeRequests)
        invariant forall j :: 0 <= j < i ==>
                    !(activeRequests[j].robot == request.robot && SameTargetSet(activeRequests[j].targets, request.targets))
      {
        if activeRequests[i].robot == request.robot && SameTargetSet(activeRequests[i].targets, request.targets) {
          assert activeRequests[i] in old(activeRequests);
          activeRequests := activeRequests[i := request];
          return true;
        }
      }
      activeRequests := activeRequests + [request];
      return false;
    }

    method RemoveRequest(id: u64) returns (removed: bool)
      modifies this`activeRequests
      ensures Model() == Ledgers.RemoveRequest(old(Model()), id)
      ensures removed <==> exists r | r in old(activeRequests) :: r.id == id
    {
      var pos := FirstIndex(activeRequests, (r: Request) => r.id == id);
      removed := pos < |activeRequests|;
      if removed {
        assert activeRequests[pos] in old(activeRequests);
        activeRequests := RemoveAt(activeRequests, pos);
      }
    }

    method RemoveRequestsForRobot(robot: u64) returns (removed: nat)
      modifies this`activeRequests
      ensures Model() == RemoveRobotRequests(old(Model()), robot)
      ensures removed == |old(activeRequests)| - |activeRequests|
      ensures removed == 0 <==> forall r | r in old(activeRequests) :: r.robot != robot
    {
      var before := activeRequests;
      activeRequests := Filter(activeRequests, (r: Request) => r.robot != robot);
      removed := |before| - |activeRequests|;
      FilterAllOrShorter(before, (r: Request) => r.robot != robot);
    }

    /** Mints a claim id: never below the counter and never a live id, short of the
        top of the range. */
    method NextRequestId() returns (id: u64)
      modifies this`nextId
      ensures id == MintedId(old(Model())) && Model() == AfterMint(old(Model()))
    {
      var maxRequest := MaxOf(Map(activeRequests, (r: Request) => r.id));
      var maxLease := MaxOf(Map(activeLeases, (l: Lease) => l.claimId));
      MaxOfBoth(Map(activeRequests, (r: Request) => r.id), Map(activeLeases, (l: Lease) => l.claimId));
      var top := LargerOf(maxRequest, maxLease);
      var floor := match top { case Some(m) => Max(SaturatingAdd(m, 1), 1) case None => 1 };
      id := Max(nextId, floor);
      nextId := SaturatingAdd(Max(nextId, floor), 1);
    }

    method ReleaseRequestForRobotTarget(robot: u64, resource: Id) returns (removed: bool)
      modifies this`activeRequests
      ensures Model() == ReleaseTarget(old(Model()), robot, resource)
      ensures removed <==>
                exists r | r in old(activeRequests) :: r.robot == robot && exists t | t in r.targets :: t.resource == resource
    {
      var matches := (r: Request) => r.robot == robot && exists t | t in r.targets :: t.resource == resource;
      var pos := FirstIndex(activeRequests, matches);
      removed := pos < |activeRequests|;
      if removed {
        assert activeRequests[pos] in old(activeRequests) && matches(activeRequests[pos]);
        activeRequests := RemoveAt(activeRequests, pos);
      } else {
        assert forall r | r in activeRequests :: !matches(r);
      }
    }

    /** Drops the requests whose window has closed. */
    method ExpireRequests(now: u64) returns (expired: nat)
      modifies this`activeRequests
      ensures Model() == Ledgers.ExpireRequests(old(Model()), now)
      ensures expired == |old(activeRequests)| - |activeRequests|
    {
      var before := |activeRequests|;
      activeRequests := Filter(activeRequests, (r: Request) => !RequestEnded(r, now));
      expired := before - |activeRequests|;
    }

    // -- lease lifecycle ------------------------------------------------------

    method AddLease(lease: Lease)
      modifies this`activeLeases
      ensures Model() == old(Model()).(leases := UpsertLease(old(activeLeases), lease))
    {
      var i := FirstIndex(activeLeases, (l: Lease) => l.id == lease.id);
      if i < |activeLeases| {
        activeLeases := activeLeases[i := lease];
      } else {
        activeLeases := activeLeases + [lease];
      }
    }

    method RemoveLease(id: u64) returns (removed: bool)
      modifies this`activeLeases
      ensures Model() == Ledgers.RemoveLease(old(Model()), id)
      ensures removed <==> exists l | l in old(activeLeases) :: l.id == id
    {
      var pos := FirstIndex(activeLeases, (l: Lease) => l.id == id);
      removed := pos < |activeLeases|;
      if removed {
        assert activeLeases[pos] in old(activeLeases);
        activeLeases := RemoveAt(activeLeases, pos);
      }
    }

    /** Moves the lease at position `i` to the released ledger. */
    method ArchiveAt(i: nat, how: Disposition, at: Option<u64>)
      requires i < |activeLeases|
      modifies this`activeLeases, this`releasedLeases
      ensures activeLeases == RemoveAt(old(activeLeases), i)
      ensures releasedLeases == old(releasedLeases) + [Archived(old(activeLeases)[i], how, at)]
    {
      var archived := activeLeases[i].(active := false, disposition := how, releasedAt := at);
      activeLeases := RemoveAt(activeLeases, i);
      releasedLeases := releasedLeases + [archived];
    }

    /** Archives a robot's leases one by one, closing each gap as it goes. */
    method ReleaseLeasesForRobot(robot: u64, at: Option<u64>) returns (released: nat)
      modifies this`activeLeases, this`releasedLeases
      ensures Model() == ReleaseRobotLeases(old(Model()), robot, at)
      ensures released == |old(activeLeases)| - |activeLeases|
    {
      ghost var was, archive, goes := activeLeases, releasedLeases, (l: Lease) => l.robot == robot;
      released := 0;
      var i := 0;
      while i < |activeLeases|
        invariant i <= |activeLeases| && |activeLeases| + released == |was|
        invariant Staying(was, goes) == activeLeases[..i] + Staying(activeLeases[i..], goes)
        invariant archive + Leaving(was, goes, Released, at) == releasedLeases + Leaving(activeLeases[i..], goes, Released, at)
      {
        if activeLeases[i].robot != robot {
          PassOver(activeLeases, i, goes, Released, at);
          i := i + 1;
        } else {
          TakeOut(activeLeases, releasedLeases, i, goes, Released, at);
          ArchiveAt(i, Released, at);
          released := released + 1;
        }
      }
    }

    method ExpireLeases(now: u64) returns (expired: nat)
      modifies this`activeLeases, this`releasedLeases
      ensures Model() == Ledgers.ExpireLeases(old(Model()), now)
      ensures expired == |old(activeLeases)| - |activeLeases|
    {
      ghost var was, archive, goes := activeLeases, releasedLeases, (l: Lease) => LeaseEnded(l, now);
      expired := 0;
      var i := 0;
      while i < |activeLeases|
        invariant i <= |activeLeases| && |activeLeases| + expired == |was|
        invariant Staying(was, goes) == activeLeases[..i] + Staying(activeLeases[i..], goes)
        invariant archive + Leaving(was, goes, Expired, Some(now)) == releasedLeases + Leaving(activeLeases[i..], goes, Expired, Some(now))
      {
        if !LeaseEnded(activeLeases[i], now) {
          PassOver(activeLeases, i, goes, Expired, Some(now));
          i := i + 1;
        } else {
          TakeOut(activeLeases, releasedLeases, i, goes, Expired, Some(now));
          ArchiveAt(i, Expired, Some(now));
          expired := expired + 1;
        }
      }
    }

    method ReleaseLease(id: u64, at: Option<u64>) returns (released: bool)
      modifies this`activeLeases, this`releasedLeases
      ensures Model() == Ledgers.ReleaseLease(old(Model()), id, at)
      ensures released <==> exists l | l in old(activeLeases) :: l.id == id
    {
      var pos := FirstIndex(activeLeases, (l: Lease) => l.id == id);
      released := pos < |activeLeases|;
      if released {
        assert activeLeases[pos] in old(activeLeases);
        ArchiveAt(pos, Released, at);
      }
    }

    method RefreshLease(id: u64, at: u64, expires: Option<u64>) returns (refreshed: bool)
      modifies this`activeLeases
      ensures Model() == Ledgers.RefreshLease(old(Model()), id, at, expires)
      ensures refreshed <==> exists l | l in old(activeLeases) :: l.id == id
    {
      var pos := FirstIndex(activeLeases, (l: Lease) => l.id == id);
      refreshed := pos < |activeLeases|;
      if refreshed {
        assert activeLeases[pos] in old(activeLeases);
        var slot := activeLeases[pos].(refreshedAt := Some(at));
        if expires.Some? {
          slot := slot.(expiresAt := expires);
        }
        activeLeases := activeLeases[pos := slot];
      }
    }

    method RevokeLease(id: u64, reason: string, at: u64) returns (revoked: bool)
      modifies this`activeLeases, this`releasedLeases
      ensures Model() == Ledgers.RevokeLease(old(Model()), id, reason, at)
      ensures revoked ==>
                && |releasedLeases| == |old(releasedLeases)| + 1
                && var gone := releasedLeases[|old(releasedLeases)|];
                   && gone.id == id && !gone.active && gone.disposition == Revoked
                   && gone.revokeReason == Some(reason) && gone.revokedAt == Some(at) && gone.releasedAt == Some(at)
      ensures revoked <==> exists l | l in old(activeLeases) :: l.id == id
    {
      var pos := FirstIndex(activeLeases, (l: Lease) => l.id == id);
      revoked := pos < |activeLeases|;
      if revoked {
        assert activeLeases[pos] in old(activeLeases);
        var archived := activeLeases[pos].(active := false, disposition := Revoked, revokedAt := Some(at),
                                           releasedAt := Some(at), revokeReason := Some(reason));
        activeLeases := RemoveAt(activeLeases, pos);
        releasedLeases := releasedLeases + [archived];
      }
    }

    // -- evaluation -----------------------------------------------------------

    method FirstInvalidTarget(q: Request) returns (invalid: Option<Target>)
      ensures invalid.None? <==> TargetsExist(index, q.targets)
      ensures invalid.Some? ==> invalid.value in q.targets && !TargetExists(index.value, invalid.value)
    {
      if index.None? {
        return None;
      }
      for i := 0 to |q.targets|
        invariant forall t | t in q.targets[..i] :: TargetExists(index.value, t)
      {
        if !TargetExists(index.value, q.targets[i]) {
          return Some(q.targets[i]);
        }
      }
      return None;
    }

    /** The rival robots whose requests count, beside the claimant, and the first
        such request. */
    method CountRequests(q: Request, place: Place) returns (occupants: set<u64>, claim: Option<u64>)
      ensures occupants == CountedRobots(activeRequests, q, place)
      ensures claim == FirstCounting(activeRequests, q, place)
      ensures claim.None? ==> occupants == {q.robot}
    {
      occupants, claim := {q.robot}, None;
      ghost var first := 0;
      for i := 0 to |activeRequests|
        invariant occupants == CountedRobots(activeRequests[..i], q, place)
        invariant first <= i && forall j | 0 <= j < first :: !RequestCounts(place, activeRequests[j], q)
        invariant if claim.None? then first == i && occupants == {q.robot}
                  else first < i && RequestCounts(place, activeRequests[first], q) && claim.value == activeRequests[first].id
      {
        var active := activeRequests[i];
        assert activeRequests[..i + 1] == activeRequests[..i] + [active];
        if RequestCounts(place, active, q) {
          if active.robot !in occupants && claim.None? {
            claim := Some(active.id);
          }
          occupants := occupants + {active.robot};
        } else if claim.None? {
          first := first + 1;
        }
      }
      assert activeRequests[..|activeRequests|] == activeRequests;
      assert first == FirstIndex(activeRequests, (r: Request) => RequestCounts(place, r, q));
    }

    /** Adds the rival robots whose leases count, and names the first lease whose
        robot was not counted before. */
    method CountLeases(q: Request, place: Place, counted: set<u64>) returns (occupants: set<u64>, lease: Option<u64>)
      ensures occupants == counted + set l | l in activeLeases && LeaseCounts(place, l, q) :: l.robot
      ensures lease == FirstNewcomer(activeLeases, q, place, counted)
      ensures lease.None? ==> occupants == counted
    {
      occupants, lease := counted, None;
      ghost var first := 0;
      for i := 0 to |activeLeases|
        invariant occupants == counted + set l | l in activeLeases[..i] && LeaseCounts(place, l, q) :: l.robot
        invariant first <= i && forall j | 0 <= j < first :: !(LeaseCounts(place, activeLeases[j], q) && activeLeases[j].robot !in counted)
        invariant if lease.None? then first == i && occupants == counted
                  else first < i && LeaseCounts(place, activeLeases[first], q) && activeLeases[first].robot !in counted
                       && lease.value == activeLeases[first].id
      {
        var held := activeLeases[i];
        assert activeLeases[..i + 1] == activeLeases[..i] + [held];
        if LeaseCounts(place, held, q) && held.robot !in occupants && lease.None? {
          lease := Some(held.id);
        } else if lease.None? {
          first := first + 1;
        }
        if LeaseCounts(place, held, q) {
          occupants := occupants + {held.robot};
        }
      }
      assert activeLeases[..|activeLeases|] == activeLeases;
      assert first == FirstIndex(activeLeases, (l: Lease) => LeaseCounts(place, l, q) && l.robot !in counted);
    }

    /** The robots a shared claim would put on an edge together, and the first
        holders met on the way. */
    method CountEdge(q: Request, edge: Target) returns (occupants: set<u64>, claim: Option<u64>, lease: Option<u64>)
      ensures occupants == EdgeOccupants(Model(), q, edge)
      ensures NamesFirstHolders(Model(), q, OnEdge(edge), claim, lease)
    {
      var byRequest;
      byRequest, claim := CountRequests(q, OnEdge(edge));
      occupants, lease := CountLeases(q, OnEdge(edge), byRequest);
    }

    /** Whether a shared claim would overfill one edge. */
    method EdgeViolation(ix: Index, q: Request, edge: Target) returns (v: Option<Violation>)
      requires edge.kind == Edge && TargetExists(ix, edge)
      ensures v.None? <==> EdgeWithinCapacity(ix, Model(), q, edge)
      ensures v.Some? ==> v.value.target == edge && OverfullEdge(ix, Model(), q, v.value)
    {
      var semantics := ix.edges[edge.resource].semantics;
      if !semantics.capacityIsExplicit || semantics.capacity.GetOr(0) <= 1 {
        return None;
      }
      var occupants, claim, lease := CountEdge(q, edge);
      if |occupants| > semantics.capacity.value {
        return Some(Violation(edge, claim, lease, true));
      }
      return None;
    }

    method FirstEdgeCapacityViolation(q: Request) returns (v: Option<Violation>)
      requires TargetsExist(index, q.targets)
      ensures index.None? ==> v.None?
      ensures index.Some? ==> (v.None? <==> EdgesWithinCapacity(index.value, Model(), q))
      ensures v.Some? ==> v.value.target in q.targets && OverfullEdge(index.value, Model(), q, v.value)
    {
      if index.None? || q.mode != Shared {
        return None;
      }
      var ix := index.value;
      for i := 0 to |q.targets|
        invariant forall t | t in q.targets[..i] && t.kind == Edge :: EdgeWithinCapacity(ix, Model(), q, t)
      {
        var target := q.targets[i];
        assert q.targets[..i + 1] == q.targets[..i] + [target];
        if target.kind != Edge {
          continue;
        }
        assert target in q.targets && TargetExists(ix, target);
        v := EdgeViolation(ix, q, target);
        if v.Some? {
          return;
        }
      }
      assert q.targets[..|q.targets|] == q.targets;
      return None;
    }

    /** Every zone the targets put a robot in, each once: the zones they name or
        list, and everything above those. */
    method OccupiedZones(ix: Index, targets: seq<Target>) returns (out: seq<Id>)
      requires TreeShaped(ix)
      ensures forall z :: z in out <==> Occupies(ix, targets, z)
      ensures NoDuplicates(out)
    {
      out := [];
      for i := 0 to |targets|
        invariant NoDuplicates(out)
        invariant forall z :: z in out <==> Occupies(ix, targets[..i], z)
      {
        var t := targets[i];
        ghost var before := out;
        var direct := if t.kind == Zone then [t.resource] else ZonesOf(ix, t);
        for j := 0 to |direct|
          invariant NoDuplicates(out)
          invariant forall z :: z in out <==> z in before || exists d | d in direct[..j] :: ZoneContains(ix, z, d)
        {
          out := AddZone(ix, out, direct[j]);
          assert direct[..j + 1] == direct[..j] + [direct[j]];
        }
        assert direct[..|direct|] == direct;
        forall z
          ensures z in out <==> z in before || TargetOccupies(ix, t, z)
          ensures Occupies(ix, targets[..i + 1], z) <==> Occupies(ix, targets[..i], z) || TargetOccupies(ix, t, z)
        {
          assert targets[..i + 1] == targets[..i] + [t];
          assert TargetOccupies(ix, t, z) <==> exists d | d in direct :: ZoneContains(ix, z, d);
        }
      }
      assert targets[..|targets|] == targets;
    }

    /** Appends a zone and its ancestors, skipping what is there already. */
    method AddZone(ix: Index, seen: seq<Id>, zone: Id) returns (out: seq<Id>)
      requires TreeShaped(ix) && NoDuplicates(seen)
      ensures NoDuplicates(out)
      ensures forall z :: z in out <==> z in seen || ZoneContains(ix, z, zone)
    {
      var above := AncestorZones(ix, zone);
      out := AppendAllNew(AppendNew(seen, zone), above);
    }

    /** The robots a claim would put in a zone together, and the first holders met
        on the way. */
    method CountZone(ix: Index, q: Request, zone: Id) returns (occupants: set<u64>, claim: Option<u64>, lease: Option<u64>)
      ensures occupants == ZoneOccupants(ix, Model(), q, zone)
      ensures NamesFirstHolders(Model(), q, InZone(ix, zone), claim, lease)
    {
      var byRequest;
      byRequest, claim := CountRequests(q, InZone(ix, zone));
      occupants, lease := CountLeases(q, InZone(ix, zone), byRequest);
    }

    method FirstOccupancyViolation(q: Request) returns (v: Option<Violation>)
      requires index.Some? ==> TreeShaped(index.value)
      ensures index.None? ==> v.None?
      ensures index.Some? ==> (v.None? <==> ZonesWithinLimit(index.value, Model(), q))
      ensures v.Some? ==> OverfullZone(index.value, Model(), q, v.value)
    {
      if index.None? {
        return None;
      }
      var ix := index.value;
      var zones := OccupiedZones(ix, q.targets);
      for i := 0 to |zones|
        invariant forall z | z in zones[..i] :: ZoneWithinLimit(ix, Model(), q, z)
      {
        var zone := zones[i];
        assert zones[..i + 1] == zones[..i] + [zone];
        if zone !in ix.zones || ZoneOccupancyLimit(ix.zones[zone]).None? {
          continue;
        }
        var limit := ZoneOccupancyLimit(ix.zones[zone]).value;
        var occupants, claim, lease := CountZone(ix, q, zone);
        if |occupants| > limit {
          assert zone in zones;
          return Some(Violation(Target(Zone, zone), claim, lease, limit > 1));
        }
      }
      assert zones[..|zones|] == zones;
      return None;
    }

    /** Position of the first rival request the claim clashes with. */
    method FirstRefusingRequest(q: Request) returns (i: nat)
      ensures i <= |activeRequests|
      ensures i == |activeRequests| <==> CompatibleWithRequests(index, Model(), q)
      ensures i < |activeRequests| ==> RefusedBy(index, q, activeRequests[i])
      ensures forall j | 0 <= j < i :: !RefusedBy(index, q, activeRequests[j])
    {
      i := 0;
      while i < |activeRequests|
        invariant i <= |activeRequests|
        invariant forall j | 0 <= j < i :: !RefusedBy(index, q, activeRequests[j])
      {
        if RefusedBy(index, q, activeRequests[i]) {
          assert activeRequests[i] in Model().requests;
          return;
        }
        i := i + 1;
      }
      assert forall r | r in activeRequests :: !RefusedBy(index, q, r);
    }

    method FirstRefusingLease(q: Request) returns (i: nat)
      ensures i <= |activeLeases|
      ensures i == |activeLeases| <==> CompatibleWithLeases(index, Model(), q)
      ensures i < |activeLeases| ==> RefusedByLease(index, q, activeLeases[i])
      ensures forall j | 0 <= j < i :: !RefusedByLease(index, q, activeLeases[j])
    {
      i := 0;
      while i < |activeLeases|
        invariant i <= |activeLeases|
        invariant forall j | 0 <= j < i :: !RefusedByLease(index, q, activeLeases[j])
      {
        if RefusedByLease(index, q, activeLeases[i]) {
          assert activeLeases[i] in Model().leases;
          return;
        }
        i := i + 1;
      }
      assert forall l | l in activeLeases :: !RefusedByLease(index, q, l);
    }

    /** Decides a request against everything in the ledger, and names what refuses
        it: the first rival request, the first rival lease, an edge or a zone. */
    method EvaluateRequest(q: Request) returns (e: Evaluation)
      requires index.Some? ==> TreeShaped(index.value)
      ensures e.decision == Grant <==> Grants(index, Model(), q)
      ensures Explains(index, Model(), q, e)
    {
      if q.targets == [] {
        return Refusal(NoTargets, None, None, [], None, false);
      }
      var invalid := FirstInvalidTarget(q);
      if invalid.Some? {
        return Refusal(MissingResource, None, None, [invalid.value], invalid, false);
      }
      var r := FirstRefusingRequest(q);
      if r < |activeRequests| {
        var conflicts := ConflictsIncludingCrossLevel(index, q.targets, activeRequests[r].targets);
        return Refusal(ConflictWithRequest, Some(activeRequests[r].id), None, conflicts, FirstOf(conflicts), false);
      }
      var l := FirstRefusingLease(q);
      if l < |activeLeases| {
        var conflicts := ConflictsIncludingCrossLevel(index, q.targets, activeLeases[l].targets);
        return Refusal(ConflictWithLease, None, Some(activeLeases[l].id), conflicts, FirstOf(conflicts), false);
      }
      var edge := FirstEdgeCapacityViolation(q);
      if edge.Some? {
        return CapacityRefusal(EdgeFull, edge.value);
      }
      var zone := FirstOccupancyViolation(q);
      if zone.Some? {
        return CapacityRefusal(ZoneFull, zone.value);
      }
      return Evaluation(Grant, CompatibleWithState, None, None, [], None, false);
    }
  }

  function Refusal(reason: Reason, claim: Option<u64>, lease: Option<u64>, targets: seq<Target>,
                   blocking: Option<Target>, byCapacity: bool): Evaluation {
    Evaluation(Deny, reason, claim, lease, targets, blocking, byCapacity)
  }

  function CapacityRefusal(reason: Reason, v: Violation): Evaluation {
    Refusal(reason, v.claim, v.lease, [v.target], Some(v.target), v.deniedByCapacity)
  }

  predicate RefusedBy(index: Option<Index>, q: Request, r: Request) {
    Rival(r, q) && !Compatible(index, q.Held(), r.Held())
  }

  predicate RefusedByLease(index: Option<Index>, q: Request, l: Lease) {
    RivalLease(l, q) && !Compatible(index, q.Held(), l.View())
  }

  /** An edge the request would overfill, which always counts as a capacity
      denial. */
  predicate OverfullEdge(ix: Index, s: Ledger, q: Request, v: Violation) {
    && v.target.kind == Edge && v.deniedByCapacity
    && !EdgeWithinCapacity(ix, s, q, v.target)
    && NamesFirstHolders(s, q, OnEdge(v.target), v.claim, v.lease)
  }

  /** A zone the request would overfill; it counts as a capacity denial only when
      the zone admits more than one robot. */
  predicate OverfullZone(ix: Index, s: Ledger, q: Request, v: Violation) {
    && v.target.kind == Zone && v.target.resource in ix.zones
    && Occupies(ix, q.targets, v.target.resource)
    && !ZoneWithinLimit(ix, s, q, v.target.resource)
    && (v.deniedByCapacity <==> ZoneLimit(ix, v.target.resource).Some? && ZoneLimit(ix, v.target.resource).value > 1)
    && NamesFirstHolders(s, q, InZone(ix, v.target.resource), v.claim, v.lease)
  }

  /** The refusal names the first rival request that clashes, and the requested
      targets it clashes on. */
  ghost predicate NamesFirstRequest(index: Option<Index>, s: Ledger, q: Request, e: Evaluation) {
    exists i | 0 <= i < |s.requests| ::
      && RefusedBy(index, q, s.requests[i]) && (forall j | 0 <= j < i :: !RefusedBy(index, q, s.requests[j]))
      && e.conflictingClaim == Some(s.requests[i].id)
      && (forall t :: t in e.conflictingTargets <==> t in q.targets && Clashes(index, t, s.requests[i].targets))
  }

  ghost predicate NamesFirstLease(index: Option<Index>, s: Ledger, q: Request, e: Evaluation) {
    exists i | 0 <= i < |s.leases| ::
      && RefusedByLease(index, q, s.leases[i]) && (forall j | 0 <= j < i :: !RefusedByLease(index, q, s.leases[j]))
      && e.conflictingLease == Some(s.leases[i].id)
      && (forall t :: t in e.conflictingTargets <==> t in q.targets && Clashes(index, t, s.leases[i].targets))
  }

  predicate CompatibleWithAll(index: Option<Index>, s: Ledger, q: Request) {
    CompatibleWithRequests(index, s, q) && CompatibleWithLeases(index, s, q)
  }

  /** What each reason for a decision claims about the ledger. */
  ghost predicate Explains(index: Option<Index>, s: Ledger, q: Request, e: Evaluation) {
    && e.blockingTarget == FirstOf(e.conflictingTargets)
    && match e.reason
       case CompatibleWithState => e.decision == Grant
       case NoTargets => q.targets == []
       case MissingResource =>
         index.Some? && e.blockingTarget.Some?
         && e.blockingTarget.value in q.targets && !TargetExists(index.value, e.blockingTarget.value)
       case ConflictWithRequest =>
         !e.deniedByCapacity && NamesFirstRequest(index, s, q, e)
       case ConflictWithLease =>
         !e.deniedByCapacity && CompatibleWithRequests(index, s, q) && NamesFirstLease(index, s, q, e)
       case EdgeFull =>
         CompatibleWithAll(index, s, q)
         && index.Some? && e.blockingTarget.Some? && e.blockingTarget.value in q.targets
         && OverfullEdge(index.value, s, q, Violation(e.blockingTarget.value, e.conflictingClaim, e.conflictingLease, e.deniedByCapacity))
       case ZoneFull =>
         CompatibleWithAll(index, s, q)
         && index.Some? && EdgesWithinCapacity(index.value, s, q) && e.blockingTarget.Some?
         && OverfullZone(index.value, s, q, Violation(e.blockingTarget.value, e.conflictingClaim, e.conflictingLease, e.deniedByCapacity))
  }

  function LargerOf(a: Option<u64>, b: Option<u64>): Option<u64> {
    if a.None? then b else if b.None? then a else Some(Max(a.value, b.value))
  }

  /** A lease that stays: the scan moves past it. */
  lemma PassOver(leases: seq<Lease>, i: nat, goes: Lease -> bool, how: Disposition, at: Option<u64>)
    requires i < |leases| && !goes(leases[i])
    ensures leases[..i] + Staying(leases[i..], goes) == leases[..i + 1] + Staying(leases[i + 1..], goes)
    ensures Leaving(leases[i..], goes, how, at) == Leaving(leases[i + 1..], goes, how, at)
  {
    assert leases[i..][1..] == leases[i + 1..];
  }

  /** A lease that goes: the gap closes and the archive grows by it. */
  lemma TakeOut(leases: seq<Lease>, archive: seq<Lease>, i: nat, goes: Lease -> bool, how: Disposition, at: Option<u64>)
    requires i < |leases| && goes(leases[i])
    ensures
      var left := RemoveAt(leases, i);
      && leases[..i] + Staying(leases[i..], goes) == left[..i] + Staying(left[i..], goes)
      && archive + Leaving(leases[i..], goes, how, at)
         == archive + [Archived(leases[i], how, at)] + Leaving(left[i..], goes, how, at)
  {
    var left := RemoveAt(leases, i);
    assert leases[i..][1..] == leases[i + 1..] == left[i..];
    assert left[..i] == leases[..i];
  }

  lemma {:induction false} MaxOfBoth(a: seq<u64>, b: seq<u64>)
    ensures MaxOf(a + b) == LargerOf(MaxOf(a), MaxOf(b))
  {
    if a == [] {
      assert a + b == b;
    } else {
      assert (a + b)[1..] == a[1..] + b;
      MaxOfBoth(a[1..], b);
    }
  }

  lemma {:induction false} FilterAllOrShorter<T>(s: seq<T>, keep: T -> bool)
    ensures |Filter(s, keep)| == |s| <==> forall x | x in s :: keep(x)
  {
    if s != [] {
      FilterAllOrShorter(s[1..], keep);
      assert s == [s[0]] + s[1..];
    }
  }
}
