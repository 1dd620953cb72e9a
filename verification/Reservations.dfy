/** Checking a scheduled route against the ledger: who is in the way, and
    whether to proceed, wait or plan again. */
module Reservations {
  import opened Basics
  import opened Workspace
  import opened RoutePlans
  import opened Claims
  import opened Ledgers
  import opened Scheduling

  // ---------------------------------------------------------------------------
  // overlap of two reservations
  // ---------------------------------------------------------------------------

  /** Same place, or two zones of which one contains the other. Unlike the
      ledger's rules this never compares resources of different kinds. */
  predicate PlacesOverlap(index: Option<Index>, lhs: Target, rhs: Target)
    requires index.Some? ==> TreeShaped(index.value)
  {
    if lhs.kind != rhs.kind then false
    else if lhs.resource == rhs.resource then true
    else if lhs.kind != Zone || index.None? then false
    else
      || (lhs.resource in index.value.zones && rhs.resource in AncestorChain(index.value, lhs.resource))
      || (rhs.resource in index.value.zones && lhs.resource in AncestorChain(index.value, rhs.resource))
  }

  predicate ClaimTargetWindowsOverlap(index: Option<Index>, lhs: Target, lhsWindow: Window, rhs: Target, rhsWindow: Window)
    requires index.Some? ==> TreeShaped(index.value)
  {
    WindowsOverlap(lhsWindow, rhsWindow) && PlacesOverlap(index, lhs, rhs)
  }

  /** The scheduler's walk up the parent links and the ledger's cached ancestor
      sets agree on when two zones overlap. */
  lemma ZonePlacesOverlapAsInTheLedger(ix: Index, a: Id, b: Id)
    requires TreeShaped(ix)
    ensures PlacesOverlap(Some(ix), Target(Zone, a), Target(Zone, b)) <==> ZonesOverlap(ix, a, b)
  {
    ChainListsAncestors(ix, a);
    ChainListsAncestors(ix, b);
  }

  // ---------------------------------------------------------------------------
  // conflicts
  // ---------------------------------------------------------------------------

  /** A live entry of the ledger: a request (by claim id) or a lease. */
  datatype Holder = Holder(claim: Option<u64>, lease: Option<u64>, window: Window, targets: seq<Target>)

  datatype Conflict = Conflict(target: Target, blockingUntil: u64, claim: Option<u64>, lease: Option<u64>)

  function RequestHolders(requests: seq<Request>, id: u64): seq<Holder> {
    if requests == [] then []
    else
      var r := requests[|requests| - 1];
      RequestHolders(requests[..|requests| - 1], id) + if r.id == id then [] else [Holder(Some(r.id), None, r.window, r.targets)]
  }

  function LeaseHolders(leases: seq<Lease>): seq<Holder> {
    if leases == [] then []
    else
      var l := leases[|leases| - 1];
      LeaseHolders(leases[..|leases| - 1]) + if l.active then [Holder(None, Some(l.id), l.Held().window, l.targets)] else []
  }

  /** Everybody a request has to wait for: other requests and active leases. */
  function HoldersOf(s: Ledger, id: u64): seq<Holder> {
    RequestHolders(s.requests, id) + LeaseHolders(s.leases)
  }

  function Asked(w: TargetWindow): Window {
    Window(Some(w.start), Some(w.end))
  }

  predicate Blocks(index: Option<Index>, w: TargetWindow, h: Holder)
    requires index.Some? ==> TreeShaped(index.value)
  {
    exists t | t in h.targets :: ClaimTargetWindowsOverlap(index, w.semantics.target, Asked(w), t, h.window)
  }

  /** A holder without an end blocks as long as the window asked for. */
  function ConflictOf(w: TargetWindow, h: Holder): Conflict {
    Conflict(w.semantics.target, h.window.end.GetOr(w.end), h.claim, h.lease)
  }

  function ConflictsAt(index: Option<Index>, w: TargetWindow, hs: seq<Holder>): seq<Conflict>
    requires index.Some? ==> TreeShaped(index.value)
  {
    if hs == [] then []
    else ConflictsAt(index, w, hs[..|hs| - 1]) + if Blocks(index, w, hs[|hs| - 1]) then [ConflictOf(w, hs[|hs| - 1])] else []
  }

  function AllConflicts(index: Option<Index>, ws: seq<TargetWindow>, hs: seq<Holder>): seq<Conflict>
    requires index.Some? ==> TreeShaped(index.value)
  {
    if ws == [] then [] else AllConflicts(index, ws[..|ws| - 1], hs) + ConflictsAt(index, ws[|ws| - 1], hs)
  }

  function Latest(start: u64, cs: seq<Conflict>): (t: u64)
    ensures start <= t
  {
    if cs == [] then start
    else
      var before := Latest(start, cs[..|cs| - 1]);
      if cs[|cs| - 1].blockingUntil > before then cs[|cs| - 1].blockingUntil else before
  }

  // ---------------------------------------------------------------------------
  // the decision
  // ---------------------------------------------------------------------------

  datatype DecisionKind = Proceed | Queue | Replan

  datatype Decision = Decision(kind: DecisionKind, start: u64, position: nat, conflicts: seq<Conflict>)

  predicate MustReplan(ix: Index, cs: seq<Conflict>) {
    exists c | c in cs :: !Queueable(SemanticsOf(ix, c.target))
  }

  function DecisionFor(ix: Index, start: u64, cs: seq<Conflict>): Decision {
    if cs == [] then Decision(Proceed, start, 0, cs)
    else if MustReplan(ix, cs) then Decision(Replan, start, 0, cs)
    else Decision(Queue, SaturatingAdd(Latest(start, cs), 1), |cs| + 1, cs)
  }

  function Decide(ix: Index, index: Option<Index>, s: Ledger, id: u64, p: RoutePlan, start: u64, rate: real): Decision
    requires index.Some? ==> TreeShaped(index.value)
  {
    DecisionFor(ix, start, AllConflicts(index, WindowsOf(ix, p, start, rate), HoldersOf(s, id)))
  }

  // ---------------------------------------------------------------------------
  // the loops
  // ---------------------------------------------------------------------------

  method AnyOverlap(index: Option<Index>, w: TargetWindow, targets: seq<Target>, window: Window) returns (found: bool)
    requires index.Some? ==> TreeShaped(index.value)
    ensures found <==> Blocks(index, w, Holder(None, None, window, targets))
  {
    found := false;
    for i := 0 to |targets|
      invariant forall t | t in targets[..i] :: !ClaimTargetWindowsOverlap(index, w.semantics.target, Asked(w), t, window)
    {
      if ClaimTargetWindowsOverlap(index, w.semantics.target, Asked(w), targets[i], window) {
        return true;
      }
    }
  }

  function ConflictIf(index: Option<Index>, w: TargetWindow, h: Holder): seq<Conflict>
    requires index.Some? ==> TreeShaped(index.value)
  {
    if Blocks(index, w, h) then [ConflictOf(w, h)] else []
  }

  lemma {:induction false} LatestOfBoth(start: u64, a: seq<Conflict>, b: seq<Conflict>)
    ensures Latest(start, a + b) == Latest(Latest(start, a), b)
  {
    if b == [] {
      assert a + b == a;
    } else {
      assert (a + b)[..|a + b| - 1] == a + b[..|b| - 1];
      LatestOfBoth(start, a, b[..|b| - 1]);
    }
  }

  /** The conflict with a holder, if it is in the way, and the latest tick any
      conflict so far lasts to. */
  method AgainstHolder(index: Option<Index>, w: TargetWindow, h: Holder, latest: u64) returns (found: seq<Conflict>, newLatest: u64)
    requires index.Some? ==> TreeShaped(index.value)
    ensures found == ConflictIf(index, w, h) && newLatest == Latest(latest, found)
  {
    var overlaps := AnyOverlap(index, w, h.targets, h.window);
    if !overlaps {
      return [], latest;
    }
    var c := ConflictOf(w, h);
    assert [c][..0] == [];
    found, newLatest := [c], if c.blockingUntil > latest then c.blockingUntil else latest;
  }

  lemma NextRequest(index: Option<Index>, w: TargetWindow, requests: seq<Request>, id: u64, i: nat)
    requires index.Some? ==> TreeShaped(index.value)
    requires i < |requests|
    ensures
      var r := requests[i];
      ConflictsAt(index, w, RequestHolders(requests[..i + 1], id))
      == ConflictsAt(index, w, RequestHolders(requests[..i], id))
         + if r.id == id then [] else ConflictIf(index, w, Holder(Some(r.id), None, r.window, r.targets))
  {
    var r, before := requests[i], RequestHolders(requests[..i], id);
    assert requests[..i + 1][..i] == requests[..i];
    if r.id == id {
      assert RequestHolders(requests[..i + 1], id) == before;
    } else {
      assert (before + [Holder(Some(r.id), None, r.window, r.targets)])[..|before|] == before;
    }
  }

  method AgainstRequests(index: Option<Index>, w: TargetWindow, requests: seq<Request>, id: u64, latest: u64)
    returns (found: seq<Conflict>, newLatest: u64)
    requires index.Some? ==> TreeShaped(index.value)
    ensures found == ConflictsAt(index, w, RequestHolders(requests, id)) && newLatest == Latest(latest, found)
  {
    found, newLatest := [], latest;
    for i := 0 to |requests|
      invariant found == ConflictsAt(index, w, RequestHolders(requests[..i], id))
      invariant newLatest == Latest(latest, found)
    {
      var r := requests[i];
      NextRequest(index, w, requests, id, i);
      if r.id == id {
        continue;
      }
      var more, later := AgainstHolder(index, w, Holder(Some(r.id), None, r.window, r.targets), newLatest);
      LatestOfBoth(latest, found, more);
      found, newLatest := found + more, later;
    }
    assert requests[..|requests|] == requests;
  }

  lemma NextLease(index: Option<Index>, w: TargetWindow, leases: seq<Lease>, i: nat)
    requires index.Some? ==> TreeShaped(index.value)
    requires i < |leases|
    ensures
      var l := leases[i];
      ConflictsAt(index, w, LeaseHolders(leases[..i + 1]))
      == ConflictsAt(index, w, LeaseHolders(leases[..i]))
         + if l.active then ConflictIf(index, w, Holder(None, Some(l.id), l.Held().window, l.targets)) else []
  {
    var l, before := leases[i], LeaseHolders(leases[..i]);
    assert leases[..i + 1][..i] == leases[..i];
    if l.active {
      assert (before + [Holder(None, Some(l.id), l.Held().window, l.targets)])[..|before|] == before;
    } else {
      assert LeaseHolders(leases[..i + 1]) == before;
    }
  }

  method AgainstLeases(index: Option<Index>, w: TargetWindow, leases: seq<Lease>, latest: u64)
    returns (found: seq<Conflict>, newLatest: u64)
    requires index.Some? ==> TreeShaped(index.value)
    ensures found == ConflictsAt(index, w, LeaseHolders(leases)) && newLatest == Latest(latest, found)
  {
    found, newLatest := [], latest;
    for i := 0 to |leases|
      invariant found == ConflictsAt(index, w, LeaseHolders(leases[..i]))
      invariant newLatest == Latest(latest, found)
    {
      var l := leases[i];
      NextLease(index, w, leases, i);
      if !l.active {
        continue;
      }
      var more, later := AgainstHolder(index, w, Holder(None, Some(l.id), l.Held().window, l.targets), newLatest);
      LatestOfBoth(latest, found, more);
      found, newLatest := found + more, later;
    }
    assert leases[..|leases|] == leases;
  }

  lemma {:induction false} ConflictsAtBoth(index: Option<Index>, w: TargetWindow, a: seq<Holder>, b: seq<Holder>)
    requires index.Some? ==> TreeShaped(index.value)
    ensures ConflictsAt(index, w, a + b) == ConflictsAt(index, w, a) + ConflictsAt(index, w, b)
  {
    if b == [] {
      assert a + b == a;
    } else {
      assert (a + b)[..|a + b| - 1] == a + b[..|b| - 1];
      ConflictsAtBoth(index, w, a, b[..|b| - 1]);
    }
  }

  method AnyUnqueueable(ix: Index, cs: seq<Conflict>) returns (found: bool)
    ensures found <==> MustReplan(ix, cs)
  {
    found := false;
    for i := 0 to |cs|
      invariant forall c | c in cs[..i] :: Queueable(SemanticsOf(ix, c.target))
    {
      var s := ClaimTargetSemantics(ix, cs[i].target);
      if s.blocked || s.corridor || !s.waitingAllowed || !s.stopAllowed {
        return true;
      }
    }
  }

  method AgainstLedger(index: Option<Index>, w: TargetWindow, s: Ledger, id: u64, latest: u64)
    returns (found: seq<Conflict>, newLatest: u64)
    requires index.Some? ==> TreeShaped(index.value)
    ensures found == ConflictsAt(index, w, HoldersOf(s, id)) && newLatest == Latest(latest, found)
  {
    ConflictsAtBoth(index, w, RequestHolders(s.requests, id), LeaseHolders(s.leases));
    var requests, leases;
    requests, newLatest := AgainstRequests(index, w, s.requests, id, latest);
    leases, newLatest := AgainstLeases(index, w, s.leases, newLatest);
    LatestOfBoth(latest, requests, leases);
    found := requests + leases;
  }

  method CollectConflicts(index: Option<Index>, windows: seq<TargetWindow>, s: Ledger, id: u64, start: u64)
    returns (conflicts: seq<Conflict>, latest: u64)
    requires index.Some? ==> TreeShaped(index.value)
    ensures conflicts == AllConflicts(index, windows, HoldersOf(s, id)) && latest == Latest(start, conflicts)
  {
    conflicts, latest := [], start;
    for i := 0 to |windows|
      invariant conflicts == AllConflicts(index, windows[..i], HoldersOf(s, id))
      invariant latest == Latest(start, conflicts)
    {
      assert windows[..i + 1][..i] == windows[..i];
      var found, later := AgainstLedger(index, windows[i], s, id, latest);
      LatestOfBoth(start, conflicts, found);
      conflicts, latest := conflicts + found, later;
    }
    assert windows[..|windows|] == windows;
  }

  /** Decides on a route at a start tick: it proceeds exactly when nobody is in
      the way, plans again when it may not wait at some resource, and otherwise
      queues until just after the last blocker. */
  method ScheduleRouteRequest(ix: Index, index: Option<Index>, s: Ledger, id: u64, p: RoutePlan, start: u64, rate: real) returns (d: Decision)
    requires index.Some? ==> TreeShaped(index.value)
    ensures d == Decide(ix, index, s, id, p, start, rate)
  {
    var windows := ScheduledTargetWindowsFromRoute(ix, p, start, rate);
    var conflicts, latest := CollectConflicts(index, windows, s, id, start);
    if conflicts == [] {
      return Decision(Proceed, start, 0, conflicts);
    }
    var replan := AnyUnqueueable(ix, conflicts);
    if replan {
      return Decision(Replan, start, 0, conflicts);
    }
    return Decision(Queue, SaturatingAdd(latest, 1), |conflicts| + 1, conflicts);
  }

  // ---------------------------------------------------------------------------
  // what a decision means
  // ---------------------------------------------------------------------------

  lemma {:induction false} ConflictsAtName(index: Option<Index>, w: TargetWindow, hs: seq<Holder>, c: Conflict)
    requires index.Some? ==> TreeShaped(index.value)
    ensures c in ConflictsAt(index, w, hs) <==> exists h | h in hs :: Blocks(index, w, h) && c == ConflictOf(w, h)
  {
    if hs != [] {
      var front, last := hs[..|hs| - 1], hs[|hs| - 1];
      assert hs == front + [last];
      ConflictsAtName(index, w, front, c);
    }
  }

  /** The conflicts are exactly the pairs of a scheduled window and a holder in
      its way. */
  lemma {:induction false} ConflictsAreTheBlockers(index: Option<Index>, ws: seq<TargetWindow>, hs: seq<Holder>, c: Conflict)
    requires index.Some? ==> TreeShaped(index.value)
    ensures c in AllConflicts(index, ws, hs) <==> exists w, h | w in ws && h in hs :: Blocks(index, w, h) && c == ConflictOf(w, h)
  {
    if ws != [] {
      var front, last := ws[..|ws| - 1], ws[|ws| - 1];
      assert ws == front + [last];
      ConflictsAreTheBlockers(index, front, hs, c);
      ConflictsAtName(index, last, hs, c);
      if exists w, h | w in ws && h in hs :: Blocks(index, w, h) && c == ConflictOf(w, h) {
        var w, h :| w in ws && h in hs && Blocks(index, w, h) && c == ConflictOf(w, h);
        assert w in front || w == last;
      }
    }
  }

  // ---------------------------------------------------------------------------
  // decisions in the ledger's terms
  // ---------------------------------------------------------------------------

  /** Two reservations are for one place when they name one resource, or two zones
      of which one is, contains or lies in the other. */
  predicate SamePlace(index: Option<Index>, a: Target, t: Target) {
    a == t || (a.kind == Zone && t.kind == Zone && index.Some? && ZonesOverlap(index.value, a.resource, t.resource))
  }

  lemma PlacesOverlapExactly(index: Option<Index>, a: Target, t: Target)
    requires index.Some? ==> TreeShaped(index.value)
    ensures PlacesOverlap(index, a, t) <==> SamePlace(index, a, t)
  {
    if a.kind == Zone && t.kind == Zone && index.Some? {
      assert a == Target(Zone, a.resource) && t == Target(Zone, t.resource);
      ZonePlacesOverlapAsInTheLedger(index.value, a.resource, t.resource);
    }
  }

  /** An entry over these targets for this window is in the way of a reservation. */
  predicate InTheWay(index: Option<Index>, w: TargetWindow, window: Window, targets: seq<Target>) {
    && Start(window) <= w.end && w.start <= End(window)
    && exists t | t in targets :: SamePlace(index, w.semantics.target, t)
  }

  lemma BlocksExactly(index: Option<Index>, w: TargetWindow, h: Holder)
    requires index.Some? ==> TreeShaped(index.value)
    ensures Blocks(index, w, h) <==> InTheWay(index, w, h.window, h.targets)
  {
    forall t ensures PlacesOverlap(index, w.semantics.target, t) <==> SamePlace(index, w.semantics.target, t) {
      PlacesOverlapExactly(index, w.semantics.target, t);
    }
    if InTheWay(index, w, h.window, h.targets) {
      var t :| t in h.targets && SamePlace(index, w.semantics.target, t);
      assert ClaimTargetWindowsOverlap(index, w.semantics.target, Asked(w), t, h.window);
    }
  }

  lemma {:induction false} RequestHoldersExactly(requests: seq<Request>, id: u64, h: Holder)
    ensures h in RequestHolders(requests, id) <==>
              exists r | r in requests :: r.id != id && h == Holder(Some(r.id), None, r.window, r.targets)
  {
    if requests != [] {
      var front, last := requests[..|requests| - 1], requests[|requests| - 1];
      assert requests == front + [last];
      RequestHoldersExactly(front, id, h);
    }
  }

  lemma {:induction false} LeaseHoldersExactly(leases: seq<Lease>, h: Holder)
    ensures h in LeaseHolders(leases) <==>
              exists l | l in leases :: l.active && h == Holder(None, Some(l.id), Window(l.grantedAt, l.expiresAt), l.targets)
  {
    if leases != [] {
      var front, last := leases[..|leases| - 1], leases[|leases| - 1];
      assert leases == front + [last];
      LeaseHoldersExactly(front, h);
    }
  }

  /** A conflict with a request other than the robot's own, or with an active
      lease. It lasts to the entry's end, or as long as the reservation. */
  ghost predicate ConflictWithRequest(index: Option<Index>, s: Ledger, id: u64, w: TargetWindow, c: Conflict) {
    exists r | r in s.requests :: r.id != id && InTheWay(index, w, r.window, r.targets)
      && c == Conflict(w.semantics.target, if r.window.end.Some? then r.window.end.value else w.end, Some(r.id), None)
  }

  ghost predicate ConflictWithLease(index: Option<Index>, s: Ledger, w: TargetWindow, c: Conflict) {
    exists l | l in s.leases :: l.active && InTheWay(index, w, Window(l.grantedAt, l.expiresAt), l.targets)
      && c == Conflict(w.semantics.target, if l.expiresAt.Some? then l.expiresAt.value else w.end, None, Some(l.id))
  }

  lemma HolderConflicts(index: Option<Index>, s: Ledger, id: u64, w: TargetWindow, c: Conflict)
    requires index.Some? ==> TreeShaped(index.value)
    ensures (exists h | h in HoldersOf(s, id) :: Blocks(index, w, h) && c == ConflictOf(w, h))
       <==> ConflictWithRequest(index, s, id, w, c) || ConflictWithLease(index, s, w, c)
  {
    if h :| h in HoldersOf(s, id) && Blocks(index, w, h) && c == ConflictOf(w, h) {
      BlocksExactly(index, w, h);
      RequestHoldersExactly(s.requests, id, h);
      LeaseHoldersExactly(s.leases, h);
    }
    if ConflictWithRequest(index, s, id, w, c) {
      var r :| r in s.requests && r.id != id && InTheWay(index, w, r.window, r.targets)
        && c == Conflict(w.semantics.target, if r.window.end.Some? then r.window.end.value else w.end, Some(r.id), None);
      var h := Holder(Some(r.id), None, r.window, r.targets);
      BlocksExactly(index, w, h);
      RequestHoldersExactly(s.requests, id, h);
      assert h in HoldersOf(s, id) && c == ConflictOf(w, h);
    }
    if ConflictWithLease(index, s, w, c) {
      var l :| l in s.leases && l.active && InTheWay(index, w, Window(l.grantedAt, l.expiresAt), l.targets)
        && c == Conflict(w.semantics.target, if l.expiresAt.Some? then l.expiresAt.value else w.end, None, Some(l.id));
      var h := Holder(None, Some(l.id), Window(l.grantedAt, l.expiresAt), l.targets);
      BlocksExactly(index, w, h);
      LeaseHoldersExactly(s.leases, h);
      assert h in HoldersOf(s, id) && c == ConflictOf(w, h);
    }
  }

  /** What a decision reports as a conflict, read off the ledger. */
  lemma ConflictsInTheLedger(ix: Index, index: Option<Index>, s: Ledger, id: u64, p: RoutePlan, start: u64, rate: real, c: Conflict)
    requires index.Some? ==> TreeShaped(index.value)
    ensures c in Decide(ix, index, s, id, p, start, rate).conflicts <==>
              exists w | w in WindowsOf(ix, p, start, rate) ::
                ConflictWithRequest(index, s, id, w, c) || ConflictWithLease(index, s, w, c)
  {
    var ws, hs := WindowsOf(ix, p, start, rate), HoldersOf(s, id);
    ConflictsAreTheBlockers(index, ws, hs, c);
    forall w | w in ws
      ensures (exists h | h in hs :: Blocks(index, w, h) && c == ConflictOf(w, h))
         <==> ConflictWithRequest(index, s, id, w, c) || ConflictWithLease(index, s, w, c)
    {
      HolderConflicts(index, s, id, w, c);
    }
  }

  /** One tick past `t`, short of the end of the range. */
  function Past(t: u64): u64 {
    if t == 0xFFFF_FFFF_FFFF_FFFF then t else t + 1
  }

  /** The decision follows from the conflicts: none lets the route proceed; one at
      a resource that does not let a robot wait has it planned again; else it queues
      behind all of them, to start just past the last to end. */
  lemma DecisionsExactly(ix: Index, index: Option<Index>, s: Ledger, id: u64, p: RoutePlan, start: u64, rate: real)
    requires index.Some? ==> TreeShaped(index.value)
    ensures
      var d := Decide(ix, index, s, id, p, start, rate);
      && (d.kind == Proceed <==> d.conflicts == [])
      && (d.kind == Replan <==> exists c | c in d.conflicts :: !LetsWait(ix, c.target))
      && (if d.kind == Queue then
            && d.position == |d.conflicts| + 1
            && Past(start) <= d.start && (forall c | c in d.conflicts :: Past(c.blockingUntil) <= d.start)
            && (d.start == Past(start) || exists c | c in d.conflicts :: d.start == Past(c.blockingUntil))
          else d.start == start && d.position == 0)
  {
    var cs := AllConflicts(index, WindowsOf(ix, p, start, rate), HoldersOf(s, id));
    forall c | c in cs ensures Queueable(SemanticsOf(ix, c.target)) <==> LetsWait(ix, c.target) {
      LetsWaitExactly(ix, c.target);
    }
    LatestIsLatest(start, cs);
  }

  lemma ConflictBlocks(ix: Index, index: Option<Index>, s: Ledger, id: u64, p: RoutePlan, start: u64, rate: real, w: TargetWindow, c: Conflict)
    requires index.Some? ==> TreeShaped(index.value)
    requires w in WindowsOf(ix, p, start, rate)
    requires ConflictWithRequest(index, s, id, w, c) || ConflictWithLease(index, s, w, c)
    ensures Decide(ix, index, s, id, p, start, rate).kind != Proceed
    ensures !LetsWait(ix, w.semantics.target) ==> Decide(ix, index, s, id, p, start, rate).kind == Replan
  {
    ConflictsInTheLedger(ix, index, s, id, p, start, rate, c);
    DecisionsExactly(ix, index, s, id, p, start, rate);
  }

  /** Nobody else has the resource between the two ticks. */
  predicate FreeBetween(s: Ledger, id: u64, t: Target, from: u64, until: u64) {
    RequestsLeaveFree(s, id, t, from, until) && LeasesLeaveFree(s, t, from, until)
  }

  predicate RequestsLeaveFree(s: Ledger, id: u64, t: Target, from: u64, until: u64) {
    forall r | r in s.requests && r.id != id && t in r.targets ::
      (r.window.start.Some? && until < r.window.start.value) || (r.window.end.Some? && r.window.end.value < from)
  }

  predicate LeasesLeaveFree(s: Ledger, t: Target, from: u64, until: u64) {
    forall l | l in s.leases && l.active && t in l.targets ::
      (l.grantedAt.Some? && until < l.grantedAt.value) || (l.expiresAt.Some? && l.expiresAt.value < from)
  }

  lemma OccupiedMeansConflict(index: Option<Index>, s: Ledger, id: u64, w: TargetWindow) returns (c: Conflict)
    requires !FreeBetween(s, id, w.semantics.target, w.start, w.end)
    ensures c.target == w.semantics.target
    ensures ConflictWithRequest(index, s, id, w, c) || ConflictWithLease(index, s, w, c)
  {
    var t := w.semantics.target;
    assert SamePlace(index, t, t);
    if !RequestsLeaveFree(s, id, t, w.start, w.end) {
      var r :| r in s.requests && r.id != id && t in r.targets
               && !((r.window.start.Some? && w.end < r.window.start.value) || (r.window.end.Some? && r.window.end.value < w.start));
      assert InTheWay(index, w, r.window, r.targets);
      c := Conflict(t, if r.window.end.Some? then r.window.end.value else w.end, Some(r.id), None);
      assert ConflictWithRequest(index, s, id, w, c);
    } else {
      var l :| l in s.leases && l.active && t in l.targets
               && !((l.grantedAt.Some? && w.end < l.grantedAt.value) || (l.expiresAt.Some? && l.expiresAt.value < w.start));
      assert InTheWay(index, w, Window(l.grantedAt, l.expiresAt), l.targets);
      c := Conflict(t, if l.expiresAt.Some? then l.expiresAt.value else w.end, None, Some(l.id));
      assert ConflictWithLease(index, s, w, c);
    }
  }

  /** A resource somebody else has while the route needs it keeps the route from
      proceeding; where a robot may not wait at it, the route is planned again. */
  lemma OccupiedResourcesDecide(ix: Index, index: Option<Index>, s: Ledger, id: u64, p: RoutePlan, start: u64, rate: real, i: nat,
                                t: Target, from: u64, until: u64)
    requires index.Some? ==> TreeShaped(index.value)
    requires WellShaped(p) && i < |p.nodes| && ReservedAt(p, start, rate, i, t, from, until)
    requires !FreeBetween(s, id, t, from, until)
    ensures Decide(ix, index, s, id, p, start, rate).kind != Proceed
    ensures !LetsWait(ix, t) ==> Decide(ix, index, s, id, p, start, rate).kind == Replan
  {
    var w := TargetWindow(SemanticsOf(ix, t), from, until);
    WindowsExactly(ix, p, start, rate, w);
    var c := OccupiedMeansConflict(index, s, id, w);
    ConflictBlocks(ix, index, s, id, p, start, rate, w, c);
  }

  lemma ReservedIsFree(ix: Index, index: Option<Index>, s: Ledger, id: u64, p: RoutePlan, start: u64, rate: real, i: nat,
                       t: Target, from: u64, until: u64)
    requires index.Some? ==> TreeShaped(index.value)
    requires WellShaped(p) && i < |p.nodes| && ReservedAt(p, start, rate, i, t, from, until)
    requires Decide(ix, index, s, id, p, start, rate).kind == Proceed
    ensures FreeBetween(s, id, t, from, until)
  {
    if !FreeBetween(s, id, t, from, until) {
      OccupiedResourcesDecide(ix, index, s, id, p, start, rate, i, t, from, until);
    }
  }

  /** While a route that proceeds stands at a node or drives an edge, no other
      request and no active lease has that node or edge. */
  lemma ProceedingHasItsResources(ix: Index, index: Option<Index>, s: Ledger, id: u64, p: RoutePlan, start: u64, rate: real, i: nat)
    requires index.Some? ==> TreeShaped(index.value)
    requires WellShaped(p) && i < |p.nodes| && Decide(ix, index, s, id, p, start, rate).kind == Proceed
    ensures FreeBetween(s, id, Target(Node, p.nodes[i]), TickAt(p, start, rate, i), StayUntil(p, start, rate, i))
    ensures i < |p.edges| ==>
              FreeBetween(s, id, Target(Edge, p.edges[i]), TickAt(p, start, rate, i),
                          Max(TickAt(p, start, rate, i), TickAt(p, start, rate, i + 1)))
  {
    var from := TickAt(p, start, rate, i);
    ReservedIsFree(ix, index, s, id, p, start, rate, i, Target(Node, p.nodes[i]), from, StayUntil(p, start, rate, i));
    if i < |p.edges| {
      var until := Max(from, TickAt(p, start, rate, i + 1));
      ReservedIsFree(ix, index, s, id, p, start, rate, i, Target(Edge, p.edges[i]), from, until);
    }
  }

  /** A route proceeds exactly when no holder is in the way of any window. */
  lemma ProceedsExactlyWhenFree(ix: Index, index: Option<Index>, s: Ledger, id: u64, p: RoutePlan, start: u64, rate: real)
    requires index.Some? ==> TreeShaped(index.value)
    ensures Decide(ix, index, s, id, p, start, rate).kind == Proceed
       <==> forall w, h | w in WindowsOf(ix, p, start, rate) && h in HoldersOf(s, id) :: !Blocks(index, w, h)
  {
    var ws, hs := WindowsOf(ix, p, start, rate), HoldersOf(s, id);
    var cs := AllConflicts(index, ws, hs);
    forall w, h | w in ws && h in hs && Blocks(index, w, h) ensures cs != [] {
      ConflictsAreTheBlockers(index, ws, hs, ConflictOf(w, h));
    }
    if cs != [] {
      ConflictsAreTheBlockers(index, ws, hs, cs[0]);
    }
  }

  /** A route that may proceed keeps clear of held zones at every depth: while it
      stops at a node, nobody else holds a zone the node lies in. */
  lemma ProceedingKeepsOutOfHeldZones(ix: Index, s: Ledger, id: u64, model: CostModel, p: RoutePlan, start: u64, rate: real,
                                      h: Holder, t: Target, i: nat)
    requires TreeShaped(ix) && WellShaped(p) && Describes(ix, model, p.nodes, p)
    requires Decide(ix, Some(ix), s, id, p, start, rate).kind == Proceed
    requires h in HoldersOf(s, id) && t in h.targets && t.kind == Zone
    requires i < |p.nodes| && LiesInside(ix, Target(Node, p.nodes[i]), t.resource)
    ensures !WindowsOverlap(Window(Some(TickAt(p, start, rate, i)), Some(StayUntil(p, start, rate, i))), h.window)
  {
    var from, until := TickAt(p, start, rate, i), StayUntil(p, start, rate, i);
    var z :| z in ZonesOf(ix, Target(Node, p.nodes[i])) && ZoneContains(ix, t.resource, z);
    var w := TargetWindow(SemanticsOf(ix, Target(Zone, z)), from, until);
    EveryZoneIsListed(ix, p.nodeZones[i], z, from, until);
    assert w in WindowsAt(ix, p, start, rate, i);
    EveryStopIsListed(ix, p, start, rate, i, w);
    ProceedsExactlyWhenFree(ix, Some(ix), s, id, p, start, rate);
    assert !Blocks(Some(ix), w, h);
    assert !ClaimTargetWindowsOverlap(Some(ix), Target(Zone, z), Asked(w), t, h.window);
    ZonePlacesOverlapAsInTheLedger(ix, z, t.resource);
  }

  lemma {:induction false} LatestIsLatest(start: u64, cs: seq<Conflict>)
    ensures forall c | c in cs :: c.blockingUntil <= Latest(start, cs)
    ensures Latest(start, cs) == start || exists c | c in cs :: c.blockingUntil == Latest(start, cs)
  {
    if cs != [] {
      var front, last := cs[..|cs| - 1], cs[|cs| - 1];
      assert cs == front + [last];
      LatestIsLatest(start, front);
    }
  }

  lemma WindowsStartLater(ix: Index, p: RoutePlan, start: u64, rate: real)
    requires TicksFit(p, start, rate)
    ensures forall w | w in WindowsOf(ix, p, start, rate) :: start <= w.start && w.start <= w.end
  {
    forall w | w in WindowsOf(ix, p, start, rate) ensures start <= w.start && w.start <= w.end {
      var i := EveryWindowHasAStop(ix, p, start, rate, w);
      WindowsStartWithTheStop(ix, p, start, rate, i);
    }
  }

  // ---------------------------------------------------------------------------
  // who stands on the route
  // ---------------------------------------------------------------------------

  /** The holder has a place that overlaps a node, an edge or a listed zone of
      the plan. */
  ghost predicate StandsOnRoute(index: Option<Index>, p: RoutePlan, h: Holder)
    requires index.Some? ==> TreeShaped(index.value)
  {
    exists a, t | RouteTarget(p, a) && t in h.targets :: PlacesOverlap(index, a, t)
  }

  predicate LetsGo(h: Holder) {
    End(h.window) < 0xFFFF_FFFF_FFFF_FFFF
  }

  /** Every holder on the route lets go some time before the last tick. */
  ghost predicate AllLetGo(index: Option<Index>, p: RoutePlan, hs: seq<Holder>)
    requires index.Some? ==> TreeShaped(index.value)
  {
    forall h | h in hs && StandsOnRoute(index, p, h) :: LetsGo(h)
  }

  lemma BlockersStandOnRoute(ix: Index, index: Option<Index>, p: RoutePlan, start: u64, rate: real, w: TargetWindow, h: Holder)
    requires index.Some? ==> TreeShaped(index.value)
    requires w in WindowsOf(ix, p, start, rate) && Blocks(index, w, h)
    ensures StandsOnRoute(index, p, h)
  {
    WindowsAreForTheRoute(ix, p, start, rate, w.semantics.target);
    var t :| t in h.targets && ClaimTargetWindowsOverlap(index, w.semantics.target, Asked(w), t, h.window);
    assert RouteTarget(p, w.semantics.target) && PlacesOverlap(index, w.semantics.target, t);
  }

  /** Whoever stands on the route blocks it at any start after it began, unless
      it has let go by then. */
  lemma StandersBlock(ix: Index, index: Option<Index>, p: RoutePlan, start: u64, rate: real, h: Holder) returns (w: TargetWindow)
    requires index.Some? ==> TreeShaped(index.value)
    requires WellShaped(p) && TicksFit(p, start, rate)
    requires StandsOnRoute(index, p, h) && Start(h.window) <= start && !LetsGo(h)
    ensures w in WindowsOf(ix, p, start, rate) && Blocks(index, w, h)
  {
    var a, t :| RouteTarget(p, a) && t in h.targets && PlacesOverlap(index, a, t);
    WindowsAreForTheRoute(ix, p, start, rate, a);
    w :| w in WindowsOf(ix, p, start, rate) && w.semantics.target == a && start <= w.start && w.start <= w.end;
    assert ClaimTargetWindowsOverlap(index, a, Asked(w), t, h.window);
  }

  // ---------------------------------------------------------------------------
  // queueing ends
  // ---------------------------------------------------------------------------

  /** Holders that have not let go before `tick`. */
  function StillHolding(hs: seq<Holder>, tick: u64): nat {
    if hs == [] then 0
    else StillHolding(hs[..|hs| - 1], tick) + if End(hs[|hs| - 1].window) >= tick then 1 else 0
  }

  lemma {:induction false} LaterHoldsFewer(hs: seq<Holder>, early: u64, late: u64)
    requires early <= late
    ensures StillHolding(hs, late) <= StillHolding(hs, early) <= |hs|
    ensures (exists h | h in hs :: early <= End(h.window) && End(h.window) < late) ==> StillHolding(hs, late) < StillHolding(hs, early)
  {
    if hs != [] {
      var front, last := hs[..|hs| - 1], hs[|hs| - 1];
      assert hs == front + [last];
      LaterHoldsFewer(front, early, late);
    }
  }

  /** A queue decision moves the start past everybody who is in the way now, for
      good: at no later start can they block the route again. */
  lemma QueueMovesPastBlockers(ix: Index, index: Option<Index>, s: Ledger, id: u64, p: RoutePlan, start: u64, rate: real, w: TargetWindow, h: Holder)
    requires index.Some? ==> TreeShaped(index.value)
    requires TicksFit(p, start, rate) && AllLetGo(index, p, HoldersOf(s, id))
    requires Decide(ix, index, s, id, p, start, rate).kind == Queue
    requires w in WindowsOf(ix, p, start, rate) && h in HoldersOf(s, id) && Blocks(index, w, h)
    ensures start <= End(h.window) < Decide(ix, index, s, id, p, start, rate).start
  {
    var cs, c := AllConflicts(index, WindowsOf(ix, p, start, rate), HoldersOf(s, id)), ConflictOf(w, h);
    ConflictsAreTheBlockers(index, WindowsOf(ix, p, start, rate), HoldersOf(s, id), c);
    BlockersStandOnRoute(ix, index, p, start, rate, w, h);
    WindowsStartLater(ix, p, start, rate);
    assert c in cs && c.blockingUntil == End(h.window);
    BlockersEndBeforeTheLastTick(index, ix, s, id, p, start, rate);
    QueueTickIsPast(start, cs, c);
  }

  lemma QueueTickIsPast(start: u64, cs: seq<Conflict>, c: Conflict)
    requires c in cs && forall d | d in cs :: start <= d.blockingUntil && d.blockingUntil < U64_MAX
    ensures c.blockingUntil < SaturatingAdd(Latest(start, cs), 1)
  {
    LatestIsLatest(start, cs);
  }

  lemma BlockersEndBeforeTheLastTick(index: Option<Index>, ix: Index, s: Ledger, id: u64, p: RoutePlan, start: u64, rate: real)
    requires index.Some? ==> TreeShaped(index.value)
    requires TicksFit(p, start, rate) && AllLetGo(index, p, HoldersOf(s, id))
    ensures forall c | c in AllConflicts(index, WindowsOf(ix, p, start, rate), HoldersOf(s, id)) :: start <= c.blockingUntil && c.blockingUntil < U64_MAX
  {
    var ws, hs := WindowsOf(ix, p, start, rate), HoldersOf(s, id);
    WindowsStartLater(ix, p, start, rate);
    forall c | c in AllConflicts(index, ws, hs) ensures start <= c.blockingUntil < U64_MAX {
      ConflictsAreTheBlockers(index, ws, hs, c);
      var w, h :| w in ws && h in hs && Blocks(index, w, h) && c == ConflictOf(w, h);
      BlockersStandOnRoute(ix, index, p, start, rate, w, h);
    }
  }

  predicate ToldToWait(ix: Index, index: Option<Index>, s: Ledger, id: u64, p: RoutePlan, rate: real, start: u64, next: u64)
    requires index.Some? ==> TreeShaped(index.value)
  {
    && TicksFit(p, start, rate)
    && Decide(ix, index, s, id, p, start, rate).kind == Queue
    && Decide(ix, index, s, id, p, start, rate).start == next
  }

  /** A route rescheduled at whatever tick it was told to wait for. */
  predicate QueueRun(ix: Index, index: Option<Index>, s: Ledger, id: u64, p: RoutePlan, rate: real, starts: seq<u64>)
    requires index.Some? ==> TreeShaped(index.value)
  {
    |starts| <= 1 ||
    (QueueRun(ix, index, s, id, p, rate, starts[..|starts| - 1])
     && ToldToWait(ix, index, s, id, p, rate, starts[|starts| - 2], starts[|starts| - 1]))
  }

  lemma {:induction false} QueueRunStep(ix: Index, index: Option<Index>, s: Ledger, id: u64, p: RoutePlan, rate: real, starts: seq<u64>, i: nat)
    requires index.Some? ==> TreeShaped(index.value)
    requires QueueRun(ix, index, s, id, p, rate, starts) && 0 < i < |starts|
    ensures ToldToWait(ix, index, s, id, p, rate, starts[i - 1], starts[i])
    decreases |starts|
  {
    if i < |starts| - 1 {
      QueueRunStep(ix, index, s, id, p, rate, starts[..|starts| - 1], i);
    }
  }

  predicate FreesOne(hs: seq<Holder>, now: u64, next: u64) {
    StillHolding(hs, next) < StillHolding(hs, now)
  }

  lemma {:induction false} EachWaitCounts(hs: seq<Holder>, starts: seq<u64>, k: nat)
    requires k < |starts| && forall i | 0 < i < |starts| :: FreesOne(hs, starts[i - 1], starts[i])
    ensures k + StillHolding(hs, starts[k]) <= |hs|
  {
    if k == 0 {
      LaterHoldsFewer(hs, starts[0], starts[0]);
    } else {
      EachWaitCounts(hs, starts, k - 1);
      assert FreesOne(hs, starts[k - 1], starts[k]);
    }
  }

  /** Against a fixed ledger a route is told to wait at most once per holder. */
  lemma QueueingEnds(ix: Index, index: Option<Index>, s: Ledger, id: u64, p: RoutePlan, rate: real, starts: seq<u64>)
    requires index.Some? ==> TreeShaped(index.value)
    requires AllLetGo(index, p, HoldersOf(s, id))
    requires starts != [] && QueueRun(ix, index, s, id, p, rate, starts)
    ensures |starts| - 1 + StillHolding(HoldersOf(s, id), starts[|starts| - 1]) <= |HoldersOf(s, id)|
  {
    forall i | 0 < i < |starts| ensures FreesOne(HoldersOf(s, id), starts[i - 1], starts[i]) {
      QueueRunStep(ix, index, s, id, p, rate, starts, i);
      WaitingFreesOne(ix, index, s, id, p, rate, starts[i - 1], starts[i]);
    }
    EachWaitCounts(HoldersOf(s, id), starts, |starts| - 1);
  }

  lemma WaitingFreesOne(ix: Index, index: Option<Index>, s: Ledger, id: u64, p: RoutePlan, rate: real, start: u64, next: u64)
    requires index.Some? ==> TreeShaped(index.value)
    requires AllLetGo(index, p, HoldersOf(s, id)) && ToldToWait(ix, index, s, id, p, rate, start, next)
    ensures FreesOne(HoldersOf(s, id), start, next)
  {
    var ws, hs := WindowsOf(ix, p, start, rate), HoldersOf(s, id);
    var cs := AllConflicts(index, ws, hs);
    ConflictsAreTheBlockers(index, ws, hs, cs[0]);
    var w, h :| w in ws && h in hs && Blocks(index, w, h) && cs[0] == ConflictOf(w, h);
    QueueMovesPastBlockers(ix, index, s, id, p, start, rate, w, h);
    LaterHoldsFewer(hs, start, next);
  }

  /** The bound needs holders that let go: one on the route that never does keeps
      it from proceeding at every later start. */
  lemma UnboundedHolderBlocksForever(ix: Index, index: Option<Index>, s: Ledger, id: u64, p: RoutePlan, start: u64, rate: real, h: Holder)
    requires index.Some? ==> TreeShaped(index.value)
    requires WellShaped(p) && TicksFit(p, start, rate)
    requires h in HoldersOf(s, id) && StandsOnRoute(index, p, h) && Start(h.window) <= start && !LetsGo(h)
    ensures Decide(ix, index, s, id, p, start, rate).kind != Proceed
  {
    var w := StandersBlock(ix, index, p, start, rate, h);
    ProceedsExactlyWhenFree(ix, index, s, id, p, start, rate);
  }

  /** What becomes of a route that is rescheduled, against a fixed ledger, at
      whatever tick it is told to wait for. */
  datatype Outcome = Goes(start: u64) | Replans(start: u64) | RunsOutOfTicks

  datatype Attempt = Settled(outcome: Outcome) | TriesAgain(start: u64)

  /** One decision, and what follows from it. */
  function AttemptAt(ix: Index, index: Option<Index>, s: Ledger, id: u64, p: RoutePlan, rate: real, start: u64): (a: Attempt)
    requires index.Some? ==> TreeShaped(index.value)
    ensures a.TriesAgain? ==> start < a.start
  {
    if !TicksFit(p, start, rate) then Settled(RunsOutOfTicks)
    else
      var d := Decide(ix, index, s, id, p, start, rate);
      match d.kind
      case Proceed => Settled(Goes(start))
      case Replan => Settled(Replans(start))
      case Queue => if start < d.start then TriesAgain(d.start) else Settled(RunsOutOfTicks)
  }

  function Wait(ix: Index, index: Option<Index>, s: Ledger, id: u64, p: RoutePlan, rate: real, start: u64): Outcome
    requires index.Some? ==> TreeShaped(index.value)
    decreases U64_MAX - start
  {
    match AttemptAt(ix, index, s, id, p, rate, start)
    case Settled(outcome) => outcome
    case TriesAgain(next) => Wait(ix, index, s, id, p, rate, next)
  }

  /** The route can still be fitted in after anybody who stands on it and lets go. */
  ghost predicate TicksRemain(index: Option<Index>, p: RoutePlan, rate: real, hs: seq<Holder>, start: u64)
    requires index.Some? ==> TreeShaped(index.value)
  {
    && TicksFit(p, start, rate)
    && forall h | h in hs && StandsOnRoute(index, p, h) && LetsGo(h) :: TicksFit(p, End(h.window) + 1, rate)
  }

  /** Every holder on the route has begun by `start`. */
  ghost predicate AllBegun(index: Option<Index>, p: RoutePlan, hs: seq<Holder>, start: u64)
    requires index.Some? ==> TreeShaped(index.value)
  {
    forall h | h in hs && StandsOnRoute(index, p, h) :: Start(h.window) <= start
  }

  lemma GoingFreesTheRoute(ix: Index, index: Option<Index>, s: Ledger, id: u64, p: RoutePlan, rate: real, start: u64)
    requires index.Some? ==> TreeShaped(index.value)
    requires WellShaped(p) && AllBegun(index, p, HoldersOf(s, id), start)
    requires AttemptAt(ix, index, s, id, p, rate, start) == Settled(Goes(start))
    ensures AllLetGo(index, p, HoldersOf(s, id))
  {
    forall h | h in HoldersOf(s, id) && StandsOnRoute(index, p, h) ensures LetsGo(h) {
      if !LetsGo(h) {
        UnboundedHolderBlocksForever(ix, index, s, id, p, start, rate, h);
      }
    }
  }

  lemma {:induction false} GoingMeansAllLetGo(ix: Index, index: Option<Index>, s: Ledger, id: u64, p: RoutePlan, rate: real, start: u64)
    requires index.Some? ==> TreeShaped(index.value)
    requires WellShaped(p) && AllBegun(index, p, HoldersOf(s, id), start)
    requires Wait(ix, index, s, id, p, rate, start).Goes?
    ensures AllLetGo(index, p, HoldersOf(s, id))
    decreases U64_MAX - start
  {
    match AttemptAt(ix, index, s, id, p, rate, start) {
      case Settled(_) => GoingFreesTheRoute(ix, index, s, id, p, rate, start);
      case TriesAgain(next) => GoingMeansAllLetGo(ix, index, s, id, p, rate, next);
    }
  }

  lemma ConflictHasABlocker(ix: Index, index: Option<Index>, s: Ledger, id: u64, p: RoutePlan, start: u64, rate: real, c: Conflict) returns (h: Holder)
    requires index.Some? ==> TreeShaped(index.value)
    requires c in AllConflicts(index, WindowsOf(ix, p, start, rate), HoldersOf(s, id))
    ensures h in HoldersOf(s, id) && StandsOnRoute(index, p, h) && RouteTarget(p, c.target)
    ensures LetsGo(h) ==> c.blockingUntil == End(h.window)
  {
    var ws, hs := WindowsOf(ix, p, start, rate), HoldersOf(s, id);
    ConflictsAreTheBlockers(index, ws, hs, c);
    var w;
    w, h :| w in ws && h in hs && Blocks(index, w, h) && c == ConflictOf(w, h);
    BlockersStandOnRoute(ix, index, p, start, rate, w, h);
    WindowsAreForTheRoute(ix, p, start, rate, w.semantics.target);
  }

  lemma SomeConflictIsLatest(start: u64, cs: seq<Conflict>) returns (c: Conflict)
    requires cs != [] && forall d | d in cs :: start <= d.blockingUntil
    ensures c in cs && c.blockingUntil == Latest(start, cs)
  {
    LatestIsLatest(start, cs);
    assert cs[0] in cs;
    c :| c in cs && c.blockingUntil == Latest(start, cs);
  }

  lemma QueuesAfterTheLatest(ix: Index, start: u64, cs: seq<Conflict>)
    requires DecisionFor(ix, start, cs).kind == Queue
    ensures cs != [] && DecisionFor(ix, start, cs).start == SaturatingAdd(Latest(start, cs), 1)
  {
  }

  lemma QueueTickFollowsAHolder(ix: Index, index: Option<Index>, s: Ledger, id: u64, p: RoutePlan, start: u64, rate: real) returns (h: Holder)
    requires index.Some? ==> TreeShaped(index.value)
    requires TicksFit(p, start, rate) && AllLetGo(index, p, HoldersOf(s, id))
    requires Decide(ix, index, s, id, p, start, rate).kind == Queue
    ensures h in HoldersOf(s, id) && StandsOnRoute(index, p, h) && LetsGo(h)
    ensures start <= End(h.window) && Decide(ix, index, s, id, p, start, rate).start == End(h.window) + 1
  {
    var cs := AllConflicts(index, WindowsOf(ix, p, start, rate), HoldersOf(s, id));
    BlockersEndBeforeTheLastTick(index, ix, s, id, p, start, rate);
    QueuesAfterTheLatest(ix, start, cs);
    var c := SomeConflictIsLatest(start, cs);
    assert c.blockingUntil < U64_MAX;
    h := ConflictHasABlocker(ix, index, s, id, p, start, rate, c);
  }

  lemma TicksStillRemain(ix: Index, index: Option<Index>, s: Ledger, id: u64, p: RoutePlan, rate: real, start: u64)
    requires index.Some? ==> TreeShaped(index.value)
    requires TicksRemain(index, p, rate, HoldersOf(s, id), start) && AllLetGo(index, p, HoldersOf(s, id))
    ensures
      match AttemptAt(ix, index, s, id, p, rate, start)
      case Settled(outcome) => !outcome.RunsOutOfTicks?
      case TriesAgain(next) => TicksRemain(index, p, rate, HoldersOf(s, id), next)
  {
    if Decide(ix, index, s, id, p, start, rate).kind == Queue {
      var h := QueueTickFollowsAHolder(ix, index, s, id, p, start, rate);
    }
  }

  lemma {:induction false} LettingGoEndsTheWait(ix: Index, index: Option<Index>, s: Ledger, id: u64, p: RoutePlan, rate: real, start: u64)
    requires index.Some? ==> TreeShaped(index.value)
    requires TicksRemain(index, p, rate, HoldersOf(s, id), start) && AllLetGo(index, p, HoldersOf(s, id))
    ensures !Wait(ix, index, s, id, p, rate, start).RunsOutOfTicks?
    decreases U64_MAX - start
  {
    TicksStillRemain(ix, index, s, id, p, rate, start);
    match AttemptAt(ix, index, s, id, p, rate, start) {
      case Settled(_) =>
      case TriesAgain(next) => LettingGoEndsTheWait(ix, index, s, id, p, rate, next);
    }
  }

  /** From any start at which the holders on the route have begun, and while
      there are ticks left to fit the route in after them: unless the route has
      to be planned again, waiting ends with the route on its way exactly when
      every holder on it lets go. */
  lemma WaitingEndsExactly(ix: Index, index: Option<Index>, s: Ledger, id: u64, p: RoutePlan, rate: real, start: u64)
    requires index.Some? ==> TreeShaped(index.value)
    requires WellShaped(p)
    requires AllBegun(index, p, HoldersOf(s, id), start) && TicksRemain(index, p, rate, HoldersOf(s, id), start)
    ensures
      var outcome := Wait(ix, index, s, id, p, rate, start);
      && (!outcome.Replans? ==> (outcome.Goes? <==> AllLetGo(index, p, HoldersOf(s, id))))
      && (outcome.RunsOutOfTicks? ==> !AllLetGo(index, p, HoldersOf(s, id)))
  {
    if Wait(ix, index, s, id, p, rate, start).Goes? {
      GoingMeansAllLetGo(ix, index, s, id, p, rate, start);
    }
    if AllLetGo(index, p, HoldersOf(s, id)) {
      LettingGoEndsTheWait(ix, index, s, id, p, rate, start);
    }
  }

  /** The robot may wait and stop at every resource on the route. */
  ghost predicate QueueableRoute(ix: Index, p: RoutePlan) {
    forall t | RouteTarget(p, t) :: Queueable(SemanticsOf(ix, t))
  }

  lemma QueueableConflict(ix: Index, index: Option<Index>, s: Ledger, id: u64, p: RoutePlan, rate: real, start: u64, c: Conflict)
    requires index.Some? ==> TreeShaped(index.value)
    requires QueueableRoute(ix, p)
    requires c in AllConflicts(index, WindowsOf(ix, p, start, rate), HoldersOf(s, id))
    ensures Queueable(SemanticsOf(ix, c.target))
  {
    var h := ConflictHasABlocker(ix, index, s, id, p, start, rate, c);
  }

  lemma QueueableConflicts(ix: Index, index: Option<Index>, s: Ledger, id: u64, p: RoutePlan, rate: real, start: u64)
    requires index.Some? ==> TreeShaped(index.value)
    requires QueueableRoute(ix, p)
    ensures !MustReplan(ix, AllConflicts(index, WindowsOf(ix, p, start, rate), HoldersOf(s, id)))
  {
    var cs := AllConflicts(index, WindowsOf(ix, p, start, rate), HoldersOf(s, id));
    forall c | c in cs ensures Queueable(SemanticsOf(ix, c.target)) {
      QueueableConflict(ix, index, s, id, p, rate, start, c);
    }
  }

  lemma QueueableAttempt(ix: Index, index: Option<Index>, s: Ledger, id: u64, p: RoutePlan, rate: real, start: u64)
    requires index.Some? ==> TreeShaped(index.value)
    requires QueueableRoute(ix, p)
    ensures
      match AttemptAt(ix, index, s, id, p, rate, start)
      case Settled(outcome) => !outcome.Replans?
      case TriesAgain(_) => true
  {
    QueueableConflicts(ix, index, s, id, p, rate, start);
  }

  /** A route that may be waited for at every resource on it is never planned
      again. */
  lemma {:induction false} QueueableRoutesNeverReplan(ix: Index, index: Option<Index>, s: Ledger, id: u64, p: RoutePlan, rate: real, start: u64)
    requires index.Some? ==> TreeShaped(index.value)
    requires QueueableRoute(ix, p)
    ensures !Wait(ix, index, s, id, p, rate, start).Replans?
    decreases U64_MAX - start
  {
    QueueableAttempt(ix, index, s, id, p, rate, start);
    match AttemptAt(ix, index, s, id, p, rate, start) {
      case Settled(_) =>
      case TriesAgain(next) => QueueableRoutesNeverReplan(ix, index, s, id, p, rate, next);
    }
  }
}
