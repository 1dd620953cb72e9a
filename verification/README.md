# syncbot: claims, routes and reservations

syncbot lets several robots share one map. A robot asks for zones, nodes and
edges before it uses them; the coordinator grants or denies each request,
plans routes through the map, reserves what a route needs in time, and accepts
new maps pushed in chunks. This project models those parts and proves what
they promise.

## What is modelled

| file | models |
|---|---|
| `Basics.dfy` | options, 64-bit numbers, sequence operations |
| `Workspace.dfy` | zone policies, the index record, containment, the walk up the zone tree |
| `ZoneTree.dfy`, `IndexBuild.dfy` | building the index from a zone tree with worklists; descendants and depth |
| `Claims.dfy`, `Compatibility.dfy` | requests, leases and windows; when two claims may coexist |
| `Ledgers.dfy` | the ledger as a value: when a request is granted, what each operation does |
| `LedgerSafety.dfy`, `GrantSafety.dfy` | what a safe fleet is, and why a granted request keeps it safe |
| `LedgerRuns.dfy`, `Rebinding.dfy`, `RunSafety.dfy` | runs of ledger operations; which indexes may follow one another; what holds over every run |
| `LedgerLaws.dfy`, `LostProperties.dfy` | laws of the decision; runs that lose a property once a condition is dropped |
| `ClaimManager.dfy` | the claim manager object, updated in place, and the evaluation of a request |
| `Coordinator.dfy` | liveness, expiry, the sweep of silent robots, the claim and release calls |
| `EdgePolicy.dfy` | effective edge semantics, walls, penalties |
| `RouteSearch.dfy`, `RouteLaws.dfy` | Dijkstra's search with lazy deletion under three sets of rules; laws of distances |
| `RoutePlans.dfy`, `RouteDiagnosis.dfy`, `RoutePlanner.dfy` | reconstruction, plan assembly, shape check; failure diagnosis; planning |
| `Scheduling.dfy`, `Reservations.dfy` | the windows a route needs; conflicts and the proceed, queue or replan decision |
| `WorkspacePush.dfy` | splitting a document into chunks and reassembling it |

Code that changes things step by step is a class or a method with loops, tied
to a specification function; what is proved of that function holds of the
object. All ledger calls run under one write lock (`src/wire/mod.rs:644-649`),
so a concurrent history is a sequence of steps, and runs are sequences.

## Results worth reading first

* `RunSafety.ExclusionOverEveryRun`, `FleetSafeOverEveryRun`,
  `EveryRunFromEmptyIsSafe`, `ExclusiveZoneShutsOthersOut`: local checks keep
  global, per-tick safety over every run, also over runs that refresh leases and
  bind other indexes.
* `RunSafety.RefreshKeepsExclusionExactly`, `RefreshKeepsFleetSafeExactly`,
  `ClaimKeepsExclusionExactly`, `Rebinding.SafetySurvivesExactly`: exactly which
  refreshes, claims and rebinds keep what was safe safe.
* `Compatibility.ZonesTogether`, `ZoneAndWhatIsInside`, `ResourcesTogether`,
  `TargetByTarget`: the verdict on every pair of claims, read off the index.
* `LedgerLaws.ReclaimIsDecidedByTheCounts`, `NoRunRefusesHeldGround`,
  `ZoneTestMattersExactly`, `OnlyOthersDecide`: exact conditions on the decision.
* `RouteSearch.Dijkstra`: the goal is found exactly when it can be reached,
  whatever the weights, and at the least cost when costs are non-negative.
* `RoutePlanner.PlanRoute`, `RouteDiagnosis.DiagnoseRouteFailure`: a plan
  exists exactly when open roads lead to the goal, each driven a way it may be; a
  failure lists edges that cut every way to the goal.
* `Reservations.ConflictsInTheLedger`, `DecisionsExactly`, `WaitingEndsExactly`,
  `QueueingEnds`, `ProceedingKeepsOutOfHeldZones`.
* `WorkspacePush.NothingButTheDocument`, `EveryChunkIsAnsweredExactly`.
* `IndexBuild.Rebuild`, `DescendantZones`, `DepthIsTreeHeight`.

## Properties that are false of the code

Where the code falls short of a property one might expect, there is a lemma
with the run or the input that shows it, beside the exact condition under which
the property holds.

* A live request at the top of the 64-bit range makes the next mint repeat its
  id, and exclusion is lost (`SaturatedIdsLoseExclusion`). A mint is unused by
  requests exactly when no live request is up there
  (`MintIsUnusedByRequestsExactly`); a claim keeps exclusion exactly when the
  requests it takes for itself do not collide with it
  (`ClaimKeepsExclusionExactly`).
* A refresh that extends a lease is not evaluated again and can run into a
  later claim (`UnsafeRefreshLosesExclusion`). It keeps exclusion exactly when
  the lease, over its new window, collides with nobody
  (`RefreshKeepsExclusionExactly`), and keeps the whole fleet safe exactly when
  the extended holding fits in (`RefreshKeepsFleetSafeExactly`).
* A robot can be refused ground it holds when somebody shares a zone further up
  (`HeldGroundCanBeRefused`; exact conditions in `ReclaimIsGrantedExactly` and,
  for bounded windows, `ReclaimIsDecidedByTheCounts`).
* The zone test between two nodes or two edges changes the decision when a lease
  begins only after the request has ended (`ZoneTestMattersForLeases`), and in
  no other case (`ZoneTestMattersExactly`).
* Binding another index keeps exclusion per resource only
  (`RebindingLosesCrossLevelSafety`, a run). Compatible fleets stay compatible
  exactly when no two targets lose leeway (`CompatibilitySurvivesExactly`), and
  every safe fleet stays safe exactly when, besides, robots standing still stay
  within the limits (`SafetySurvivesExactly`).
* With parallel edges a plan can name and charge an edge the search refused, and
  with equal weights it can still name it (`ParallelEdgesMislead`; exact
  conditions in `CostsAgreeExactly` and `NamesAgreeExactly`).
* A holder on the route that never lets go keeps it waiting forever
  (`UnboundedHolderBlocksForever`); waiting ends exactly when every holder on
  the route lets go (`WaitingEndsExactly`).
* A repeated chunk is counted again and can fail a document that fits under the
  ceiling (`RepeatsCanFailADelivery`); a chunk is refused exactly when all that was sent, repeats included,
  is over it (`EveryChunkIsAnsweredExactly`).

`descendant_zones` is documented as breadth-first (`src/index.rs:310`), but its
worklist pops the last entry; the model follows the code, and its order is not
part of the statement.

## Model

| member | source | states |
|---|---|---|
| Workspace.ContainsIsTransitive | src/index.rs:421-427 | zone containment through the cached ancestor sets is transitive |
| Workspace.ContainsIsAntisymmetric | src/index.rs:421-427 | two zones that contain each other are the same zone |
| Workspace.ChainListsAncestors | src/index.rs:298-308 | the chain of parents lists exactly the other zones that contain this one |
| Workspace.AncestorZones | src/index.rs:298-308 | the loop up the parent links ends and returns exactly the zones strictly above, nearest first |
| Workspace.ParseZonePolicy | src/policy.rs:356-487 | in every field the last entry that sets it decides: the capacity is the last of at least 1, and 1 without one; a blocked zone is restricted and blocks entry and traversal, else a replan trigger, else a stop rule, else the last entry that sets a kind decides the kind |
| Workspace.LimitFromProperties | src/policy.rs:356-487 | a parsed zone admits one robot if it stays exclusive, else its last capacity of at least 1, else any number; it is exclusive exactly when the last entry to set a kind says so and no blocking, replan or stop rule overrides it |
| ZoneTree.IndexZoneTree | src/index.rs:907-937 | on any tree the recorded ids are the tree's and the duplicates are exactly the ids that occur twice; with distinct ids parent and child maps are exactly the tree's links |
| ZoneTree.AncestorsOf | src/index.rs:885-893 | on any parent map, also a circular one, the walk ends with exactly the ids repeated parent steps reach |
| ZoneTree.StrictExtends | src/index.rs:885-893 | in a tree with distinct ids, an ancestor of a zone's parent is an ancestor of the zone |
| ZoneTree.ParentIsUnique | src/index.rs:926-930 | with distinct ids no zone has two parents |
| IndexBuild.AboveIsStrict | src/index.rs:885-893 | repeated parent steps reach exactly the zone's ancestors in the tree |
| IndexBuild.BuildAdjacency | src/index.rs:834-868 | the steps at a node are what the edges offer, edge by edge and each as often: forward at its source, backward at its target, a self-loop once |
| IndexBuild.BuildAncestors | src/index.rs:885-893 | the ancestor cache of every zone is the set of ids above it |
| IndexBuild.IndexItems | src/index.rs:792-832 | nodes and edges are recorded under exactly the ids that occur, each with the first item of its id, the nil id with the last |
| IndexBuild.BuildPolicies | src/index.rs:870-883 | every zone gets a policy that says field by field what its own properties say |
| IndexBuild.RecordedExactly | src/index.rs:792-832 | something is recorded exactly under the ids that occur; under an id other than nil it is the first item that has it, under nil the last |
| IndexBuild.DrawnEdgesExactly | src/index.rs:818-846 | the graph keeps exactly the drawn edges whose two ends are recorded, and every drawn edge is recorded under its id |
| IndexBuild.Rebuild | src/index.rs:764-905 | from a zone tree, vertices and drawn edges: every policy says what the zone's properties say, every edge of the graph and both its ends are indexed, and the adjacency is the graph read from both ends; a tree with distinct ids yields an index whose containment is exactly reflexive ancestry in the tree and whose child lists are the parent links read backwards, each child once |
| IndexBuild.BuiltIndexIsTreeShaped | src/index.rs:764-905 | what the build records makes the zone links a forest that the ancestor sets agree with |
| IndexBuild.DescendantZones | src/index.rs:316-326 | the worklist lists every zone below the given one exactly once, and nothing else |
| IndexBuild.MaxZoneDepth | src/index.rs:332-351 | the walk ends on any child lists; on a well-formed index it returns the level of the deepest zone |
| IndexBuild.DepthIsTreeHeight | src/index.rs:332-351 | on a built index that number is the recursive height of the zone tree |
| Claims.WindowsOverlapExactly | src/claim/manager.rs:1112-1118 | forward windows overlap exactly when some tick lies in both, an open end reaching as far as ticks go |
| Compatibility.ZonesTogether | src/claim/manager.rs:1120-1147 | a zone, or a zone and its child, may be shared exactly when the zone, or the child, has room for two; zones further apart in one line never meet; zones side by side always may |
| Compatibility.ZoneAndWhatIsInside | src/claim/manager.rs:812-865 | a zone and something drawn in it or in a zone below it may be shared exactly when the claimed zone has room for two; anything drawn elsewhere does not meet it |
| Compatibility.ResourcesTogether | src/claim/manager.rs:1149-1189 | one node or edge must be shared by both; two of a kind must not be drawn in a common zone that admits one robot; a node and an edge never meet |
| Compatibility.TargetByTarget | src/claim/manager.rs:773-942 | claims apart in time are compatible, and claims on several targets are compatible exactly when each target is with each |
| Compatibility.WithoutAnIndex | src/claim/manager.rs:1006-1023 | without an index two claims are compatible exactly when they name no common target or both share, at any time |
| Compatibility.OccupancyExactly | src/claim/manager.rs:992-1004 | a target puts a robot in a zone when it is that zone, one below, or drawn in one of those; the counter also charges claims on zones above |
| Compatibility.CompatibilityIsSymmetric | src/claim/manager.rs:759-942 | on any acyclic zone tree, whether two claims may coexist does not depend on which is asked about |
| Compatibility.NarrowingKeepsCompatibility | src/claim/manager.rs:1025-1034 | a claim compatible with a wider window is compatible with a narrower one, so checking a lease from tick 0 is safe |
| Compatibility.CompatibleSharesNothingExclusively | src/claim/manager.rs:759-771 | with any index or none, compatible claims share a resource at a tick only if both are shared |
| Compatibility.CompatibleSharesNoGround | src/claim/manager.rs:812-865 | compatible claims overlapping in time share a zone, a zone above or below it, or something inside it only if both are shared |
| Ledgers.LiveIdsExactly | src/claim/manager.rs:183-190 | the ids a mint stays clear of are exactly those of live requests and of the claims behind leases |
| Ledgers.StayingMembers | src/claim/manager.rs:244-264 | a bulk archive leaves exactly the leases it does not select |
| GrantSafety.GrantFitsEveryHolding | src/claim/manager.rs:417-446 | a granted request is compatible with every other robot's holding over its true window, though leases are checked over a wider one |
| GrantSafety.GrantKeepsExclusion | src/claim/manager.rs:394-472 | recording a granted request keeps per-tick exclusion, whatever index is bound |
| GrantSafety.GrantKeepsZoneLimit | src/claim/manager.rs:592-663 | recording a granted request keeps every zone within its limit at every tick, although the counter looks at windows that overlap anywhere |
| GrantSafety.GrantKeepsEdgeCapacity | src/claim/manager.rs:476-547 | likewise for edges of explicit capacity above one, also for exclusive requests, which are not counted |
| LedgerSafety.LimitsInTheIndexesTerms | src/claim/manager.rs:476-663 | the counts of a safe fleet in plain terms: one robot in an exclusive zone, an explicit capacity in any other, an explicit capacity above one on an edge |
| LedgerRuns.MintIsUnusedExactlyBelowTheTop | src/claim/manager.rs:182-203 | a minted id is unused exactly when no live id is at the top of the range, and then exceeds every live id |
| LedgerRuns.MintIsUnusedByRequestsExactly | src/claim/manager.rs:422 | a minted id is one no live request has exactly when no live request is at the top of the range |
| LedgerRuns.StepShrinksOrAdds | src/claim/manager.rs:128-340 | every allowed step, and every refresh that asks first, either takes holdings away or shortens them, or adds one that the evaluation grants |
| Rebinding.CompatibleByPairs | src/claim/manager.rs:812-942 | two claims are compatible exactly when they do not overlap in time or every pair of their targets has the leeway their modes need |
| Rebinding.CompatibilitySurvivesExactly | src/claim/manager.rs:85-87 | binding another index keeps every compatible fleet compatible exactly when no two targets of either index lose leeway |
| Rebinding.SafetySurvivesExactly | src/claim/manager.rs:85-87 | every safe fleet stays safe exactly when no two targets lose leeway and every safe way for sharing robots to stand still, one target each, is within the new limits and capacities |
| Rebinding.CoveredGroundKeepsCounting | src/claim/manager.rs:592-663 | it is enough for the limits that each limited zone lay in a zone of no larger limit and no edge gains or lowers a capacity |
| RunSafety.ClaimKeepsExclusionExactly | src/claim/manager.rs:417-424 | a claim keeps exclusion exactly when it is refused or collides with no live request that already carries its id; there is none while no request is at the top |
| RunSafety.RefreshKeepsExclusionExactly | src/claim/manager.rs:310-324 | a refresh keeps exclusion exactly when the lease, over its new window, shares no resource and tick with another robot unless both share |
| RunSafety.RefreshKeepsFleetSafeExactly | src/claim/manager.rs:310-324 | a refresh keeps the fleet safe exactly when it extends nothing or the extended holding fits: compatible with all others, and no zone or edge full without it at any tick |
| RunSafety.GrantedRefreshFitsFleet | src/claim/manager.rs:310-324 | asking the evaluation for the longer window first is enough |
| RunSafety.ExclusionOverEveryRun | src/claim/manager.rs:394-472 | over every run of claims, releases, expiries, promotions, refreshes that collide with nobody, restarts and rebinds, no two robots hold one resource at one tick when either holds it exclusively |
| RunSafety.FleetSafeOverEveryRun | src/claim/manager.rs:394-663 | over every run whose refreshes fit in and whose rebinds are safe, holdings of different robots stay compatible, no zone exceeds its limit and no edge of capacity above one exceeds it, at any tick |
| RunSafety.EveryRunFromEmptyIsSafe | src/claim/manager.rs:30-52 | every ledger reached from an empty one is safe in both senses |
| RunSafety.ExclusiveZoneShutsOthersOut | src/claim/manager.rs:812-942 | while a zone is held exclusively, no other robot holds it, a zone above or below it, or anything inside it at any depth |
| LedgerLaws.MintsIncrease | src/claim/manager.rs:182-203 | minted ids strictly increase across refusals, restarts, clears and rebinds until one reaches the top of the range |
| LedgerLaws.TidyOverEveryRun | src/claim/manager.rs:147-157 | over every run live request ids stay distinct and behind the counter, and no robot has two entries over one target set |
| LedgerLaws.ReclaimingNeverGrows | src/claim/manager.rs:147-157 | claiming again what one holds never adds an entry |
| LedgerLaws.GrantedClaimsReplaceExactly | src/claim/manager.rs:147-157 | a granted claim replaces the robot's entry over the same set of resources, in whatever order, and is added exactly when there is none |
| LedgerLaws.LeasesReplaceExactly | src/claim/manager.rs:228-235 | a promoted lease takes the place of the first one with its id and is appended exactly when there is none |
| LedgerLaws.OneLeaseIsTouched | src/claim/manager.rs:236-348 | releasing, revoking, refreshing or dropping a lease changes the first lease with the id, field by field, and leaves every other entry in its place |
| LedgerLaws.OneRequestIsDropped | src/claim/manager.rs:158-223 | removing a request by id, or by robot and resource, drops the first one it fits and leaves the rest in order |
| LedgerLaws.OnlyOthersDecide | src/claim/manager.rs:417-446 | a robot's own requests and leases, entries under the same id and inactive leases have no say in a decision |
| LedgerLaws.OnlyMeetingEntriesDecide | src/claim/manager.rs:1025-1034 | with an index, neither have entries whose window does not meet the claim's, a lease counted from tick 0 |
| LedgerLaws.ReleasingNeverRefuses | src/claim/manager.rs:394-663 | taking any entries out of the ledger never turns a grant into a refusal |
| LedgerLaws.EmptyLedgerGrantsEveryRealRequest | src/claim/manager.rs:394-663 | with nobody holding anything a request is granted exactly when it names something and all of it exists |
| LedgerLaws.LimitOnABuiltIndex | src/policy.rs:356-487 | on a built index a zone's limit is one, its last capacity or none, by the properties of its zone in the tree |
| LedgerLaws.ZoneTestMattersExactly | src/claim/manager.rs:1149-1189 | dropping the single-occupant-zone test between nodes or edges changes a decision exactly when another robot's lease, which begins after the request ends, clashes with it in such a zone |
| LedgerLaws.ZoneTestIsRedundantForRequests | src/claim/manager.rs:1149-1189 | among requests only, dropping the single-occupant-zone test between nodes or edges never changes a decision |
| LedgerLaws.EntriesExistOverEveryRun | src/claim/manager.rs:665-678 | under one index every live request keeps naming existing resources |
| LedgerLaws.ReclaimIsDecidedByTheCounts | src/claim/manager.rs:417-424 | with any windows, asking again for held ground is granted exactly when no shared edge it names and no zone it occupies is overfull by the wide count |
| LedgerLaws.ReclaimIsGrantedExactly | src/claim/manager.rs:417-424 | asking again for held, open-ended ground is granted exactly when no limited zone it occupies is overfull by the wide count |
| LedgerLaws.HeldGroundIsNeverRefused | src/claim/manager.rs:417-424 | with zones claimed on leaves only, a robot is never refused ground it holds |
| LedgerLaws.NoRunRefusesHeldGround | src/claim/manager.rs:394-472 | the same for every ledger a run reaches from an empty one |
| LostProperties.SaturatedIdsLoseExclusion | src/claim/manager.rs:422 | with an id at the top of the range, two robots end up holding one node exclusively |
| LostProperties.UnsafeRefreshLosesExclusion | src/claim/manager.rs:310-324 | an extending refresh can break exclusion |
| LostProperties.HeldGroundCanBeRefused | src/claim/manager.rs:992-1004 | with a shared claim on a zone further up, a robot is refused its own ground |
| LostProperties.ZoneTestMattersForLeases | src/claim/manager.rs:1025-1034 | with a lease that starts later, the zone test refuses what the count admits |
| LostProperties.RebindingLosesCrossLevelSafety | src/claim/manager.rs:85-87 | two claims granted one after the other, then a rebind that nests them: exclusion per resource is kept, the fleet is no longer safe |
| ClaimManager.ConflictsIncludingCrossLevel | src/claim/manager.rs:773-810 | the reported targets are exactly the requested ones that clash on their own level or across levels |
| ClaimManager.ClashesExactly | src/claim/manager.rs:773-810 | a target is reported when the other side names it, or one is a zone and the other is drawn inside it; never for two different zones |
| ClaimManager.Manager.UpsertRequestForRobot | src/claim/manager.rs:147-157 | replaces the robot's entry over the same target set or appends; grows the ledger only when it does not replace |
| ClaimManager.Manager.NextRequestId | src/claim/manager.rs:182-203 | mints at or above the counter and past every live id, and moves the counter beyond it |
| ClaimManager.Manager.RemoveRequestsForRobot | src/claim/manager.rs:167-173 | drops exactly the robot's requests, in order, and says how many |
| ClaimManager.Manager.ReleaseRequestForRobotTarget | src/claim/manager.rs:208-222 | drops the first request of the robot that names the resource, and says whether there was one |
| ClaimManager.Manager.ReleaseLeasesForRobot | src/claim/manager.rs:244-264 | the in-place loop archives the robot's leases in order and leaves all others in place |
| ClaimManager.Manager.ExpireRequests | src/claim/manager.rs:284-289 | drops exactly the requests whose window has closed |
| ClaimManager.Manager.ExpireLeases | src/claim/manager.rs:291-308 | the in-place loop archives the ended leases in order and leaves all others in place |
| ClaimManager.Manager.RefreshLease | src/claim/manager.rs:310-324 | touches one lease; keeps its expiry unless a new one is given |
| ClaimManager.Manager.RevokeLease | src/claim/manager.rs:326-340 | moves one lease to the released ledger, marked revoked with the reason and the tick |
| ClaimManager.Manager.Restore | src/claim/manager.rs:113-126 | brings back every entry and a counter of at least one |
| ClaimManager.Manager.OccupiedZones | src/claim/manager.rs:551-583 | lists each zone the targets put a robot in exactly once |
| ClaimManager.Manager.FirstEdgeCapacityViolation | src/claim/manager.rs:476-547 | reports an edge exactly when some shared edge claim would exceed its explicit capacity |
| ClaimManager.Manager.FirstOccupancyViolation | src/claim/manager.rs:592-663 | reports a zone exactly when some occupied zone would exceed its limit |
| ClaimManager.Manager.EvaluateRequest | src/claim/manager.rs:394-472 | grants exactly the requests the declarative rule grants; a refusal names the first rival request, else the first rival lease, else an overfull edge, else an overfull zone, with exactly the targets it clashes on; a full edge or zone comes with the first request counted there and the first lease of a robot not counted before |
| Coordination.ExpireThenSweepLeavesExactly | src/wire/mod.rs:580-596 | after expiry and sweep at one time exactly the entries are left that end later, or never, and whose robot is not swept |
| Coordination.ExpireThenSweepIsIdempotent | src/wire/mod.rs:580-596 | repeating both at the same time changes nothing and finds nobody to free |
| Coordination.ExpireThenSweepConservesLeases | src/claim/manager.rs:244-308 | no lease is lost or duplicated; the released ledger only grows at its end |
| Coordination.TheArchiveSaysWhy | src/claim/manager.rs:244-308 | every lease a sweep archives is inactive and stamped with the time, marked expired if it had ended and released if its robot was swept |
| Coordination.WireRequestDecides | src/wire/mod.rs:1074-1090 | the request a flat claim builds is for its robot and targets, shared exactly for access mode 2, without a window unless a lease time above 0 is given, else from now for so many seconds; it alone decides the claim |
| Coordination.Coordinator.ClaimTargets | src/wire/mod.rs:1098-1182 | each reply exactly when it applies; a capacity refusal only when nobody conflicts, a conflict only when somebody does or a single-seat zone is taken |
| Coordination.Coordinator.SetAlive | src/coordinator.rs:1059-1073 | a robot that has just announced itself is active |
| Coordination.Coordinator.InactiveRobotsAt | src/coordinator.rs:1094-1110 | lists exactly the robots last seen more than 2000 milliseconds per promised second ago, ascending |
| Coordination.Coordinator.SweepInactive | src/coordinator.rs:1116-1128 | frees every silent robot and reports exactly those that held something |
| Coordination.Coordinator.SweepNow | src/wire/mod.rs:580-596 | afterwards no live entry has ended or belongs to a silent robot, and no lease is lost |
| Coordination.Coordinator.FlatClaim | src/wire/mod.rs:1064-1182 | the call is a run of ledger steps, allowed unless a live request id is at the top of the range; it replies OK exactly when the call is well formed and a request standing for it would be granted, and then the claim is recorded with its robot, targets, mode and window; wrong key and unknown resource are replied exactly when they apply |
| Coordination.Coordinator.FlatRelease | src/wire/mod.rs:1186-1234 | the call is an allowed run; it replies OK exactly when the caller is authorized, the target exists and a live request of the robot names it, and then removes the first such request; anything else changes nothing |
| EdgePolicy.DeriveEffectiveEdgeSemantics | src/policy.rs:959-1024 | the loop over the zones applies each overlay once, in order |
| EdgePolicy.EffectiveSpeedIsTightest | src/policy.rs:968-973 | the effective speed limit is one somebody set and no more than any |
| EdgePolicy.EffectivelyBlocked | src/policy.rs:1006-1016 | an edge is effectively blocked exactly when it says so or a zone around it is blocked or restricted |
| EdgePolicy.StoppingIsRuledOutByAnyZone | src/policy.rs:995-1012 | one zone that is closed or forbids stopping rules stopping out; else the first word on it counts, the edge's own before its zones' |
| EdgePolicy.FirstWordOnWaiting | src/policy.rs:992-994 | the first word on waiting counts, the edge's own before its zones' |
| EdgePolicy.FirstWordOnPriority | src/policy.rs:998-1004 | likewise on priority; claims are demanded by the edge, else by its first zone |
| EdgePolicy.EffectiveCapacityIsLeast | src/policy.rs:975-981 | the effective capacity is the least among the edge's own and those of the zones that bound it, explicit when any is |
| EdgePolicy.SlowZonesAddUp | src/policy.rs:1018-1020 | each slowdown zone adds one to the bias; no zone touches lane, direction, passing or clearance |
| EdgePolicy.HardBlockedMeansWalled | src/route.rs:134-170 | the planner's wall is effective blocking or a zone that blocks traversal, and nothing else |
| EdgePolicy.EdgeTraversalPenalty | src/route.rs:172-243 | the penalty loop computes the price the search pays, which is never negative, and infinite exactly for an unknown edge |
| EdgePolicy.GrantsArePriced | src/route.rs:224-228 | each zone that needs a grant adds at least 100: it is dear, not a wall |
| EdgePolicy.MoreZonesNeverCheapen | src/route.rs:172-243 | with positive limits, one more zone around an edge never makes it cheaper |
| EdgePolicy.BetterEdgesCostNoMore | src/route.rs:184-222 | a faster, wider, roomier or more urgent edge is never dearer |
| EdgePolicy.HigherPriorityCostsNoMore | src/route.rs:193-195 | a higher priority never raises the price; each point below ten costs a tenth on an edge and a twentieth in a zone |
| EdgePolicy.EachTraitHasItsPrice | src/route.rs:201-241 | what each trait of an edge or a zone adds, all else equal |
| EdgePolicy.EachLimitHasItsPrice | src/route.rs:185-222 | what a speed limit, a capacity, a clearance or a bias adds, all else equal |
| EdgePolicy.ClaimedZonesAreDear | src/route.rs:224-228 | an edge drawn in a zone to be claimed first costs at least 100; outside every zone it costs what its own semantics say |
| RouteSearch.WalksAreBounded | src/route.rs:316-352 | once settled nodes are relaxed, no walk beats the label of a settled end or the least open label outside |
| RouteSearch.WalksStayLabelled | src/route.rs:316-352 | when every label is settled, walks never leave the labels |
| RouteSearch.RelaxAllGrows | src/route.rs:327-350 | relaxing a node's steps keeps the search a tree of usable steps rooted at the start and labels all they lead to |
| RouteSearch.RelaxAllPrices | src/route.rs:327-350 | with non-negative costs it leaves no tried step that could improve a label |
| RouteSearch.SettledLabelsAreShortest | src/route.rs:316-326 | with non-negative costs every settled label is the least cost of any walk |
| RouteSearch.Search | src/route.rs:316-354 | despite stale heap entries the loop ends, with the goal exactly when a usable walk leads there |
| RouteSearch.Dijkstra | src/route.rs:296-354 | found exactly when both nodes exist and a usable walk joins them, whatever the weights; with non-negative costs the distance is the least over all walks; a failed search labels exactly the reachable nodes |
| RouteLaws.PenaltiesKeepReachability | src/route.rs:360-385 | planning with and without penalties reaches the same nodes, and penalised distances are never smaller |
| RouteLaws.BlockingOnlyRemoves | src/route.rs:356-372 | blocking never opens a way and never shortens one |
| RouteLaws.WeightsDecide | src/route.rs:172-243 | non-negative weights are all the search needs under any of its rules |
| RouteLaws.HeavierEdgesNeverCheapen | tests/claim_properties.rs:731-753 | raising edge weights changes nothing about what can be reached and never makes a route cheaper, with penalties or without |
| RouteLaws.TriangleInequality | src/route.rs:296-354 | shortest distances obey the triangle inequality |
| RouteLaws.DistancesAreSymmetric | src/route.rs:251-266 | where every step can be taken back, distances are the same both ways |
| RouteLaws.BuiltAdjacencyIsTwoWay | src/index.rs:834-868 | a built index whose edges lock no direction is such a graph |
| RouteLaws.StepsDriveRoads | src/route.rs:112-124 | a usable step drives an edge of the graph with its drawing, unless it runs the other way only, or against it, unless it runs forward only; reversible edges both ways; never a closed one where walls count |
| RouteLaws.RoadsOfferSteps | src/route.rs:112-170 | every open edge offers a usable step each way it may be driven |
| RouteLaws.OneWayEdgesAreDrivenOneWay | src/route.rs:119-120 | an irreversible one-way edge is only driven its way |
| RouteLaws.ReachableByRoad | src/route.rs:296-354 | a goal can be reached exactly when a route over the graph's edges leads there, each driven a way it may be |
| RoutePlans.ReconstructRouteNodes | src/route.rs:392-409 | following predecessors ends by settle order, also over free edges, with a chain from start to goal |
| RoutePlans.ChainIsSimplePath | src/route.rs:392-409 | the chain visits no node twice, and its usable steps cost exactly the distance |
| RoutePlans.EdgeBetweenFinds | src/index.rs:429-440 | the lookup by endpoints finds an edge of the graph exactly when one joins the two nodes either way |
| RoutePlans.AccumulateRouteCost | src/route.rs:495-529 | the loop adds up the price of each looked-up edge, or reports the first step that fails |
| RoutePlans.ExtractTraversedEdgeIds | src/route.rs:428-445 | succeeds exactly when every two neighbours are joined, with one edge per pair |
| RoutePlans.ExtractTraversedZoneIds | src/route.rs:457-479 | lists every zone around a node or an edge of the route exactly once |
| RoutePlans.ValidateRoutePlanShape | src/route.rs:575-645 | accepts exactly the plans whose nodes, edges, steps and zone lists line up, and counts their edges |
| RoutePlans.BuildRoutePlan | src/route.rs:647-714 | succeeds exactly when the ends match and neighbours are joined; the plan passes the shape check and every step carries the cost of getting there |
| RouteDiagnosis.CollectBlocked | src/route.rs:756-797 | lists exactly the hard-blocked edges on legal steps out of the given nodes, with exactly the zones that wall them off |
| RouteDiagnosis.BlockedEdgesCut | src/route.rs:742-797 | when the goal is behind walls, every legal walk uses a listed edge, and one is listed if a legal walk exists |
| RouteDiagnosis.LockedEdgesCut | src/route.rs:859-881 | when no legal walk exists, every walk that ignores directions breaks the lock of a listed edge |
| RouteDiagnosis.DiagnoseRouteFailure | src/route.rs:731-912 | names a missing node, blocking or disconnection exactly as it applies, with the lists that explain it: exactly the locked edges at the reached nodes, or the blocked ones when they cut the goal off |
| RoutePlanner.LockedEdgesLeadIn | src/route.rs:859-881 | the edges locked at some nodes are exactly those of the graph that run one way only, into one of them |
| RoutePlanner.PlanChargesTheWalk | src/route.rs:495-529 | if each lookup charges what the search paid, so does the whole plan |
| RoutePlanner.CostsAgreeExactly | src/route.rs:514-521 | plan cost and walk cost agree on every walk exactly when the lookup charges every usable step rightly |
| RoutePlanner.NamesAgreeExactly | src/route.rs:428-445 | the edges looked up along a route are the edges walked, on every walk, exactly when the lookup names every usable step rightly |
| RoutePlanner.SingleEdgesAreLookedUpRightly | src/index.rs:429-440 | on a built index with at most one edge per node pair every step is charged and named rightly |
| RoutePlanner.ParallelEdgesMislead | src/index.rs:429-440 | with a blocked edge beside an open one the plan lists the blocked edge at its own price, whatever that is; with equal prices every step is paid rightly and it is still listed |
| RoutePlanner.BuildRoutePlanFromSearch | src/route.rs:716-724 | on a built index a found route always becomes a plan that follows the search |
| RoutePlanner.PlanRoute | src/route.rs:918-956 | exactly one of plan and failure; on a built index there is a plan exactly when open roads lead to the goal, and the failure tells a missing node, walls and disconnection apart by the graph; the plan is a simple path over open roads, each driven a way it may be, whose last cumulative cost is its total; where the lookup charges every step rightly the total is the search distance, and where it names every step rightly the listed edges are those walked; a failed search comes with its cut |
| Scheduling.ClaimTargetSemantics | src/coordinator.rs:80-157 | a node demands what the most demanding zone around it does; edges and zones follow their policies |
| Scheduling.LetsWaitExactly | src/coordinator.rs:80-157 | a robot may wait at a zone that is open, no corridor and rules out neither waiting nor stopping, at a node all of whose zones are such, and on an edge that is neither closed nor a corridor lane and rules out neither |
| Scheduling.ClaimsAndSlowdowns | src/coordinator.rs:80-157 | a zone demands a claim or slows when its policy does, a node when one of its zones does |
| Scheduling.EachRefusalAtANode | src/coordinator.rs:80-157 | at a node entry, corridor, waiting and stopping are each refused exactly when some zone around it refuses that one thing; a blocked zone silent on stopping does not rule it out there |
| Scheduling.EachRefusalOfAZone | src/coordinator.rs:80-157 | a zone refuses each of the four by its own entry; blocked and silent on stopping, it rules stopping out |
| Scheduling.EachRefusalOnAnEdge | src/coordinator.rs:80-157 | an edge is closed by its own entry or by a blocked or restricted zone, is a corridor by its own lane only, and takes waiting, stopping and claims from what the zones leave of its own word |
| Scheduling.ScheduledTargetWindowsFromRoute | src/coordinator.rs:159-249 | lists node, node zones, edge and edge zones stop by stop; nothing for a misshapen plan |
| Scheduling.WindowsAreForTheRoute | src/coordinator.rs:159-249 | the windows are for exactly the nodes, edges and listed zones of the route |
| Scheduling.WindowsExactly | src/coordinator.rs:180-247 | the windows are exactly one for each node, edge and listed zone of each stop, from when the stop begins to when the next one does |
| Scheduling.StopsBeginOnTime | src/coordinator.rs:170-178 | a stop begins on the first whole tick its cost is due, counted around the 64-bit clock; a cost beyond the clock counts as its top |
| Scheduling.WindowsLieInTheClaim | src/coordinator.rs:159-249 | every window of a built plan ends no earlier than it starts, starts follow the route, and all lie inside the window claimed for the route |
| Scheduling.NoGapBetweenStops | src/coordinator.rs:185-193 | each stop of a built plan is reserved until the next one begins |
| Reservations.ZonePlacesOverlapAsInTheLedger | src/coordinator.rs:279-297 | the scheduler's walk over parents and the ledger's cached sets agree on when zones overlap |
| Reservations.ScheduleRouteRequest | src/coordinator.rs:300-421 | the nested loops find every conflict of every window with every request and active lease and the latest tick one lasts to |
| Reservations.ConflictsAreTheBlockers | src/coordinator.rs:315-376 | the conflicts are exactly the pairs of a scheduled window and a holder in its way |
| Reservations.ConflictsInTheLedger | src/coordinator.rs:315-376 | the conflicts are exactly those of a window with another request or an active lease over the same resource, or over zones of which one contains the other, at an overlapping time; each lasts to the entry's end, or as long as the window |
| Reservations.DecisionsExactly | src/coordinator.rs:378-420 | no conflict lets the route proceed; one at a resource that does not let a robot wait has it planned again; else it queues behind all of them, to start just past the last to end |
| Reservations.ProceedingHasItsResources | src/coordinator.rs:266-384 | while a route that proceeds stands at a node or drives an edge, no other request and no active lease has it |
| Reservations.OccupiedResourcesDecide | src/coordinator.rs:378-410 | a resource somebody else has while the route needs it keeps it from proceeding, and where a robot may not wait it is planned again |
| Reservations.ProceedsExactlyWhenFree | src/coordinator.rs:378-384 | a route proceeds exactly when no holder is in the way of any of its windows |
| Reservations.ProceedingKeepsOutOfHeldZones | src/coordinator.rs:300-384 | while a route that proceeds stops at a node, nobody else holds a zone the node lies in, at any depth |
| Reservations.QueueMovesPastBlockers | src/coordinator.rs:412-420 | when the holders on the route let go, a queue decision moves the start past the end of everybody now in the way |
| Reservations.QueueingEnds | src/coordinator.rs:300-421 | against a fixed ledger whose holders on the route let go, rescheduling at the returned tick queues at most once per holder |
| Reservations.UnboundedHolderBlocksForever | src/coordinator.rs:335 | a holder of anything that overlaps a node, an edge or a listed zone of the route, begun and never letting go, keeps the route from ever proceeding |
| Reservations.WaitingEndsExactly | src/coordinator.rs:300-421 | from any start at which the holders on the route have begun, and while ticks remain, waiting ends with the route on its way exactly when every holder on it lets go, unless the route has to be planned again |
| Reservations.QueueableRoutesNeverReplan | src/coordinator.rs:386-403 | a route that may be waited for at every resource on it is never planned again |
| WorkspacePush.WorkspaceAssembler.Accept | src/wire/peerbus.rs:323-376 | replies and updates the pending transfers as the arrival rule says |
| WorkspacePush.ArrivalsAreIsolated | src/wire/peerbus.rs:323-376 | no arrival touches another transfer |
| WorkspacePush.Split | src/wire/peerbus.rs:1211-1234 | refuses exactly an empty document or one with too many chunks; otherwise sends every piece once, in order |
| WorkspacePush.BuffersStaySmall | src/wire/peerbus.rs:352-360 | whatever arrives, what is buffered per transfer stays under the ceiling |
| WorkspacePush.NothingButTheDocument | src/wire/peerbus.rs:323-376 | however chunks are repeated, lost or mixed with other transfers, nothing but the document they were cut from comes back, and only under the ceiling |
| WorkspacePush.EveryChunkIsAnsweredExactly | src/wire/peerbus.rs:323-376 | with any order and repeats, until something has come back a chunk is refused exactly when all bytes sent, repeats included, are over the ceiling, and otherwise the document comes back exactly with the last missing chunk |
| WorkspacePush.RepeatsCanFailADelivery | src/wire/peerbus.rs:352-360 | a document under the ceiling is refused when its first chunk arrives 513 times |
| WorkspacePush.DocumentArrivesWithItsLastChunk | src/wire/peerbus.rs:363-375 | delivered once each in any order, the chunks give back the document with the last one and not before |
| WorkspacePush.DeliverySucceedsExactlyUnderTheCeiling | src/wire/peerbus.rs:352-360 | a complete delivery succeeds exactly when the document fits under the ceiling |
| WorkspacePush.SplitThenDeliver | src/wire/peerbus.rs:1211-1242 | what the client splits and sends in order comes back whole |

## Left out

- Floating point: costs, penalties and tick rates are real numbers, so rounding, infinities and NaN are not modelled; the infinite penalty of an unknown edge is a missing value.
- RoutePlans.EdgeBetweenFinds: which of several parallel edges the graph library returns is not part of this model; the model takes the first.
- RoutePlanner.PlanRoute: `CostsAgreeExactly` and `NamesAgreeExactly` are exact over all walks, not over shortest walks alone.
- Scheduling.ScheduledTargetWindowsFromRoute: start plus offset wraps at 64 bits, as in a release build; a debug build stops there instead.
- Reservations.WaitingEndsExactly: the ledger stays fixed while the route waits; a start so late that a tick overflows ends the wait without a decision.
- Rebinding.SafetySurvivesExactly: the new limits are compared on every way to stand still rather than zone by zone; a node may list any zones, so how many robots the old limits let onto given ground is a packing question without a shorter answer. `CoveredGroundKeepsCounting` is the zone-by-zone check, which is sufficient only.
- ClaimManager.Manager.AddLease: unchecked insertions (`add_request`, `upsert_request`, `add_lease`) are outside the safe runs; a lease enters a run only as the image of a live request.
- RunSafety.FleetSafeOverEveryRun: an edge of explicit capacity one or none is not counted by the source and carries no capacity promise beyond exclusion.
- IndexBuild.Rebuild: for repeated zone ids the lookup takes the first zone depth first, as a tree search; the order of hash maps and sets is left open throughout.
- Numeric id aliases, validation issues, the lists of duplicate node and edge ids, coordinates and datum conversion. An edge runs between node ids, so vertices that share an id count as one.
- Parsing of `traffic.*` strings: policies and semantics are already parsed; robot class, access group, schedule window, surface, payload and lane names other than corridor are dropped.
- Diagnostic texts and messages, the event ring, snapshots on disk.
- Authentication, keys, tokens and throttling: whether a caller is authorized is a parameter.
- The wire formats (HTTP, XML, peerbus, datapod), the C interface and the Python bindings.
- Missions, progress, rolling horizons, missed slots and right-of-way arbitration in the coordinator.
- `merge_zone_policy`: no caller in the modelled parts.
