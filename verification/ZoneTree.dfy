/** Building the zone part of the index from the zone tree, and what the lookups
    over it mean in terms of the tree. The walks use explicit worklists. */
module ZoneTree {
  import opened Basics
  import opened Workspace

  /** A zone with its `traffic.*` properties in key order. */
  datatype Zone = Zone(id: Id, properties: seq<ZoneProperty>, children: seq<Zone>)

  // ---------------------------------------------------------------------------
  // the tree itself
  // ---------------------------------------------------------------------------

  /** How often each id occurs in a tree. */
  function Ids(t: Zone): (ids: multiset<Id>)
  {
    multiset{t.id} + IdsOf(t.children)
  }

  function IdsOf(zs: seq<Zone>): (ids: multiset<Id>)
  {
    if zs == [] then multiset{} else Ids(zs[0]) + IdsOf(zs[1..])
  }

  ghost predicate DistinctIds(t: Zone) {
    forall x :: Ids(t)[x] <= 1
  }

  ghost predicate DistinctIdsOf(zs: seq<Zone>) {
    forall x :: IdsOf(zs)[x] <= 1
  }

  function ChildLinks(zs: seq<Zone>, parent: Id): (links: set<(Id, Id)>)
  {
    if zs == [] then {} else {(zs[0].id, parent)} + ChildLinks(zs[1..], parent)
  }

  /** The (child, parent) pairs of a tree. */
  function Links(t: Zone): (links: set<(Id, Id)>)
  {
    ChildLinks(t.children, t.id) + LinksOf(t.children)
  }

  function LinksOf(zs: seq<Zone>): (links: set<(Id, Id)>)
  {
    if zs == [] then {} else Links(zs[0]) + LinksOf(zs[1..])
  }

  /** The (zone, ancestor) pairs of a tree: the root is an ancestor of every
      zone below it, and so on down. */
  function Strict(t: Zone): (pairs: set<(Id, Id)>)
  {
    (set x | x in IdsOf(t.children) :: (x, t.id)) + StrictOf(t.children)
  }

  function StrictOf(zs: seq<Zone>): (pairs: set<(Id, Id)>)
  {
    if zs == [] then {} else Strict(zs[0]) + StrictOf(zs[1..])
  }

  // -- where the ids of a pair lie --------------------------------------------

  lemma {:induction false} ChildLinksLie(zs: seq<Zone>, parent: Id, c: Id, p: Id)
    requires (c, p) in ChildLinks(zs, parent)
    ensures p == parent && c in IdsOf(zs)
  {
    if (c, p) != (zs[0].id, parent) {
      ChildLinksLie(zs[1..], parent, c, p);
    }
  }

  lemma {:induction false} LinksLie(t: Zone, c: Id, p: Id)
    requires (c, p) in Links(t)
    ensures c in IdsOf(t.children) && p in Ids(t)
    decreases t
  {
    if (c, p) in ChildLinks(t.children, t.id) {
      ChildLinksLie(t.children, t.id, c, p);
    } else {
      LinksOfLie(t.children, c, p);
    }
  }

  lemma {:induction false} LinksOfLie(zs: seq<Zone>, c: Id, p: Id)
    requires (c, p) in LinksOf(zs)
    ensures c in IdsOf(zs) && p in IdsOf(zs)
    decreases zs
  {
    if (c, p) in Links(zs[0]) {
      LinksLie(zs[0], c, p);
    } else {
      LinksOfLie(zs[1..], c, p);
    }
  }

  lemma {:induction false} StrictLies(t: Zone, z: Id, a: Id)
    requires (z, a) in Strict(t)
    ensures z in IdsOf(t.children) && a in Ids(t)
    decreases t
  {
    if (z, a) in StrictOf(t.children) {
      StrictOfLies(t.children, z, a);
    }
  }

  lemma {:induction false} StrictOfLies(zs: seq<Zone>, z: Id, a: Id)
    requires (z, a) in StrictOf(zs)
    ensures z in IdsOf(zs) && a in IdsOf(zs)
    decreases zs
  {
    if (z, a) in Strict(zs[0]) {
      StrictLies(zs[0], z, a);
    } else {
      StrictOfLies(zs[1..], z, a);
    }
  }

  // -- every zone but the root has a parent ------------------------------------

  lemma {:induction false} HasParent(zs: seq<Zone>, parent: Id, z: Id) returns (p: Id)
    requires z in IdsOf(zs)
    ensures (z, p) in ChildLinks(zs, parent) + LinksOf(zs)
    ensures p == parent || p in IdsOf(zs)
    decreases zs
  {
    if z == zs[0].id {
      p := parent;
    } else if z in IdsOf(zs[0].children) {
      p := HasParent(zs[0].children, zs[0].id, z);
    } else {
      p := HasParent(zs[1..], parent, z);
    }
  }

  /** A link is a step up. */
  lemma {:induction false} LinkIsStrict(t: Zone, c: Id, p: Id)
    requires (c, p) in Links(t)
    ensures (c, p) in Strict(t)
    decreases t
  {
    if (c, p) in ChildLinks(t.children, t.id) {
      ChildLinksLie(t.children, t.id, c, p);
    } else {
      LinkOfIsStrict(t.children, c, p);
    }
  }

  lemma {:induction false} LinkOfIsStrict(zs: seq<Zone>, c: Id, p: Id)
    requires (c, p) in LinksOf(zs)
    ensures (c, p) in StrictOf(zs)
    decreases zs
  {
    if (c, p) in Links(zs[0]) {
      LinkIsStrict(zs[0], c, p);
    } else {
      LinkOfIsStrict(zs[1..], c, p);
    }
  }

  /** Every ancestor is the parent or an ancestor of the parent. */
  lemma {:induction false} StrictUnfolds(t: Zone, z: Id, a: Id) returns (p: Id)
    requires (z, a) in Strict(t)
    ensures (z, p) in Links(t) && (p == a || (p, a) in Strict(t))
    decreases t
  {
    if a == t.id && z in IdsOf(t.children) {
      p := HasParent(t.children, t.id, z);
    } else {
      p := StrictOfUnfolds(t.children, z, a);
    }
  }

  lemma {:induction false} StrictOfUnfolds(zs: seq<Zone>, z: Id, a: Id) returns (p: Id)
    requires (z, a) in StrictOf(zs)
    ensures (z, p) in LinksOf(zs) && (p == a || (p, a) in StrictOf(zs))
    decreases zs
  {
    if (z, a) in Strict(zs[0]) {
      p := StrictUnfolds(zs[0], z, a);
    } else {
      p := StrictOfUnfolds(zs[1..], z, a);
    }
  }

  // -- with distinct ids -------------------------------------------------------

  /** A parent's ancestors are ancestors too. */
  lemma {:induction false} StrictExtends(t: Zone, z: Id, p: Id, a: Id)
    requires DistinctIds(t)
    requires (z, p) in Links(t) && (p, a) in Strict(t)
    ensures (z, a) in Strict(t)
    decreases t
  {
    LinksLie(t, z, p);
    StrictLies(t, p, a);
    if a != t.id || p !in IdsOf(t.children) {
      assert (p, a) in StrictOf(t.children);
    }
    if a != t.id {
      if (z, p) in ChildLinks(t.children, t.id) {
        ChildLinksLie(t.children, t.id, z, p);
        DistinctBelow(t);
      } else {
        StrictOfExtends(t.children, z, p, a) by { DistinctBelow(t); }
      }
    }
  }

  lemma DistinctBelow(t: Zone)
    requires DistinctIds(t)
    ensures DistinctIdsOf(t.children) && t.id !in IdsOf(t.children)
  {
    forall x ensures IdsOf(t.children)[x] <= 1 {
      assert Ids(t)[x] <= 1;
    }
    assert Ids(t)[t.id] <= 1;
  }

  lemma DistinctSplit(zs: seq<Zone>)
    requires DistinctIdsOf(zs) && zs != []
    ensures DistinctIds(zs[0]) && DistinctIdsOf(zs[1..])
    ensures forall x :: !(x in Ids(zs[0]) && x in IdsOf(zs[1..]))
  {
    forall x ensures Ids(zs[0])[x] + IdsOf(zs[1..])[x] <= 1 {
      assert IdsOf(zs)[x] <= 1;
    }
  }

  lemma {:induction false} StrictOfExtends(zs: seq<Zone>, z: Id, p: Id, a: Id)
    requires DistinctIdsOf(zs)
    requires (z, p) in LinksOf(zs) && (p, a) in StrictOf(zs)
    ensures (z, a) in StrictOf(zs)
    decreases zs
  {
    DistinctSplit(zs);
    if (z, p) in Links(zs[0]) {
      LinksLie(zs[0], z, p);
      if (p, a) in StrictOf(zs[1..]) {
        StrictOfLies(zs[1..], p, a);
      }
      StrictExtends(zs[0], z, p, a);
    } else {
      LinksOfLie(zs[1..], z, p);
      if (p, a) in Strict(zs[0]) {
        StrictLies(zs[0], p, a);
      }
      StrictOfExtends(zs[1..], z, p, a);
    }
  }

  /** No zone is its own ancestor. */
  lemma {:induction false} StrictIsIrreflexive(t: Zone, z: Id)
    requires DistinctIds(t)
    ensures (z, z) !in Strict(t)
    decreases t
  {
    DistinctBelow(t);
    StrictOfIsIrreflexive(t.children, z);
  }

  lemma {:induction false} StrictOfIsIrreflexive(zs: seq<Zone>, z: Id)
    requires DistinctIdsOf(zs)
    ensures (z, z) !in StrictOf(zs)
    decreases zs
  {
    if zs != [] {
      DistinctSplit(zs);
      StrictIsIrreflexive(zs[0], z);
      StrictOfIsIrreflexive(zs[1..], z);
    }
  }

  /** No zone has two parents. */
  lemma {:induction false} ParentIsUnique(zs: seq<Zone>, parent: Id, c: Id, p: Id, q: Id)
    requires DistinctIdsOf(zs)
    requires (c, p) in ChildLinks(zs, parent) + LinksOf(zs)
    requires (c, q) in ChildLinks(zs, parent) + LinksOf(zs)
    ensures p == q
    decreases zs
  {
    DistinctSplit(zs);
    var t := zs[0];
    DistinctBelow(t);
    WhereLinksLie(zs, parent, c, p);
    WhereLinksLie(zs, parent, c, q);
    if c != t.id {
      if c in IdsOf(t.children) {
        ParentIsUnique(t.children, t.id, c, p, q);
      } else {
        ParentIsUnique(zs[1..], parent, c, p, q);
      }
    }
  }

  lemma WhereLinksLie(zs: seq<Zone>, parent: Id, c: Id, p: Id)
    requires DistinctIdsOf(zs) && zs != []
    requires (c, p) in ChildLinks(zs, parent) + LinksOf(zs)
    ensures c == zs[0].id ==> p == parent
    ensures c != zs[0].id && c in IdsOf(zs[0].children) ==>
              (c, p) in ChildLinks(zs[0].children, zs[0].id) + LinksOf(zs[0].children)
    ensures c !in Ids(zs[0]) ==> (c, p) in ChildLinks(zs[1..], parent) + LinksOf(zs[1..])
  {
    DistinctSplit(zs);
    DistinctBelow(zs[0]);
    if (c, p) in ChildLinks(zs[1..], parent) {
      ChildLinksLie(zs[1..], parent, c, p);
    }
    if (c, p) in LinksOf(zs[1..]) {
      LinksOfLie(zs[1..], c, p);
    }
    if (c, p) in Links(zs[0]) {
      LinksLie(zs[0], c, p);
    }
  }

  // ---------------------------------------------------------------------------
  // walking the tree
  // ---------------------------------------------------------------------------

  datatype Entry = Entry(zone: Zone, parent: Option<Id>)

  function Entries(zs: seq<Zone>, parent: Id): (entries: seq<Entry>)
  {
    if zs == [] then [] else [Entry(zs[0], Some(parent))] + Entries(zs[1..], parent)
  }

  function OwnLink(e: Entry): set<(Id, Id)> {
    if e.parent.Some? then {(e.zone.id, e.parent.value)} else {}
  }

  function PendingIds(pending: seq<Entry>): multiset<Id> {
    if pending == [] then multiset{} else Ids(pending[0].zone) + PendingIds(pending[1..])
  }

  function PendingLinks(pending: seq<Entry>): set<(Id, Id)> {
    if pending == [] then {} else OwnLink(pending[0]) + Links(pending[0].zone) + PendingLinks(pending[1..])
  }

  lemma {:induction false} PendingIdsOfBoth(a: seq<Entry>, b: seq<Entry>)
    ensures PendingIds(a + b) == PendingIds(a) + PendingIds(b)
  {
    if a == [] {
      assert a + b == b;
    } else {
      assert (a + b)[1..] == a[1..] + b;
      PendingIdsOfBoth(a[1..], b);
    }
  }

  lemma {:induction false} PendingLinksOfBoth(a: seq<Entry>, b: seq<Entry>)
    ensures PendingLinks(a + b) == PendingLinks(a) + PendingLinks(b)
  {
    if a == [] {
      assert a + b == b;
    } else {
      assert (a + b)[1..] == a[1..] + b;
      PendingLinksOfBoth(a[1..], b);
    }
  }

  lemma {:induction false} PendingOfChildren(zs: seq<Zone>, parent: Id)
    ensures PendingIds(Entries(zs, parent)) == IdsOf(zs)
    ensures PendingLinks(Entries(zs, parent)) == ChildLinks(zs, parent) + LinksOf(zs)
  {
    if zs != [] {
      PendingOfChildren(zs[1..], parent);
    }
  }

  /** One pop: the top entry is replaced by entries for its children. */
  lemma PopConservesIds(front: seq<Entry>, e: Entry)
    ensures PendingIds(front + [e])
         == PendingIds(front + Entries(e.zone.children, e.zone.id)) + multiset{e.zone.id}
  {
    PendingOfChildren(e.zone.children, e.zone.id);
    PendingIdsOfBoth(front, [e]);
    PendingIdsOfBoth(front, Entries(e.zone.children, e.zone.id));
  }

  lemma PopConservesLinks(front: seq<Entry>, e: Entry)
    ensures PendingLinks(front + [e])
         == PendingLinks(front + Entries(e.zone.children, e.zone.id)) + OwnLink(e)
  {
    PendingOfChildren(e.zone.children, e.zone.id);
    PendingLinksOfBoth(front, [e]);
    PendingLinksOfBoth(front, Entries(e.zone.children, e.zone.id));
  }

  /** The parent map records exactly these links. */
  ghost predicate ParentsAre(parents: map<Id, Id>, links: set<(Id, Id)>) {
    && (forall c, p :: (c, p) in links ==> c in parents && parents[c] == p)
    && (forall c | c in parents :: (c, parents[c]) in links)
  }

  function ChildrenOf(children: map<Id, seq<Id>>, zone: Id): seq<Id> {
    if zone in children then children[zone] else []
  }

  /** The child lists record exactly these links, each once. */
  ghost predicate ChildrenAre(children: map<Id, seq<Id>>, links: set<(Id, Id)>) {
    && (forall c, p :: (c, p) in links <==> c in ChildrenOf(children, p))
    && (forall p :: NoDuplicates(ChildrenOf(children, p)))
  }

  lemma AddLink(parents: map<Id, Id>, children: map<Id, seq<Id>>, links: set<(Id, Id)>, c: Id, p: Id)
    requires ParentsAre(parents, links) && ChildrenAre(children, links)
    requires c !in parents
    ensures ParentsAre(parents[c := p], links + {(c, p)})
    ensures ChildrenAre(children[p := ChildrenOf(children, p) + [c]], links + {(c, p)})
  {
    var children' := children[p := ChildrenOf(children, p) + [c]];
    assert c !in ChildrenOf(children, p);
    forall x, y ensures (x, y) in links + {(c, p)} <==> x in ChildrenOf(children', y) {
      assert (x, y) in links <==> x in ChildrenOf(children, y);
    }
    assert forall y :: y != p ==> ChildrenOf(children', y) == ChildrenOf(children, y);
  }

  /** What has been visited and what is pending make up the tree. */
  ghost predicate Partition(root: Zone, done: multiset<Id>, links: set<(Id, Id)>, pending: seq<Entry>) {
    && done + PendingIds(pending) == Ids(root)
    && links + PendingLinks(pending) == Links(root)
  }

  ghost predicate IdsRecorded(zoneIds: set<Id>, duplicates: seq<Id>, done: multiset<Id>) {
    && (forall x :: x in zoneIds <==> x in done)
    && (forall x :: x in duplicates <==> done[x] >= 2)
  }

  ghost predicate LinksRecorded(root: Zone, parents: map<Id, Id>, children: map<Id, seq<Id>>, done: multiset<Id>, links: set<(Id, Id)>) {
    && (forall c | c in parents :: c in done)
    && (DistinctIds(root) ==> ParentsAre(parents, links) && ChildrenAre(children, links))
  }

  lemma PopKeepsPartition(root: Zone, done: multiset<Id>, links: set<(Id, Id)>, pending: seq<Entry>)
    requires pending != [] && Partition(root, done, links, pending)
    ensures
      var front, e := pending[..|pending| - 1], pending[|pending| - 1];
      var next := front + Entries(e.zone.children, e.zone.id);
      && Partition(root, done + multiset{e.zone.id}, links + OwnLink(e), next)
      && |PendingIds(next)| < |PendingIds(pending)|
      && done[e.zone.id] < Ids(root)[e.zone.id]
  {
    var front, e := pending[..|pending| - 1], pending[|pending| - 1];
    assert pending == front + [e];
    PopConservesIds(front, e);
    PopConservesLinks(front, e);
  }

  lemma RecordLink(root: Zone, parents: map<Id, Id>, children: map<Id, seq<Id>>, done: multiset<Id>, links: set<(Id, Id)>, c: Id, p: Id)
    requires LinksRecorded(root, parents, children, done, links)
    requires done[c] < Ids(root)[c]
    ensures LinksRecorded(root, parents[c := p], children[p := ChildrenOf(children, p) + [c]], done + multiset{c}, links + {(c, p)})
  {
    if DistinctIds(root) {
      assert Ids(root)[c] <= 1;
      AddLink(parents, children, links, c, p);
    }
  }

  /** Records one popped zone and its link to its parent. */
  method RecordZone(zid: Id, parent: Option<Id>, zoneIds: set<Id>, parents: map<Id, Id>, children: map<Id, seq<Id>>,
                    duplicates: seq<Id>, ghost root: Zone, ghost done: multiset<Id>, ghost links: set<(Id, Id)>)
    returns (zoneIds': set<Id>, parents': map<Id, Id>, children': map<Id, seq<Id>>, duplicates': seq<Id>)
    requires IdsRecorded(zoneIds, duplicates, done)
    requires LinksRecorded(root, parents, children, done, links)
    requires done[zid] < Ids(root)[zid]
    ensures IdsRecorded(zoneIds', duplicates', done + multiset{zid})
    ensures LinksRecorded(root, parents', children', done + multiset{zid},
                          links + if parent.Some? then {(zid, parent.value)} else {})
  {
    zoneIds', parents', children', duplicates' := zoneIds, parents, children, duplicates;
    if zid in zoneIds {
      if zid !in duplicates {
        duplicates' := duplicates + [zid];
      }
    } else {
      zoneIds' := zoneIds + {zid};
    }
    if parent.Some? {
      RecordLink(root, parents, children, done, links, zid, parent.value);
      parents' := parents[zid := parent.value];
      children' := children[parent.value := ChildrenOf(children, parent.value) + [zid]];
    } else {
      assert links + {} == links;
    }
  }

  /** Walks the zone tree with an explicit worklist, recording ids, links and
      repeated ids. The links are exact whenever the ids are distinct. */
  method IndexZoneTree(root: Zone)
    returns (zoneIds: set<Id>, parents: map<Id, Id>, children: map<Id, seq<Id>>, duplicates: seq<Id>)
    ensures IdsRecorded(zoneIds, duplicates, Ids(root))
    ensures DistinctIds(root) ==> ParentsAre(parents, Links(root)) && ChildrenAre(children, Links(root))
  {
    zoneIds, parents, children, duplicates := {}, map[], map[], [];
    var pending := [Entry(root, None)];
    ghost var done, links: set<(Id, Id)> := multiset{}, {};
    assert pending[1..] == [];
    while pending != []
      invariant Partition(root, done, links, pending)
      invariant IdsRecorded(zoneIds, duplicates, done)
      invariant LinksRecorded(root, parents, children, done, links)
      decreases |PendingIds(pending)|
    {
      PopKeepsPartition(root, done, links, pending);
      var e := pending[|pending| - 1];
      pending := pending[..|pending| - 1] + Entries(e.zone.children, e.zone.id);
      zoneIds, parents, children, duplicates :=
        RecordZone(e.zone.id, e.parent, zoneIds, parents, children, duplicates, root, done, links);
      done, links := done + multiset{e.zone.id}, links + OwnLink(e);
    }
  }

  // ---------------------------------------------------------------------------
  // ancestor sets
  // ---------------------------------------------------------------------------

  /** `k` steps up from `z`. */
  function Up(parents: map<Id, Id>, z: Id, k: nat): Option<Id>
    decreases k
  {
    if k == 0 then Some(z)
    else if z in parents then Up(parents, parents[z], k - 1)
    else None
  }

  lemma {:induction false} UpAdds(parents: map<Id, Id>, z: Id, j: nat, k: nat)
    ensures Up(parents, z, j + k)
         == if Up(parents, z, j).Some? then Up(parents, Up(parents, z, j).value, k) else None
    decreases j
  {
    if j > 0 && z in parents {
      UpAdds(parents, parents[z], j - 1, k);
    }
  }

  /** Reached from `z` in at least one step and fewer than `k`. */
  ghost predicate AboveWithin(parents: map<Id, Id>, z: Id, k: nat, a: Id) {
    exists j: nat :: 1 <= j < k && Up(parents, z, j) == Some(a)
  }

  ghost predicate Above(parents: map<Id, Id>, z: Id, a: Id) {
    exists k: nat :: k >= 1 && Up(parents, z, k) == Some(a)
  }

  /** The cached ancestors of one zone: whatever repeated parent steps reach, on
      any parent map at all; a cycle ends the walk. */
  method AncestorsOf(parents: map<Id, Id>, z: Id) returns (ancestors: set<Id>)
    ensures forall a :: a in ancestors <==> Above(parents, z, a)
  {
    ancestors := {};
    var current := if z in parents then Some(parents[z]) else None;
    ghost var k := 1;
    assert current == Up(parents, z, 1);
    while current.Some?
      invariant k >= 1 && current == Up(parents, z, k)
      invariant forall a :: a in ancestors <==> AboveWithin(parents, z, k, a)
      invariant ancestors <= parents.Values
      invariant current.Some? ==> current.value in parents.Values
      decreases if current.Some? then 1 + |parents.Values - ancestors| else 0
    {
      var parent := current.value;
      if parent in ancestors {
        CycleCloses(parents, z, k);
        return;
      }
      OneStepFurther(parents, z, k, parent);
      OneFewer(parents.Values, ancestors, parent);
      ancestors := ancestors + {parent};
      current := if parent in parents then Some(parents[parent]) else None;
      k := k + 1;
    }
    NothingFurther(parents, z, k);
  }

  lemma OneStepFurther(parents: map<Id, Id>, z: Id, k: nat, parent: Id)
    requires k >= 1 && Up(parents, z, k) == Some(parent)
    ensures forall a :: AboveWithin(parents, z, k + 1, a) <==> AboveWithin(parents, z, k, a) || a == parent
    ensures Up(parents, z, k + 1) == if parent in parents then Some(parents[parent]) else None
  {
    UpAdds(parents, z, k, 1);
  }

  lemma OneFewer(all: set<Id>, found: set<Id>, x: Id)
    requires x in all && x !in found
    ensures |all - (found + {x})| < |all - found|
  {
    assert all - found == (all - (found + {x})) + {x};
  }

  lemma NothingFurther(parents: map<Id, Id>, z: Id, k: nat)
    requires Up(parents, z, k).None?
    ensures forall a :: Above(parents, z, a) <==> AboveWithin(parents, z, k, a)
  {
    forall a | Above(parents, z, a) ensures AboveWithin(parents, z, k, a) {
      var j: nat :| j >= 1 && Up(parents, z, j) == Some(a);
      if j >= k {
        UpAdds(parents, z, k, j - k);
      }
    }
  }

  /** Once a step repeats an earlier one, no later step reaches anything new. */
  lemma CycleCloses(parents: map<Id, Id>, z: Id, k: nat)
    requires Up(parents, z, k).Some? && AboveWithin(parents, z, k, Up(parents, z, k).value)
    ensures forall a :: Above(parents, z, a) ==> AboveWithin(parents, z, k, a)
  {
    forall a | Above(parents, z, a) ensures AboveWithin(parents, z, k, a) {
      var m: nat :| m >= 1 && Up(parents, z, m) == Some(a);
      FoldBack(parents, z, k, m, a);
    }
  }

  lemma {:induction false} FoldBack(parents: map<Id, Id>, z: Id, k: nat, m: nat, a: Id)
    requires Up(parents, z, k).Some? && AboveWithin(parents, z, k, Up(parents, z, k).value)
    requires m >= 1 && Up(parents, z, m) == Some(a)
    ensures AboveWithin(parents, z, k, a)
    decreases m
  {
    if m >= k {
      var j: nat :| 1 <= j < k && Up(parents, z, j) == Up(parents, z, k);
      UpAdds(parents, z, k, m - k);
      UpAdds(parents, z, j, m - k);
      FoldBack(parents, z, k, j + (m - k), a);
    }
  }
}
