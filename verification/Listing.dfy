/**
 The node read endpoints that list or fetch single nodes, with the rule that a parent link is shown
 only to those who see the parent.
*/
module Listing {
  import opened Tables
  import opened Forest
  import opened Resolver
  import opened ForestSafety

  /** The map gate of every node query: the map is in the tenant and the caller has view access. */
  predicate MayViewMap(db: Db, caller: Caller, mapId: int) {
    MapInTenant(db, mapId, caller.tenantId) && CanViewMap(db, caller.userId, mapId)
  }

  /** The nodes of a map that pass the visibility predicate; admins and x-raying owners skip it. */
  function Shown(db: Db, caller: Caller, mapId: int): set<int> {
    var onMap := NodesOn(db.nodes, mapId);
    if caller.isAdmin || HasXray(db, caller.userId, mapId) then onMap
    else onMap * VisibleStarts(db, onMap, caller.userId)
  }

  datatype ParentFilter = AnyParent | TopLevel | ChildrenOf(id: int)

  predicate Passes(row: NodeRow, filter: ParentFilter) {
    match filter
    case AnyParent => true
    case TopLevel => row.parentId.None?
    case ChildrenOf(p) => row.parentId == Some(p)
  }

  /** The row as emitted: without its parent link when the parent is not among `visibleIds`. */
  function Redacted(row: NodeRow, visibleIds: set<int>): NodeRow {
    if row.parentId.Some? && row.parentId.value !in visibleIds then row.(parentId := None) else row
  }

  /** The ids of the result rows. */
  function ListedIds(db: Db, caller: Caller, mapId: int, filter: ParentFilter): set<int> {
    if !MayViewMap(db, caller, mapId) then {}
    else set n | n in Shown(db, caller, mapId) && n in db.nodes && Passes(db.nodes[n], filter)
  }

  /** GET /nodes: the emitted rows by id. */
  function ListNodes(db: Db, caller: Caller, mapId: int, filter: ParentFilter): NodeTable {
    var visibleIds := ListedIds(db, caller, mapId, filter);
    map n | n in visibleIds && n in db.nodes :: Redacted(db.nodes[n], visibleIds)
  }

  /** GET /nodes/{id}: the emitted row, or None for a 404. */
  function GetNode(db: Db, caller: Caller, mapId: int, id: int): Option<NodeRow> {
    if !(MayViewMap(db, caller, mapId) && id in db.nodes && id in Shown(db, caller, mapId)) then None
    else if caller.isAdmin || db.nodes[id].parentId.None? then Some(db.nodes[id])
    else if db.nodes[id].parentId.value in Shown(db, caller, mapId) then Some(db.nodes[id])
    else Some(db.nodes[id].(parentId := None))
  }

  /** GET /nodes/{id}/children: the link to the listed parent itself is always kept. */
  function ListChildren(db: Db, caller: Caller, mapId: int, id: int): NodeTable {
    var visibleIds := ListedIds(db, caller, mapId, ChildrenOf(id));
    map n | n in visibleIds && n in db.nodes :: Redacted(db.nodes[n], visibleIds + {id})
  }

  // ---- What is listed ----

  /** A node is shown exactly when the bounded definition of visibility, or a bypass, says so. */
  lemma ShownMeaning(db: Db, caller: Caller, mapId: int, n: int)
    ensures n in Shown(db, caller, mapId) <==>
            && n in db.nodes && db.nodes[n].mapId == mapId
            && (caller.isAdmin || HasXray(db, caller.userId, mapId)
                || VisibleWithin(db, n, caller.userId, MAX_NODE_DEPTH))
  {
    BoundedResolver(db, NodesOn(db.nodes, mapId), n, caller.userId);
  }

  /** Who is shown every node of a map: admins, and an owner who opted in. */
  predicate Bypasses(db: Db, caller: Caller, mapId: int) {
    caller.isAdmin || (mapId in db.dir.maps && db.dir.maps[mapId].ownerId == caller.userId && db.dir.maps[mapId].ownerXray)
  }

  /** The map is in the caller's tenant, and the caller owns it or has an own or a public grant. */
  predicate PassesGate(db: Db, caller: Caller, mapId: int) {
    && mapId in db.dir.maps && db.dir.maps[mapId].tenantId == caller.tenantId
    && (db.dir.maps[mapId].ownerId == caller.userId
        || ((mapId, caller.userId) in db.dir.grants && !db.dir.grants[(mapId, caller.userId)].NoLevel?)
        || (mapId in db.dir.publicGrants && !db.dir.publicGrants[mapId].NoLevel?))
  }

  /** What every listing shows, whatever it filters by: the gate, the map, the filter, and then visibility. */
  ghost predicate IsListed(db: Db, caller: Caller, mapId: int, n: int) {
    && PassesGate(db, caller, mapId) && n in db.nodes && db.nodes[n].mapId == mapId
    && (Bypasses(db, caller, mapId) || VisibleWithin(db, n, caller.userId, 15))
  }

  /** The three listings of /nodes, by what they show; all columns but the parent link are emitted as stored. */
  lemma ListNodesMeaning(db: Db, caller: Caller, mapId: int, filter: ParentFilter, n: int)
    ensures var listed := ListNodes(db, caller, mapId, filter);
            && (filter.AnyParent? ==> (n in listed <==> IsListed(db, caller, mapId, n)))
            && (filter.TopLevel? ==>
                  (n in listed <==> IsListed(db, caller, mapId, n) && db.nodes[n].parentId == None))
            && (filter.ChildrenOf? ==>
                  (n in listed <==> IsListed(db, caller, mapId, n) && db.nodes[n].parentId == Some(filter.id)))
            && (n in listed ==> listed[n] == db.nodes[n].(parentId := listed[n].parentId))
  {
    ShownMeaning(db, caller, mapId, n);
  }

  /** /children shows the visible nodes whose parent is the given one, with their links. */
  lemma ListChildrenMeaning(db: Db, caller: Caller, mapId: int, p: int, n: int)
    ensures var children := ListChildren(db, caller, mapId, p);
            && (n in children <==> IsListed(db, caller, mapId, n) && db.nodes[n].parentId == Some(p))
            && (n in children ==> children[n] == db.nodes[n])
  {
    ShownMeaning(db, caller, mapId, n);
  }

  /** Fetching a node answers exactly when a listing would show it, and with all columns but the link as stored. */
  lemma GetNodeMeaning(db: Db, caller: Caller, mapId: int, id: int)
    ensures var row := GetNode(db, caller, mapId, id);
            && (row.Some? <==> IsListed(db, caller, mapId, id))
            && (row.Some? ==> row.value == db.nodes[id].(parentId := row.value.parentId))
  {
    ShownMeaning(db, caller, mapId, id);
  }

  lemma ListedAll(db: Db, caller: Caller, mapId: int)
    requires MayViewMap(db, caller, mapId)
    ensures ListNodes(db, caller, mapId, AnyParent).Keys == Shown(db, caller, mapId)
    ensures ListedIds(db, caller, mapId, AnyParent) == Shown(db, caller, mapId)
  {
    forall n ensures n in ListedIds(db, caller, mapId, AnyParent) <==> n in Shown(db, caller, mapId) {
      assert n in Shown(db, caller, mapId) ==> n in NodesOn(db.nodes, mapId);
    }
  }

  /** `k` links up from `n` lies `m`, over nodes of `shown` alone. */
  predicate ShownWalk(nodes: NodeTable, shown: set<int>, n: int, m: int, k: nat)
    decreases k
  {
    && n in nodes && n in shown
    && if k == 0 then n == m
       else nodes[n].parentId.Some? && ShownWalk(nodes, shown, nodes[n].parentId.value, m, k - 1)
  }

  /** Some node of `shown` lies below itself, over nodes of `shown` alone. */
  ghost predicate ShownCycle(nodes: NodeTable, shown: set<int>) {
    exists n, k: nat :: k > 0 && ShownWalk(nodes, shown, n, n, k)
  }

  /** The unfiltered listing has exactly the shown nodes, on one map, and keeps a link iff the parent is shown. */
  lemma ListingLinks(db: Db, caller: Caller, mapId: int)
    ensures var listed := ListNodes(db, caller, mapId, AnyParent);
            && listed.Keys == (if MayViewMap(db, caller, mapId) then Shown(db, caller, mapId) else {})
            && ParentsExist(listed) && SameMap(listed)
            && (forall n :: n in listed ==>
                  n in db.nodes
                  && listed[n] == db.nodes[n].(parentId := listed[n].parentId)
                  && listed[n].parentId == if db.nodes[n].parentId.Some? && db.nodes[n].parentId.value in listed
                                           then db.nodes[n].parentId else None)
  {
    var listed := ListNodes(db, caller, mapId, AnyParent);
    if MayViewMap(db, caller, mapId) { ListedAll(db, caller, mapId); }
    forall n | n in listed ensures listed[n].mapId == mapId { ShownMeaning(db, caller, mapId, n); }
  }

  /** So its links form a forest exactly when no cycle lies wholly in the listed nodes. */
  lemma ListingIsForestIff(db: Db, caller: Caller, mapId: int)
    ensures var listed := ListNodes(db, caller, mapId, AnyParent);
            IsForest(listed) <==> !ShownCycle(db.nodes, listed.Keys)
  {
    var listed := ListNodes(db, caller, mapId, AnyParent);
    ListingLinks(db, caller, mapId);
    AcyclicIffNoCycle(listed);
    if ShownCycle(db.nodes, listed.Keys) {
      var n: int, k: nat :| k > 0 && ShownWalk(db.nodes, listed.Keys, n, n, k);
      ListedWalk(db.nodes, listed, n, n, k);
    }
    if !NoCycle(listed) {
      var n: int, k: nat :| n in listed && k > 0 && Up(listed, n, k) == Some(n);
      ListedWalk(db.nodes, listed, n, n, k);
    }
  }

  lemma {:induction false} ListedWalk(nodes: NodeTable, listed: NodeTable, n: int, m: int, k: nat)
    requires ParentsExist(listed)
    requires forall x :: x in listed ==>
               x in nodes && listed[x].parentId == if nodes[x].parentId.Some? && nodes[x].parentId.value in listed
                                                   then nodes[x].parentId else None
    ensures Up(listed, n, k) == Some(m) <==> ShownWalk(nodes, listed.Keys, n, m, k)
    decreases k
  {
    if k == 0 || n !in listed || nodes[n].parentId.None? {
    } else {
      var p := nodes[n].parentId.value;
      ListedWalk(nodes, listed, p, m, k - 1);
    }
  }

  /** In particular whenever the tables are acyclic. */
  lemma ListingIsForest(db: Db, caller: Caller, mapId: int)
    requires Acyclic(db.nodes)
    ensures IsForest(ListNodes(db, caller, mapId, AnyParent))
  {
    var shown := ListNodes(db, caller, mapId, AnyParent).Keys;
    if ShownCycle(db.nodes, shown) {
      var n: int, k: nat :| k > 0 && ShownWalk(db.nodes, shown, n, n, k);
      WalkUp(db.nodes, shown, n, n, k);
      AcyclicIffNoCycle(db.nodes);
    }
    ListingIsForestIff(db, caller, mapId);
  }

  lemma {:induction false} WalkUp(nodes: NodeTable, shown: set<int>, n: int, m: int, k: nat)
    requires ShownWalk(nodes, shown, n, m, k)
    ensures Up(nodes, n, k) == Some(m)
    decreases k
  {
    if k == 0 {
    } else {
      WalkUp(nodes, shown, nodes[n].parentId.value, m, k - 1);
    }
  }

  /** Fetching a node answers with the very row that listing the map shows; 404 iff it is not listed. */
  lemma GetAgreesWithList(db: Db, caller: Caller, mapId: int, id: int)
    requires !caller.isAdmin
    ensures GetNode(db, caller, mapId, id)
            == var listed := ListNodes(db, caller, mapId, AnyParent);
               if id in listed then Some(listed[id]) else None
  {
    if MayViewMap(db, caller, mapId) { ListedAll(db, caller, mapId); }
  }

  /** For an admin the two agree except on a node whose parent is on another map. */
  lemma GetAgreesWithListForAdmin(db: Db, caller: Caller, mapId: int, id: int)
    requires caller.isAdmin && ParentsExist(db.nodes)
    requires MayViewMap(db, caller, mapId) && id in db.nodes && db.nodes[id].mapId == mapId
    ensures var listed := ListNodes(db, caller, mapId, AnyParent);
            id in listed
            && (GetNode(db, caller, mapId, id) == Some(listed[id]) <==>
                (db.nodes[id].parentId.Some? ==> db.nodes[db.nodes[id].parentId.value].mapId == mapId))
  {
    ListedAll(db, caller, mapId);
    if db.nodes[id].parentId.Some? {
      var p := db.nodes[id].parentId.value;
      assert p in Shown(db, caller, mapId) <==> db.nodes[p].mapId == mapId;
    }
  }

  /**
   Filtering by parent lists the same nodes as /children, which always links them. The filtered listing
   links them only when the parent is listed with its own children; no request makes a node its own
   parent, so it drops every link.
   */
  lemma FilteredListDropsLinks(db: Db, caller: Caller, mapId: int, p: int)
    ensures var filtered, children := ListNodes(db, caller, mapId, ChildrenOf(p)), ListChildren(db, caller, mapId, p);
            && filtered.Keys == children.Keys
            && (p in filtered ==> p in db.nodes && db.nodes[p].parentId == Some(p))
            && (forall n :: n in filtered ==>
                  filtered[n].parentId == (if p in filtered then Some(p) else None)
                  && children[n].parentId == Some(p))
  {}
}
