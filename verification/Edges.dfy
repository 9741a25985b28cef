/** The two edge listings, and the rule that an edge is visible iff both its endpoints are. */
module Edges {
  import opened Tables
  import opened Resolver
  import opened Listing
  import Order

  /** The WHERE clause of every edge query: on this map, past the both-endpoints predicate. */
  predicate EdgeShown(db: Db, caller: Caller, mapId: int, e: EdgeRow) {
    && e.mapId == mapId
    && (caller.isAdmin || HasXray(db, caller.userId, mapId)
        || var starts := VisibleStarts(db, NodesOn(db.nodes, mapId), caller.userId);
           e.sourceId in starts && e.destId in starts)
  }

  predicate Touches(e: EdgeRow, n: int) {
    e.sourceId == n || e.destId == n
  }

  /** The rows that satisfy the clause, in table order, which is `created_at, id`. */
  function ShownEdges(db: Db, caller: Caller, mapId: int, edges: seq<EdgeRow>): seq<EdgeRow> {
    Order.Filter(edges, (e: EdgeRow) => EdgeShown(db, caller, mapId, e))
  }

  function Touching(edges: seq<EdgeRow>, n: int): seq<EdgeRow> {
    Order.Filter(edges, (e: EdgeRow) => Touches(e, n))
  }

  datatype EdgeResponse = Forbidden | NotFound | EdgeList(edges: seq<EdgeRow>)

  /** GET /maps/{mid}/edges. */
  function ListEdges(db: Db, caller: Caller, mapId: int): EdgeResponse {
    if !MayViewMap(db, caller, mapId) then Forbidden
    else EdgeList(ShownEdges(db, caller, mapId, db.edges))
  }

  /** GET /maps/{mid}/nodes/{nid}/edges: the node is checked first, then its edges are selected. */
  function ListEdgesForNode(db: Db, caller: Caller, mapId: int, n: int): EdgeResponse {
    if !MayViewMap(db, caller, mapId) then Forbidden
    else if !(n in db.nodes && db.nodes[n].mapId == mapId
              && (caller.isAdmin || HasXray(db, caller.userId, mapId)
                  || n in VisibleStarts(db, NodesOn(db.nodes, mapId), caller.userId))) then NotFound
    else EdgeList(ShownEdges(db, caller, mapId, Touching(db.edges, n)))
  }

  /**
   The map's listing has exactly the map's own edges, those with both endpoints shown or all of them for
   a caller who sees everything, each as often as it is stored and in table order.
   */
  lemma ListEdgesMeaning(db: Db, caller: Caller, mapId: int)
    ensures ListEdges(db, caller, mapId) == Forbidden <==>
            !PassesGate(db, caller, mapId)
    ensures MayViewMap(db, caller, mapId) ==>
              var response := ListEdges(db, caller, mapId);
              && response.EdgeList? && Order.Subsequence(response.edges, db.edges)
              && forall e :: multiset(response.edges)[e]
                   == if e.mapId == mapId
                         && (Bypasses(db, caller, mapId)
                             || (e.sourceId in Shown(db, caller, mapId) && e.destId in Shown(db, caller, mapId)))
                      then multiset(db.edges)[e] else 0
  {
    Order.FilterMeaning(db.edges, (e: EdgeRow) => EdgeShown(db, caller, mapId, e));
    forall e: EdgeRow | e.mapId == mapId
      ensures EdgeShown(db, caller, mapId, e) <==>
              Bypasses(db, caller, mapId)
              || (e.sourceId in Shown(db, caller, mapId) && e.destId in Shown(db, caller, mapId))
    {
      EndpointShown(db, caller, mapId, e.sourceId);
      EndpointShown(db, caller, mapId, e.destId);
    }
  }

  lemma EndpointShown(db: Db, caller: Caller, mapId: int, n: int)
    ensures !Bypasses(db, caller, mapId) ==>
              (n in VisibleStarts(db, NodesOn(db.nodes, mapId), caller.userId) <==> n in Shown(db, caller, mapId))
  {
    BoundedResolver(db, NodesOn(db.nodes, mapId), n, caller.userId);
    ShownMeaning(db, caller, mapId, n);
  }

  /** A listed edge is stored, on the map, and shown. */
  lemma ListedEdge(db: Db, caller: Caller, mapId: int, e: EdgeRow)
    requires MayViewMap(db, caller, mapId)
    ensures e in ListEdges(db, caller, mapId).edges <==> e in db.edges && EdgeShown(db, caller, mapId, e)
  {
    Order.FilterMeaning(db.edges, (x: EdgeRow) => EdgeShown(db, caller, mapId, x));
  }

  /** For a visible node its listing is the map's listing filtered to the edges that touch it, in the same order. */
  lemma NodeEdgesAreFilteredMapEdges(db: Db, caller: Caller, mapId: int, n: int)
    requires MayViewMap(db, caller, mapId)
    ensures ListEdgesForNode(db, caller, mapId, n)
            == if n in Shown(db, caller, mapId)
               then EdgeList(Touching(ListEdges(db, caller, mapId).edges, n)) else NotFound
  {
    Order.SelectionsCommute(db.edges, (e: EdgeRow) => EdgeShown(db, caller, mapId, e), (e: EdgeRow) => Touches(e, n));
    ShownMeaning(db, caller, mapId, n);
    BoundedResolver(db, NodesOn(db.nodes, mapId), n, caller.userId);
  }

  /** The gate comes first, and a node that no listing shows is missing. */
  lemma NodeEdgesStatus(db: Db, caller: Caller, mapId: int, n: int)
    ensures ListEdgesForNode(db, caller, mapId, n) == Forbidden <==> !PassesGate(db, caller, mapId)
    ensures ListEdgesForNode(db, caller, mapId, n) == NotFound <==>
            PassesGate(db, caller, mapId) && !IsListed(db, caller, mapId, n)
  {
    if PassesGate(db, caller, mapId) {
      NodeEdgesAreFilteredMapEdges(db, caller, mapId, n);
      ShownMeaning(db, caller, mapId, n);
    }
  }

  /** The node's listing has exactly the edges of the map's listing that begin or end at the node. */
  lemma NodeEdgesMeaning(db: Db, caller: Caller, mapId: int, n: int)
    requires MayViewMap(db, caller, mapId) && n in Shown(db, caller, mapId)
    ensures var response, all := ListEdgesForNode(db, caller, mapId, n), ListEdges(db, caller, mapId);
            && response.EdgeList? && all.EdgeList? && Order.Subsequence(response.edges, all.edges)
            && forall e :: multiset(response.edges)[e]
                 == if e.sourceId == n || e.destId == n then multiset(all.edges)[e] else 0
  {
    NodeEdgesAreFilteredMapEdges(db, caller, mapId, n);
    Order.FilterMeaning(ListEdges(db, caller, mapId).edges, (e: EdgeRow) => Touches(e, n));
  }

  /** A listed edge has both endpoints listed as nodes, unless the caller bypasses visibility. */
  lemma ListedEdgeEndpoints(db: Db, caller: Caller, mapId: int, e: EdgeRow)
    requires MayViewMap(db, caller, mapId) && e in ListEdges(db, caller, mapId).edges
    requires !caller.isAdmin && !HasXray(db, caller.userId, mapId)
    ensures e.sourceId in ListNodes(db, caller, mapId, AnyParent)
    ensures e.destId in ListNodes(db, caller, mapId, AnyParent)
  {
    ListedEdge(db, caller, mapId, e);
    ListedAll(db, caller, mapId);
    BoundedResolver(db, NodesOn(db.nodes, mapId), e.sourceId, caller.userId);
    BoundedResolver(db, NodesOn(db.nodes, mapId), e.destId, caller.userId);
    ShownMeaning(db, caller, mapId, e.sourceId);
    ShownMeaning(db, caller, mapId, e.destId);
  }

  /**
   When a node's own listing answers 404, the map's listing mentions the node only to a caller who
   bypasses visibility, and only because a move has taken the node off the edge's map.
   */
  lemma HiddenNodeHasNoEdges(db: Db, caller: Caller, mapId: int, n: int, e: EdgeRow)
    requires MayViewMap(db, caller, mapId) && ListEdgesForNode(db, caller, mapId, n) == NotFound
    requires e in ListEdges(db, caller, mapId).edges && Touches(e, n)
    ensures (caller.isAdmin || HasXray(db, caller.userId, mapId)) && !(n in db.nodes && db.nodes[n].mapId == mapId)
  {
    if !caller.isAdmin && !HasXray(db, caller.userId, mapId) {
      ListedEdgeEndpoints(db, caller, mapId, e);
      ListedAll(db, caller, mapId);
      NodeEdgesAreFilteredMapEdges(db, caller, mapId, n);
    }
  }
}
