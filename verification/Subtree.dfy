/**
 GET /nodes/{id}/subtree: the recursive descent over shown nodes, and its paging by cursor.
*/
module SubtreeQuery {
  import opened Tables
  import opened Forest
  import opened Listing
  import Order

  /** A row of the `subtree` table. */
  datatype Row = Row(id: int, depth: nat)

  /** One round: the shown children, on the same map, of the nodes found in the previous round. */
  function NextLevel(nodes: NodeTable, mapId: int, shown: set<int>, level: set<int>): set<int> {
    set c | c in nodes && nodes[c].parentId.Some? && nodes[c].parentId.value in level
            && nodes[c].mapId == mapId && c in shown
  }

  /** The recursive query: round `d` adds its nodes at depth `d`, down to the 15-level bound. */
  function Rounds(nodes: NodeTable, mapId: int, shown: set<int>, level: set<int>, d: nat): set<Row>
    requires d <= MAX_NODE_DEPTH
    decreases MAX_NODE_DEPTH - d, level
  {
    (set m | m in level :: Row(m, d))
    + if level == {} || d == MAX_NODE_DEPTH then {}
      else Rounds(nodes, mapId, shown, NextLevel(nodes, mapId, shown, level), d + 1)
  }

  /** The query for a caller to whom the nodes in `shown` are shown (none, without access to the map). */
  function SubtreeRows(nodes: NodeTable, mapId: int, shown: set<int>, id: int): set<Row> {
    Rounds(nodes, mapId, shown, if id in nodes && nodes[id].mapId == mapId && id in shown then {id} else {}, 0)
  }

  /** What the map gate and the visibility predicate leave to a caller. */
  function ShownTo(db: Db, caller: Caller, mapId: int): set<int> {
    if MayViewMap(db, caller, mapId) then Shown(db, caller, mapId) else {}
  }

  // ---- The descent ----

  /** `m` lies `k` levels below `root`, and every node on the path, both ends included, is shown. */
  predicate ShownPath(nodes: NodeTable, mapId: int, shown: set<int>, root: int, m: int, k: nat)
    decreases k
  {
    && m in nodes && nodes[m].mapId == mapId && m in shown
    && if k == 0 then m == root
       else nodes[m].parentId.Some? && ShownPath(nodes, mapId, shown, root, nodes[m].parentId.value, k - 1)
  }

  ghost predicate IsLevel(nodes: NodeTable, mapId: int, shown: set<int>, root: int, level: set<int>, d: nat) {
    forall m :: m in level <==> ShownPath(nodes, mapId, shown, root, m, d)
  }

  lemma {:induction false} PathPrefix(nodes: NodeTable, mapId: int, shown: set<int>, root: int, m: int, k: nat, d: nat)
    returns (a: int)
    requires ShownPath(nodes, mapId, shown, root, m, k) && d <= k
    ensures ShownPath(nodes, mapId, shown, root, a, d)
    decreases k
  {
    a := m;
    if d == k {
    } else {
      a := PathPrefix(nodes, mapId, shown, root, nodes[m].parentId.value, k - 1, d);
    }
  }

  lemma {:induction false} RoundsMeaning(nodes: NodeTable, mapId: int, shown: set<int>, root: int,
                                         level: set<int>, d: nat, m: int, k: nat)
    requires d <= MAX_NODE_DEPTH && IsLevel(nodes, mapId, shown, root, level, d)
    ensures Row(m, k) in Rounds(nodes, mapId, shown, level, d) <==>
            d <= k <= MAX_NODE_DEPTH && ShownPath(nodes, mapId, shown, root, m, k)
    decreases MAX_NODE_DEPTH - d
  {
    if level == {} || d == MAX_NODE_DEPTH {
      if d <= k && ShownPath(nodes, mapId, shown, root, m, k) {
        var a := PathPrefix(nodes, mapId, shown, root, m, k, d);
      }
    } else {
      var next := NextLevel(nodes, mapId, shown, level);
      assert IsLevel(nodes, mapId, shown, root, next, d + 1);
      RoundsMeaning(nodes, mapId, shown, root, next, d + 1, m, k);
    }
  }

  /**
   The response holds exactly the nodes within 15 levels of the root whose whole path from the root
   is shown, at the depth of that path. A hidden node cuts off everything below it.
   */
  lemma SubtreeMeaning(nodes: NodeTable, mapId: int, shown: set<int>, id: int, m: int, k: nat)
    ensures Row(m, k) in SubtreeRows(nodes, mapId, shown, id) <==>
            k <= MAX_NODE_DEPTH && ShownPath(nodes, mapId, shown, id, m, k)
  {
    var level := if id in nodes && nodes[id].mapId == mapId && id in shown then {id} else {};
    assert IsLevel(nodes, mapId, shown, id, level, 0);
    RoundsMeaning(nodes, mapId, shown, id, level, 0, m, k);
  }

  lemma {:induction false} ShownPathDescends(nodes: NodeTable, mapId: int, shown: set<int>, root: int, m: int, k: nat)
    requires ShownPath(nodes, mapId, shown, root, m, k)
    ensures root in nodes && nodes[root].mapId == mapId && Descends(nodes, root, m, k)
    decreases k
  {
    if k == 0 {
    } else {
      ShownPathDescends(nodes, mapId, shown, root, nodes[m].parentId.value, k - 1);
    }
  }

  /** Some node is returned twice, at different depths. */
  ghost predicate Repeats(nodes: NodeTable, mapId: int, shown: set<int>, id: int) {
    exists m, j: nat, k: nat :: j < k && Row(m, j) in SubtreeRows(nodes, mapId, shown, id)
                                      && Row(m, k) in SubtreeRows(nodes, mapId, shown, id)
  }

  lemma {:induction false} AboveRepeat(nodes: NodeTable, mapId: int, shown: set<int>, root: int, m: int, j: nat, k: nat)
    requires j < k && ShownPath(nodes, mapId, shown, root, m, j) && ShownPath(nodes, mapId, shown, root, m, k)
    ensures ShownPath(nodes, mapId, shown, root, root, k - j)
    decreases j
  {
    if j == 0 {
    } else {
      AboveRepeat(nodes, mapId, shown, root, nodes[m].parentId.value, j - 1, k - 1);
    }
  }

  /** `UNION ALL` repeats a node exactly when the root lies below itself, on shown nodes, within 15 levels. */
  lemma RepeatsIff(nodes: NodeTable, mapId: int, shown: set<int>, id: int)
    ensures Repeats(nodes, mapId, shown, id) <==>
            exists k: nat :: 0 < k <= MAX_NODE_DEPTH && ShownPath(nodes, mapId, shown, id, id, k)
  {
    if Repeats(nodes, mapId, shown, id) {
      var m: int, j: nat, k: nat :| j < k && Row(m, j) in SubtreeRows(nodes, mapId, shown, id)
                                          && Row(m, k) in SubtreeRows(nodes, mapId, shown, id);
      SubtreeMeaning(nodes, mapId, shown, id, m, j);
      SubtreeMeaning(nodes, mapId, shown, id, m, k);
      AboveRepeat(nodes, mapId, shown, id, m, j, k);
    }
    if k: nat :| 0 < k <= MAX_NODE_DEPTH && ShownPath(nodes, mapId, shown, id, id, k) {
      SubtreeMeaning(nodes, mapId, shown, id, id, 0);
      SubtreeMeaning(nodes, mapId, shown, id, id, k);
      assert Row(id, 0) in SubtreeRows(nodes, mapId, shown, id);
    }
  }

  /** In an acyclic table each node is returned once: its depth is determined. */
  lemma SubtreeOnce(nodes: NodeTable, mapId: int, shown: set<int>, id: int, m: int, j: nat, k: nat)
    requires Acyclic(nodes)
    requires Row(m, j) in SubtreeRows(nodes, mapId, shown, id) && Row(m, k) in SubtreeRows(nodes, mapId, shown, id)
    ensures j == k
  {
    SubtreeMeaning(nodes, mapId, shown, id, m, j);
    SubtreeMeaning(nodes, mapId, shown, id, m, k);
    ShownPathDescends(nodes, mapId, shown, id, m, j);
    ShownPathDescends(nodes, mapId, shown, id, m, k);
    GroundedNotOnMapCycle(nodes, id);
    DescendsOnce(nodes, id, m, j, k);
  }

  /** A root that the caller does not see, or that is missing, gives the empty response; any other is in it. */
  lemma EmptyIffRootHidden(db: Db, caller: Caller, mapId: int, id: int)
    ensures var rows := SubtreeRows(db.nodes, mapId, ShownTo(db, caller, mapId), id);
            if id in ListNodes(db, caller, mapId, AnyParent) then Row(id, 0) in rows else rows == {}
  {
    var shown := ShownTo(db, caller, mapId);
    if MayViewMap(db, caller, mapId) { ListedAll(db, caller, mapId); }
    ShownMeaning(db, caller, mapId, id);
    SubtreeMeaning(db.nodes, mapId, shown, id, id, 0);
  }

  // ---- Paging ----

  /** The rows of a page by id, the parent link emitted with each, and the cursor of the next page. */
  datatype Page = BadRequest | NotFound | Page(items: seq<int>, links: seq<Option<int>>, next: Option<int>)

  const MAX_LIMIT := 500

  /** `ORDER BY id ASC` over the rows, when none repeats. */
  function SubtreeIds(nodes: NodeTable, mapId: int, shown: set<int>, id: int): seq<int> {
    Order.Ascending(set r | r in SubtreeRows(nodes, mapId, shown, id) :: r.id)
  }

  /** `WHERE id > ?` over an increasing sequence: where the rows after the cursor begin. */
  function Skip(q: seq<int>, cursor: int): (i: nat)
    ensures i <= |q|
    ensures i < |q| ==> q[i] > cursor
    ensures i > 0 ==> q[i - 1] <= cursor
  {
    if q == [] || q[|q| - 1] <= cursor then |q| else Skip'(q, cursor, |q| - 1)
  }

  function Skip'(q: seq<int>, cursor: int, hi: nat): (i: nat)
    requires hi < |q| && q[hi] > cursor
    ensures i <= hi && q[i] > cursor && (i > 0 ==> q[i - 1] <= cursor)
    decreases hi
  {
    if hi > 0 && q[hi - 1] > cursor then Skip'(q, cursor, hi - 1) else hi
  }

  /** `LIMIT limit + 1`: the extra row only tells whether there is more. */
  function Fetched(q: seq<int>, cursor: int, limit: nat): seq<int> {
    var i := Skip(q, cursor);
    if |q| - i > limit + 1 then q[i..i + limit + 1] else q[i..]
  }

  /** Below the root a link is dropped when the parent is not among the fetched rows. */
  function PageLink(nodes: NodeTable, root: int, m: int, fetched: seq<int>): Option<int> {
    if m !in nodes then None
    else if m != root && nodes[m].parentId.Some? && nodes[m].parentId.value !in fetched then None
    else nodes[m].parentId
  }

  function PageLinks(nodes: NodeTable, root: int, items: seq<int>, fetched: seq<int>): (links: seq<Option<int>>)
    ensures |links| == |items|
    ensures forall i :: 0 <= i < |items| ==> links[i] == PageLink(nodes, root, items[i], fetched)
  {
    seq(|items|, i requires 0 <= i < |items| => PageLink(nodes, root, items[i], fetched))
  }

  /** A page of the subtree of `root`, whose ids in increasing order are `q`. */
  function GetPage(nodes: NodeTable, root: int, q: seq<int>, cursor: int, limit: int): Page {
    if !(1 <= limit <= MAX_LIMIT) then BadRequest
    else
      var fetched := Fetched(q, cursor, limit);
      var hasMore := |fetched| > limit;
      var items := if hasMore then fetched[..limit] else fetched;
      if items == [] then NotFound
      else Page(items, PageLinks(nodes, root, items, fetched), if hasMore then Some(items[|items| - 1]) else None)
  }

  /** What a client collects that follows `nextCursor` until it is null. */
  function Collect(nodes: NodeTable, root: int, q: seq<int>, cursor: int, limit: int): seq<int>
    requires Order.StrictlyAscending(q)
    decreases |q| - Skip(q, cursor)
  {
    var page := GetPage(nodes, root, q, cursor, limit);
    if !page.Page? then []
    else if page.next.None? then page.items
    else
      NextPage(nodes, root, q, cursor, limit);
      page.items + Collect(nodes, root, q, page.next.value, limit)
  }

  lemma PageShape(nodes: NodeTable, root: int, q: seq<int>, cursor: int, limit: int)
    requires 1 <= limit <= MAX_LIMIT
    ensures var i, page := Skip(q, cursor), GetPage(nodes, root, q, cursor, limit);
            if i == |q| then page == NotFound
            else
              && page.Page? && page.links == PageLinks(nodes, root, page.items, Fetched(q, cursor, limit))
              && if |q| - i <= limit then page.items == q[i..] && page.next == None
                 else page.items == q[i..i + limit] && page.next == Some(q[i + limit - 1])
  {
    FetchedShape(q, cursor, limit);
  }

  lemma FetchedShape(q: seq<int>, cursor: int, limit: nat)
    requires limit > 0
    ensures var i, fetched := Skip(q, cursor), Fetched(q, cursor, limit);
            if |q| - i <= limit then fetched == q[i..]
            else |fetched| == limit + 1 && fetched[..limit] == q[i..i + limit] && fetched[limit - 1] == q[i + limit - 1]
  {
    var i, fetched := Skip(q, cursor), Fetched(q, cursor, limit);
    if |q| - i > limit {
      assert fetched[..limit] == q[i..i + limit];
    }
  }

  /** The page after a cursor starts right behind the page that gave the cursor, and it is not empty. */
  lemma NextPage(nodes: NodeTable, root: int, q: seq<int>, cursor: int, limit: int)
    requires Order.StrictlyAscending(q)
    requires GetPage(nodes, root, q, cursor, limit).Page? && GetPage(nodes, root, q, cursor, limit).next.Some?
    ensures var page, i := GetPage(nodes, root, q, cursor, limit), Skip(q, cursor);
            && i + limit < |q| && page.items == q[i..i + limit]
            && Skip(q, page.next.value) == i + limit
            && GetPage(nodes, root, q, page.next.value, limit).Page?
  {
    var i := Skip(q, cursor);
    PageShape(nodes, root, q, cursor, limit);
    SkipElement(q, i + limit - 1);
    PageShape(nodes, root, q, q[i + limit - 1], limit);
  }

  /** The element at rank `i` is skipped exactly with its predecessors. */
  lemma SkipElement(q: seq<int>, i: nat)
    requires Order.StrictlyAscending(q) && i < |q|
    ensures Skip(q, q[i]) == i + 1
  {
    var j := Skip(q, q[i]);
    assert j < |q| ==> q[j] > q[i];
    assert j > 0 ==> q[j - 1] <= q[i];
  }

  lemma {:induction false} CollectIsRest(nodes: NodeTable, root: int, q: seq<int>, cursor: int, limit: int)
    requires Order.StrictlyAscending(q) && 1 <= limit <= MAX_LIMIT
    ensures Collect(nodes, root, q, cursor, limit) == q[Skip(q, cursor)..]
    decreases |q| - Skip(q, cursor)
  {
    if |q| - Skip(q, cursor) <= limit {
      CollectLast(nodes, root, q, cursor, limit);
    } else {
      var next := CollectMore(nodes, root, q, cursor, limit);
      CollectIsRest(nodes, root, q, next, limit);
    }
  }

  lemma CollectMore(nodes: NodeTable, root: int, q: seq<int>, cursor: int, limit: int) returns (next: int)
    requires Order.StrictlyAscending(q) && 1 <= limit <= MAX_LIMIT && |q| - Skip(q, cursor) > limit
    ensures Skip(q, next) > Skip(q, cursor)
    ensures Collect(nodes, root, q, next, limit) == q[Skip(q, next)..] ==>
              Collect(nodes, root, q, cursor, limit) == q[Skip(q, cursor)..]
  {
    var i := Skip(q, cursor);
    next := q[i + limit - 1];
    CollectStep(nodes, root, q, cursor, limit);
    SplitRest(q, i, limit);
  }

  lemma CollectStep(nodes: NodeTable, root: int, q: seq<int>, cursor: int, limit: int)
    requires Order.StrictlyAscending(q) && 1 <= limit <= MAX_LIMIT && |q| - Skip(q, cursor) > limit
    ensures var i := Skip(q, cursor);
            && Skip(q, q[i + limit - 1]) == i + limit
            && Collect(nodes, root, q, cursor, limit)
               == q[i..i + limit] + Collect(nodes, root, q, q[i + limit - 1], limit)
  {
    PageShape(nodes, root, q, cursor, limit);
    NextPage(nodes, root, q, cursor, limit);
  }

  lemma CollectLast(nodes: NodeTable, root: int, q: seq<int>, cursor: int, limit: int)
    requires Order.StrictlyAscending(q) && 1 <= limit <= MAX_LIMIT && |q| - Skip(q, cursor) <= limit
    ensures Collect(nodes, root, q, cursor, limit) == q[Skip(q, cursor)..]
  {
    PageShape(nodes, root, q, cursor, limit);
  }

  lemma SplitRest(q: seq<int>, i: nat, n: nat)
    requires i + n <= |q|
    ensures q[i..] == q[i..i + n] + q[i + n..]
  {}

  lemma SubtreeIdsMeaning(nodes: NodeTable, mapId: int, shown: set<int>, id: int, m: int)
    ensures m in SubtreeIds(nodes, mapId, shown, id) <==>
            exists k: nat :: k <= MAX_NODE_DEPTH && ShownPath(nodes, mapId, shown, id, m, k)
  {
    var rows := SubtreeRows(nodes, mapId, shown, id);
    var ids := set r | r in rows :: r.id;
    if m in ids {
      var r :| r in rows && r.id == m;
      SubtreeMeaning(nodes, mapId, shown, id, m, r.depth);
    }
    if k: nat :| k <= MAX_NODE_DEPTH && ShownPath(nodes, mapId, shown, id, m, k) {
      InSubtreeIds(nodes, mapId, shown, id, m, k);
    }
  }

  lemma InSubtreeIds(nodes: NodeTable, mapId: int, shown: set<int>, id: int, m: int, k: nat)
    requires k <= MAX_NODE_DEPTH && ShownPath(nodes, mapId, shown, id, m, k)
    ensures m in SubtreeIds(nodes, mapId, shown, id)
  {
    var ids := set r | r in SubtreeRows(nodes, mapId, shown, id) :: r.id;
    SubtreeMeaning(nodes, mapId, shown, id, m, k);
    assert Row(m, k).id in ids;
  }

  lemma {:induction false} RowsAreIds(rows: set<Row>, ids: set<int>)
    requires forall x :: x in ids <==> exists k: nat :: Row(x, k) in rows
    requires forall r, s :: r in rows && s in rows && r.id == s.id ==> r == s
    ensures |ids| == |rows|
    decreases |rows|
  {
    if rows == {} {
      assert forall x :: x !in ids;
    } else {
      var r := Order.Member(rows);
      assert Row(r.id, r.depth) in rows;
      forall x ensures x in ids - {r.id} <==> exists k: nat :: Row(x, k) in rows - {r} {
        if k: nat :| x in ids - {r.id} && Row(x, k) in rows { assert Row(x, k) in rows - {r}; }
        if k: nat :| Row(x, k) in rows - {r} { assert Row(x, k) in rows; }
      }
      RowsAreIds(rows - {r}, ids - {r.id});
    }
  }

  /** When no node repeats, the increasing sequence of ids is the result, row for row. */
  lemma IdsAreRows(nodes: NodeTable, mapId: int, shown: set<int>, id: int)
    requires !Repeats(nodes, mapId, shown, id)
    ensures |SubtreeIds(nodes, mapId, shown, id)| == |SubtreeRows(nodes, mapId, shown, id)|
  {
    var rows := SubtreeRows(nodes, mapId, shown, id);
    var ids := set r | r in rows :: r.id;
    forall x ensures x in ids <==> exists k: nat :: Row(x, k) in rows {
      if r :| r in rows && r.id == x { assert Row(x, r.depth) in rows; }
      if k: nat :| Row(x, k) in rows { assert Row(x, k).id == x; }
    }
    forall r, s | r in rows && s in rows && r.id == s.id ensures r == s {
      assert Row(r.id, r.depth) in rows && Row(r.id, s.depth) in rows;
    }
    RowsAreIds(rows, ids);
  }

  lemma NothingSkipped(nodes: NodeTable, mapId: int, shown: set<int>, id: int)
    requires forall n :: n in nodes ==> n > 0
    ensures Skip(SubtreeIds(nodes, mapId, shown, id), 0) == 0
  {
    var q := SubtreeIds(nodes, mapId, shown, id);
    if q != [] {
      var first := q[0];
      assert first in q;
      SubtreeIdsMeaning(nodes, mapId, shown, id, first);
    }
  }

  /**
   Paging from cursor 0 with any legal limit collects the whole subtree, row for row and in id order,
   without gap or repeat, whatever is shown.
   */
  lemma PagingIsComplete(nodes: NodeTable, mapId: int, shown: set<int>, id: int, limit: int)
    requires forall n :: n in nodes ==> n > 0
    requires 1 <= limit <= MAX_LIMIT && !Repeats(nodes, mapId, shown, id)
    ensures Collect(nodes, id, SubtreeIds(nodes, mapId, shown, id), 0, limit) == SubtreeIds(nodes, mapId, shown, id)
    ensures |SubtreeIds(nodes, mapId, shown, id)| == |SubtreeRows(nodes, mapId, shown, id)|
  {
    var q := SubtreeIds(nodes, mapId, shown, id);
    NothingSkipped(nodes, mapId, shown, id);
    CollectIsRest(nodes, id, q, 0, limit);
    assert q[0..] == q;
    IdsAreRows(nodes, mapId, shown, id);
  }

  // ---- Parent links on a page ----

  /** Below the root, the parent of a returned node is returned too. */
  lemma ParentIsReturned(nodes: NodeTable, mapId: int, shown: set<int>, id: int, m: int, depth: nat) returns (p: int)
    requires 0 < depth <= MAX_NODE_DEPTH && ShownPath(nodes, mapId, shown, id, m, depth)
    ensures m in nodes && nodes[m].parentId == Some(p)
    ensures p in SubtreeIds(nodes, mapId, shown, id)
  {
    p := nodes[m].parentId.value;
    InSubtreeIds(nodes, mapId, shown, id, p, depth - 1);
  }

  /**
   Yet a page keeps the link of its `t`-th row exactly when the parent's rank in the whole subtree lies
   within the page or right behind it.
   */
  lemma PageKeepsLinkIff(nodes: NodeTable, root: int, q: seq<int>, cursor: int, limit: int, t: nat, i: nat)
    requires Order.StrictlyAscending(q) && i < |q|
    requires var page := GetPage(nodes, root, q, cursor, limit);
             page.Page? && t < |page.items| && page.items[t] != root && page.items[t] in nodes
             && nodes[page.items[t]].parentId == Some(q[i])
    ensures GetPage(nodes, root, q, cursor, limit).links[t]
            == if Skip(q, cursor) <= i <= Skip(q, cursor) + limit then Some(q[i]) else None
  {
    PageShape(nodes, root, q, cursor, limit);
    FetchedSlice(q, cursor, limit);
    InSlice(q, Skip(q, cursor), Skip(q, cursor) + |Fetched(q, cursor, limit)|, i);
  }

  const LINK := NodeRow(1, None, "n", None, None, None, false, 7)
  const CHAIN_OF_THREE: NodeTable := map[1 := LINK, 2 := LINK.(parentId := Some(1)), 3 := LINK.(parentId := Some(2))]

  lemma ChainOfThreeIds()
    ensures SubtreeIds(CHAIN_OF_THREE, 1, {1, 2, 3}, 1) == [1, 2, 3]
  {
    var nodes, shown, q := CHAIN_OF_THREE, {1, 2, 3}, [1, 2, 3];
    assert ShownPath(nodes, 1, shown, 1, 1, 0) && ShownPath(nodes, 1, shown, 1, 2, 1) && ShownPath(nodes, 1, shown, 1, 3, 2);
    forall m ensures m in SubtreeIds(nodes, 1, shown, 1) <==> m in q {
      SubtreeIdsMeaning(nodes, 1, shown, 1, m);
      if k: nat :| k <= MAX_NODE_DEPTH && ShownPath(nodes, 1, shown, 1, m, k) {
        assert m in shown && q[m - 1] == m;
        assert m in q;
      }
      if m in q {
        var k := m - 1;
        assert ShownPath(nodes, 1, shown, 1, m, k);
        InSubtreeIds(nodes, 1, shown, 1, m, k);
      }
    }
    Order.AscendingUnique(SubtreeIds(nodes, 1, shown, 1), q);
  }

  /** The root's own link, which leads out of the subtree, is always emitted. */
  lemma PageKeepsRootLink(nodes: NodeTable, root: int, q: seq<int>, cursor: int, limit: int, t: nat)
    requires root in nodes
    requires var page := GetPage(nodes, root, q, cursor, limit);
             page.Page? && t < |page.items| && page.items[t] == root
    ensures GetPage(nodes, root, q, cursor, limit).links[t] == nodes[root].parentId
  {}

  /** A limit outside 1 to 500 is refused; otherwise a page is missing exactly when nothing is left. */
  lemma PageRefusals(nodes: NodeTable, root: int, q: seq<int>, cursor: int, limit: int)
    requires Order.StrictlyAscending(q)
    ensures GetPage(nodes, root, q, cursor, limit) == BadRequest <==> limit < 1 || limit > 500
    ensures GetPage(nodes, root, q, cursor, limit) == NotFound <==>
            1 <= limit <= 500 && forall i :: 0 <= i < |q| ==> q[i] <= cursor
  {
    if 1 <= limit <= 500 {
      PageShape(nodes, root, q, cursor, limit);
    }
  }

  /** The smallest case of dropped links: a chain of three, paged one by one. */
  lemma DroppedLinks()
    ensures var q := SubtreeIds(CHAIN_OF_THREE, 1, {1, 2, 3}, 1);
            && GetPage(CHAIN_OF_THREE, 1, q, 1, 1) == Page([2], [None], Some(2))
            && GetPage(CHAIN_OF_THREE, 1, q, 2, 1) == Page([3], [None], None)
  {
    var q := [1, 2, 3];
    ChainOfThreeIds();
    PageShape(CHAIN_OF_THREE, 1, q, 1, 1);
    PageShape(CHAIN_OF_THREE, 1, q, 2, 1);
  }

  lemma FetchedSlice(q: seq<int>, cursor: int, limit: nat)
    ensures var from, fetched := Skip(q, cursor), Fetched(q, cursor, limit);
            && from + |fetched| <= |q|
            && fetched == q[from..from + |fetched|]
  {}

  lemma InSlice(q: seq<int>, from: nat, to: nat, i: nat)
    requires Order.StrictlyAscending(q) && from < to <= |q| && i < |q|
    ensures q[i] in q[from..to] <==> from <= i < to
    ensures q[i] <= q[to - 1] <==> i < to
  {
    if from <= i < to {
      assert q[from..to][i - from] == q[i];
    }
    if q[i] in q[from..to] {
      var j :| 0 <= j < to - from && q[from..to][j] == q[i];
      assert q[from + j] == q[i];
    }
  }
}
