/**
 The `descendants` query that moveNode and copyNode both start from, as the loop that a
 recursive query is: each round's rows produce the next round's, until a round is empty.

 The query has no depth bound of its own. It ends unless the root lies on a cycle of its map; then,
 and on trees beyond the database server's limit on recursion, the server fails it. A node has one
 parent, so `UNION ALL` produces each child once per round and a round can be kept as a set.
*/
module Descent {
  import opened Tables
  import opened Forest
  import Order

  /** One round: the same-map children of the nodes found in the previous round. */
  function NextLevel(nodes: NodeTable, root: int, level: set<int>): set<int>
    requires root in nodes
  {
    set c | c in nodes && nodes[c].parentId.Some? && nodes[c].parentId.value in level
            && nodes[c].mapId == nodes[root].mapId
  }

  /** `ORDER BY depth ASC, id ASC`. */
  predicate ByDepthThenId(rows: seq<int>, depths: seq<nat>)
    requires |rows| == |depths|
  {
    forall i, j :: 0 <= i < j < |rows| ==>
      depths[i] < depths[j] || (depths[i] == depths[j] && rows[i] < rows[j])
  }

  ghost predicate IsDescendantList(nodes: NodeTable, root: int, rows: seq<int>, depths: seq<nat>)
    requires root in nodes
  {
    && |rows| == |depths|
    && (forall i :: 0 <= i < |rows| ==> Descends(nodes, root, rows[i], depths[i]))
    && (forall m :: m in rows <==> m in Subtree(nodes, root))
    && ByDepthThenId(rows, depths)
    && rows != [] && rows[0] == root && depths[0] == 0
  }

  /** The rows of the first `d + 1` rounds. */
  ghost predicate ListedTo(nodes: NodeTable, root: int, rows: seq<int>, depths: seq<nat>, d: nat)
    requires root in nodes
  {
    && |rows| == |depths|
    && (forall i :: 0 <= i < |rows| ==> Descends(nodes, root, rows[i], depths[i]) && depths[i] <= d)
    && (forall m, k: nat :: k <= d && Descends(nodes, root, m, k) ==> m in rows)
    && ByDepthThenId(rows, depths)
    && rows != [] && rows[0] == root && depths[0] == 0
  }

  ghost predicate Inhabited(nodes: NodeTable, root: int, d: nat)
    requires root in nodes
  {
    exists m :: Descends(nodes, root, m, d)
  }

  /**
   The database gives up: a row lies more than `limit` levels below the root. On a cycle that
   happens whatever the limit.
   */
  ghost predicate DescentFails(nodes: NodeTable, root: int, limit: nat) {
    root in nodes && Inhabited(nodes, root, limit + 1)
  }

  lemma CycleFails(nodes: NodeTable, root: int, limit: nat)
    requires root in nodes && !DescentFails(nodes, root, limit)
    ensures !OnMapCycle(nodes, root)
  {
    if OnMapCycle(nodes, root) {
      var m := CycleReaches(nodes, root, limit + 1);
    }
  }

  lemma EmptyLevelAnswers(nodes: NodeTable, root: int, limit: nat, d: nat)
    requires root in nodes && d <= limit + 1 && forall m :: !Descends(nodes, root, m, d)
    ensures !DescentFails(nodes, root, limit) && !OnMapCycle(nodes, root)
  {
    if Inhabited(nodes, root, limit + 1) {
      var deep := limit + 1;
      var m :| Descends(nodes, root, m, deep);
      var a := DescendsUpper(nodes, root, m, deep, deep - d);
    }
    CycleFails(nodes, root, limit);
  }

  lemma InhabitedFails(nodes: NodeTable, root: int, limit: nat, level: set<int>)
    requires root in nodes && level != {} && forall m :: m in level <==> Descends(nodes, root, m, limit + 1)
    ensures DescentFails(nodes, root, limit)
  {
    var m := Order.Member(level);
    assert m in level;
  }

  method DescendantRows(nodes: NodeTable, root: int, limit: nat)
    returns (answered: bool, rows: seq<int>, depths: seq<nat>)
    requires root in nodes
    ensures answered <==> !DescentFails(nodes, root, limit)
    ensures answered ==> IsDescendantList(nodes, root, rows, depths) && !OnMapCycle(nodes, root)
  {
    var level, d := {root}, 0;
    rows, depths := [root], [0];
    while level != {}
      invariant d <= limit || level == {}
      invariant d <= limit + 1
      invariant ListedTo(nodes, root, rows, depths, d)
      invariant forall m :: m in level <==> Descends(nodes, root, m, d)
      decreases limit + 1 - d
    {
      var next := NextLevel(nodes, root, level);
      NextLevelIsNext(nodes, root, level, d);
      if next != {} && d == limit {
        InhabitedFails(nodes, root, limit, next);
        return false, rows, depths;
      }
      var sorted := Order.Ascending(next);
      ExtendListing(nodes, root, rows, depths, d, next, sorted);
      rows, depths := rows + sorted, depths + Repeat(d + 1, |sorted|);
      level, d := next, d + 1;
    }
    EmptyLevelAnswers(nodes, root, limit, d);
    ListingIsSubtree(nodes, root, d, rows, depths);
    answered := true;
  }

  function Repeat(d: nat, count: nat): (q: seq<nat>)
    ensures |q| == count && forall i :: 0 <= i < count ==> q[i] == d
  {
    seq(count, _ => d)
  }

  lemma ExtendListing(nodes: NodeTable, root: int, rows: seq<int>, depths: seq<nat>, d: nat,
                      next: set<int>, sorted: seq<int>)
    requires root in nodes && ListedTo(nodes, root, rows, depths, d)
    requires forall m :: m in next <==> Descends(nodes, root, m, d + 1)
    requires Order.StrictlyAscending(sorted) && forall m :: m in sorted <==> m in next
    ensures ListedTo(nodes, root, rows + sorted, depths + Repeat(d + 1, |sorted|), d + 1)
    ensures forall m :: m in rows + sorted <==> m in rows || m in next
  {
    var rows', depths' := rows + sorted, depths + Repeat(d + 1, |sorted|);
    forall i | 0 <= i < |rows'| ensures Descends(nodes, root, rows'[i], depths'[i]) && depths'[i] <= d + 1 {
      if i >= |rows| {
        var m := rows'[i];
        assert m == sorted[i - |rows|] && m in sorted;
      }
    }
    forall m, k: nat | k <= d + 1 && Descends(nodes, root, m, k) ensures m in rows' {
      if k <= d { assert m in rows; } else { assert m in sorted; }
    }
  }

  lemma NextLevelIsNext(nodes: NodeTable, root: int, level: set<int>, d: nat)
    requires root in nodes
    requires forall m :: m in level <==> Descends(nodes, root, m, d)
    ensures forall m :: m in NextLevel(nodes, root, level) <==> Descends(nodes, root, m, d + 1)
  {}

  /** Once a level is empty, so is every later one. */
  lemma ListingIsSubtree(nodes: NodeTable, root: int, d: nat, rows: seq<int>, depths: seq<nat>)
    requires root in nodes && ListedTo(nodes, root, rows, depths, d)
    requires forall m :: !Descends(nodes, root, m, d)
    ensures forall m :: m in rows <==> m in Subtree(nodes, root)
  {
    forall m | m in Subtree(nodes, root) ensures m in rows {
      var k: nat :| Descends(nodes, root, m, k);
      if k > d {
        var a := DescendsUpper(nodes, root, m, k, k - d);
      }
    }
    forall m | m in rows ensures m in Subtree(nodes, root) {
      var i :| 0 <= i < |rows| && rows[i] == m;
      DescendsUp(nodes, root, m, depths[i]);
    }
  }

  // ---- What the order gives copyNode ----

  /** No row is listed twice. */
  lemma RowsDistinct(nodes: NodeTable, root: int, rows: seq<int>, depths: seq<nat>, i: nat, j: nat)
    requires root in nodes && !OnMapCycle(nodes, root)
    requires IsDescendantList(nodes, root, rows, depths)
    requires i < j < |rows|
    ensures rows[i] != rows[j]
  {
    if rows[i] == rows[j] {
      DescendsOnce(nodes, root, rows[i], depths[i], depths[j]);
    }
  }

  /** Every row but the root comes after the row of its parent. */
  lemma ParentsFirst(nodes: NodeTable, root: int, rows: seq<int>, depths: seq<nat>, i: nat) returns (j: nat)
    requires root in nodes && !OnMapCycle(nodes, root)
    requires IsDescendantList(nodes, root, rows, depths)
    requires i < |rows| && rows[i] != root
    ensures j < i && rows[i] in nodes && nodes[rows[i]].parentId == Some(rows[j])
  {
    var p := nodes[rows[i]].parentId.value;
    assert Descends(nodes, root, p, depths[i] - 1);
    DescendsUp(nodes, root, p, depths[i] - 1);
    assert p in Subtree(nodes, root);
    j :| 0 <= j < |rows| && rows[j] == p;
    DescendsOnce(nodes, root, p, depths[i] - 1, depths[j]);
  }
}
