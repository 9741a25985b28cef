/**
 Effective node visibility: the bounded recursive query that every controller restates, and the
 definition it stands for, "the tags of the nearest self-or-ancestor with the override flag".
*/
module Resolver {
  import opened Tables
  import opened Forest

  // ---- The definition ----

  predicate Overrides(nodes: NodeTable, n: int) {
    n in nodes && nodes[n].visibilityOverride
  }

  /** The nearest self-or-ancestor of `n` with the override flag is `k` hops up. */
  predicate ResolvesAt(nodes: NodeTable, n: int, k: nat)
    decreases k
  {
    && n in nodes
    && if nodes[n].visibilityOverride then k == 0
       else k > 0 && nodes[n].parentId.Some? && ResolvesAt(nodes, nodes[n].parentId.value, k - 1)
  }

  /** One of the groups tagged on `n` has the user as a member. */
  predicate TagsMeet(db: Db, n: int, userId: int) {
    exists t :: t in db.nodeTags && t.0 == n && (t.1, userId) in db.dir.groupMembers
  }

  /** `n` takes its tags from `k` hops up, and they include a group of the user. */
  predicate VisibleAt(db: Db, n: int, userId: int, k: nat)
    decreases k
  {
    && n in db.nodes
    && if db.nodes[n].visibilityOverride then k == 0 && TagsMeet(db, n, userId)
       else k > 0 && db.nodes[n].parentId.Some? && VisibleAt(db, db.nodes[n].parentId.value, userId, k - 1)
  }

  /** In terms of the chain: the flag is found `k` hops up, and the tags there meet the user's groups. */
  lemma {:induction false} VisibleAtMeaning(db: Db, n: int, userId: int, k: nat)
    ensures VisibleAt(db, n, userId, k) <==>
            && ResolvesAt(db.nodes, n, k)
            && Up(db.nodes, n, k).Some? && TagsMeet(db, Up(db.nodes, n, k).value, userId)
    decreases k
  {
    if k == 0 {
    } else if n in db.nodes && !db.nodes[n].visibilityOverride && db.nodes[n].parentId.Some? {
      VisibleAtMeaning(db, db.nodes[n].parentId.value, userId, k - 1);
    }
  }

  ghost predicate EffectivelyVisible(db: Db, n: int, userId: int) {
    exists k: nat :: VisibleAt(db, n, userId, k)
  }

  ghost predicate VisibleWithin(db: Db, n: int, userId: int, hops: nat) {
    exists k: nat :: k <= hops && VisibleAt(db, n, userId, k)
  }

  // ---- The query ----

  /** A row of the `resolve` table; the other two columns are those of node `cur`. */
  datatype Row = Row(start: int, cur: int, depth: nat)

  function Anchor(starts: set<int>): set<Row> {
    set n | n in starts :: Row(n, n, 0)
  }

  /** The recursive member: one hop up from every row that has no override and is not at the bound. */
  function NextRows(nodes: NodeTable, rows: set<Row>): set<Row> {
    set r | r in rows && r.cur in nodes && !nodes[r.cur].visibilityOverride && r.depth < MAX_NODE_DEPTH
            && nodes[r.cur].parentId.Some? && nodes[r.cur].parentId.value in nodes
      :: Row(r.start, nodes[r.cur].parentId.value, r.depth + 1)
  }

  /** Each round's rows produce the next round's, until a round produces none. */
  function Rounds(nodes: NodeTable, frontier: set<Row>, d: nat): set<Row>
    requires forall r :: r in frontier ==> r.depth == d
    requires d > MAX_NODE_DEPTH ==> frontier == {}
    decreases MAX_NODE_DEPTH + 1 - d, frontier
  {
    if frontier == {} then {}
    else frontier + Rounds(nodes, NextRows(nodes, frontier), d + 1)
  }

  function Resolve(nodes: NodeTable, starts: set<int>): set<Row> {
    Rounds(nodes, Anchor(starts), 0)
  }

  /** `visible_starts`, for whatever set of nodes the anchor selects. */
  function VisibleStarts(db: Db, starts: set<int>, userId: int): set<int> {
    set r | r in Resolve(db.nodes, starts) && Overrides(db.nodes, r.cur) && TagsMeet(db, r.cur, userId)
      :: r.start
  }

  // ---- The query computes the definition ----

  /** What a row at depth `k` stands for: `k` hops up from the start, over nodes without the flag. */
  ghost predicate Walks(nodes: NodeTable, s: int, c: int, k: nat) {
    && Up(nodes, s, k) == Some(c)
    && forall j: nat :: j < k ==> Up(nodes, s, j).Some? && !Overrides(nodes, Up(nodes, s, j).value)
  }

  lemma WalksStep(nodes: NodeTable, s: int, c: int, k: nat)
    ensures Walks(nodes, s, c, k + 1) <==>
            exists b :: Walks(nodes, s, b, k) && b in nodes && !nodes[b].visibilityOverride
                        && nodes[b].parentId == Some(c) && c in nodes
  {
    UpAdd(nodes, s, k, 1);
    match Up(nodes, s, k)
    case None =>
    case Some(b) =>
      UpIsNode(nodes, s, k);
      assert Up(nodes, s, k + 1) == Up(nodes, b, 1);
      if Walks(nodes, s, c, k + 1) {
        UpIsNode(nodes, s, k + 1);
        assert !Overrides(nodes, Up(nodes, s, k).value);
        assert Walks(nodes, s, b, k);
      }
  }

  lemma WalksPrefix(nodes: NodeTable, s: int, c: int, k: nat, d: nat)
    requires d <= k
    ensures Walks(nodes, s, c, k) ==> exists b :: Walks(nodes, s, b, d)
  {
    UpAdd(nodes, s, d, k - d);
    if Walks(nodes, s, c, k) {
      assert Walks(nodes, s, Up(nodes, s, d).value, d);
    }
  }

  /** The rows of one round, exactly. */
  ghost predicate IsRound(nodes: NodeTable, starts: set<int>, rows: set<Row>, d: nat) {
    forall r :: r in rows <==> r.depth == d && r.start in starts && Walks(nodes, r.start, r.cur, d)
  }

  lemma NextRound(nodes: NodeTable, starts: set<int>, rows: set<Row>, d: nat)
    requires d < MAX_NODE_DEPTH && IsRound(nodes, starts, rows, d)
    ensures IsRound(nodes, starts, NextRows(nodes, rows), d + 1)
  {
    forall r: Row
      ensures r in NextRows(nodes, rows) <==>
              r.depth == d + 1 && r.start in starts && Walks(nodes, r.start, r.cur, d + 1)
    {
      WalksStep(nodes, r.start, r.cur, d);
      if r.depth == d + 1 && r.start in starts && Walks(nodes, r.start, r.cur, d + 1) {
        var b :| Walks(nodes, r.start, b, d) && b in nodes && !nodes[b].visibilityOverride
                 && nodes[b].parentId == Some(r.cur) && r.cur in nodes;
        assert Row(r.start, b, d) in rows;
      }
    }
  }

  lemma {:induction false} RoundsMeaning(nodes: NodeTable, starts: set<int>, rows: set<Row>, d: nat)
    requires d <= MAX_NODE_DEPTH && IsRound(nodes, starts, rows, d)
    ensures forall r :: r in Rounds(nodes, rows, d) <==>
              d <= r.depth <= MAX_NODE_DEPTH && r.start in starts && Walks(nodes, r.start, r.cur, r.depth)
    decreases MAX_NODE_DEPTH - d
  {
    var next := NextRows(nodes, rows);
    if rows == {} {
      forall r: Row | d <= r.depth && r.start in starts ensures !Walks(nodes, r.start, r.cur, r.depth) {
        WalksPrefix(nodes, r.start, r.cur, r.depth, d);
        assert forall b :: Walks(nodes, r.start, b, d) ==> Row(r.start, b, d) in rows;
      }
    } else if d < MAX_NODE_DEPTH {
      NextRound(nodes, starts, rows, d);
      RoundsMeaning(nodes, starts, next, d + 1);
    }
  }

  /** The `resolve` table: from each start, its chain up to the nearest flag or the 15-hop bound. */
  lemma ResolveMeaning(nodes: NodeTable, starts: set<int>, s: int, c: int, k: nat)
    requires starts <= nodes.Keys
    ensures Row(s, c, k) in Resolve(nodes, starts) <==>
            s in starts && k <= MAX_NODE_DEPTH && Walks(nodes, s, c, k)
  {
    assert IsRound(nodes, starts, Anchor(starts), 0);
    RoundsMeaning(nodes, starts, Anchor(starts), 0);
  }

  /** "Nearest" spelled out: the flag is set `k` hops up and nowhere below. */
  lemma {:induction false} ResolvesAtIsNearest(nodes: NodeTable, n: int, k: nat)
    ensures ResolvesAt(nodes, n, k) <==>
            exists c :: Walks(nodes, n, c, k) && Overrides(nodes, c)
    decreases k
  {
    if n in nodes && !nodes[n].visibilityOverride && k > 0 && nodes[n].parentId.Some? {
      var p := nodes[n].parentId.value;
      ResolvesAtIsNearest(nodes, p, k - 1);
      forall c ensures Walks(nodes, n, c, k) <==> Walks(nodes, p, c, k - 1) {
        assert forall j: nat :: j < k - 1 ==> Up(nodes, n, j + 1) == Up(nodes, p, j);
        if Walks(nodes, p, c, k - 1) {
          forall j: nat | j < k ensures Up(nodes, n, j).Some? && !Overrides(nodes, Up(nodes, n, j).value) {
            if j > 0 { assert Up(nodes, n, j) == Up(nodes, p, j - 1); }
          }
        }
      }
    } else if n in nodes && nodes[n].visibilityOverride {
      assert Up(nodes, n, 0) == Some(n);
      assert k == 0 ==> Walks(nodes, n, n, 0);
    }
  }

  /**
   The bounded query refines the definition: a selected node is listed exactly when its nearest
   flag lies within 15 hops and that node's tags meet the user's groups.
   */
  lemma BoundedResolver(db: Db, starts: set<int>, n: int, userId: int)
    requires starts <= db.nodes.Keys
    ensures n in VisibleStarts(db, starts, userId) <==>
            n in starts && VisibleWithin(db, n, userId, MAX_NODE_DEPTH)
  {
    var nodes := db.nodes;
    if n in VisibleStarts(db, starts, userId) {
      var r :| r in Resolve(nodes, starts) && Overrides(nodes, r.cur) && TagsMeet(db, r.cur, userId) && r.start == n;
      ResolveMeaning(nodes, starts, n, r.cur, r.depth);
      ResolvesAtIsNearest(nodes, n, r.depth);
      VisibleAtMeaning(db, n, userId, r.depth);
    }
    if n in starts && VisibleWithin(db, n, userId, MAX_NODE_DEPTH) {
      var k: nat :| k <= MAX_NODE_DEPTH && VisibleAt(db, n, userId, k);
      VisibleAtMeaning(db, n, userId, k);
      ResolvesAtIsNearest(nodes, n, k);
      var c :| Walks(nodes, n, c, k) && Overrides(nodes, c);
      ResolveMeaning(nodes, starts, n, c, k);
      assert Row(n, c, k) in Resolve(nodes, starts);
    }
  }

  // ---- Bounded against unbounded ----

  lemma {:induction false} ResolvesOnce(nodes: NodeTable, n: int, j: nat, k: nat)
    requires ResolvesAt(nodes, n, j) && ResolvesAt(nodes, n, k)
    ensures j == k
    decreases j
  {
    if j > 0 && k > 0 {
      ResolvesOnce(nodes, nodes[n].parentId.value, j - 1, k - 1);
    }
  }

  lemma {:induction false} ResolvesUp(nodes: NodeTable, n: int, k: nat)
    requires ResolvesAt(nodes, n, k)
    ensures Up(nodes, n, k).Some? && Overrides(nodes, Up(nodes, n, k).value)
    decreases k
  {
    if k == 0 {
    } else {
      ResolvesUp(nodes, nodes[n].parentId.value, k - 1);
    }
  }

  /** The unbounded definition as a recursion along `parent_id`. */
  lemma EffectiveRecursion(db: Db, n: int, userId: int)
    requires n in db.nodes
    ensures EffectivelyVisible(db, n, userId) <==>
            if db.nodes[n].visibilityOverride then TagsMeet(db, n, userId)
            else db.nodes[n].parentId.Some? && EffectivelyVisible(db, db.nodes[n].parentId.value, userId)
  {
    if db.nodes[n].visibilityOverride {
      assert TagsMeet(db, n, userId) ==> VisibleAt(db, n, userId, 0);
    } else if db.nodes[n].parentId.Some? {
      var p := db.nodes[n].parentId.value;
      if EffectivelyVisible(db, p, userId) {
        var k: nat :| VisibleAt(db, p, userId, k);
        assert VisibleAt(db, n, userId, k + 1);
      }
      if EffectivelyVisible(db, n, userId) {
        var k: nat :| VisibleAt(db, n, userId, k);
        assert VisibleAt(db, p, userId, k - 1);
      }
    }
  }

  /** The bound only ever hides; it hides exactly the nodes that take a user's tags from beyond it. */
  lemma BoundOnlyHides(db: Db, n: int, userId: int, hops: nat)
    ensures VisibleWithin(db, n, userId, hops) <==>
            EffectivelyVisible(db, n, userId) && !exists k: nat :: k > hops && ResolvesAt(db.nodes, n, k)
  {
    if VisibleWithin(db, n, userId, hops) {
      var j: nat :| j <= hops && VisibleAt(db, n, userId, j);
      VisibleAtMeaning(db, n, userId, j);
      if k: nat :| k > hops && ResolvesAt(db.nodes, n, k) {
        ResolvesOnce(db.nodes, n, j, k);
      }
    }
    if EffectivelyVisible(db, n, userId) {
      var j: nat :| VisibleAt(db, n, userId, j);
      VisibleAtMeaning(db, n, userId, j);
      if j > hops {
        assert exists k: nat :: k > hops && ResolvesAt(db.nodes, n, k) by { assert ResolvesAt(db.nodes, n, j); }
      } else {
        assert VisibleWithin(db, n, userId, hops);
      }
    }
  }

  /** On chains of at most 15 links the bounded resolver is the unbounded one. */
  lemma ShallowIsExact(db: Db, n: int, userId: int)
    requires Up(db.nodes, n, MAX_NODE_DEPTH + 1) == None
    ensures VisibleWithin(db, n, userId, MAX_NODE_DEPTH) <==> EffectivelyVisible(db, n, userId)
  {
    BoundOnlyHides(db, n, userId, MAX_NODE_DEPTH);
    if k: nat :| k > MAX_NODE_DEPTH && ResolvesAt(db.nodes, n, k) {
      ResolvesUp(db.nodes, n, k);
      UpMonotone(db.nodes, n, MAX_NODE_DEPTH + 1, k);
    }
  }
}
