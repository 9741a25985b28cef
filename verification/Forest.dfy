/**
 Parent chains, and what it means for the `nodes` table to hold a forest on every map.
*/
module Forest {
  import opened Tables

  /** The `k`-th ancestor of `n` along `parent_id` (`n` itself for `k == 0`), if the chain is that long. */
  function Up(nodes: NodeTable, n: int, k: nat): Option<int>
    decreases k
  {
    if n !in nodes then None
    else if k == 0 then Some(n)
    else match nodes[n].parentId
      case None => None
      case Some(p) => Up(nodes, p, k - 1)
  }

  /** The parent chain of `n` ends. */
  ghost predicate Grounded(nodes: NodeTable, n: int) {
    exists d: nat :: Up(nodes, n, d) == None
  }

  ghost predicate Acyclic(nodes: NodeTable) {
    forall n :: n in nodes ==> Grounded(nodes, n)
  }

  /** `parent_id` must reference a node on the same map. */
  predicate SameMap(nodes: NodeTable) {
    forall n :: n in nodes && nodes[n].parentId.Some? && nodes[n].parentId.value in nodes ==>
      nodes[nodes[n].parentId.value].mapId == nodes[n].mapId
  }

  ghost predicate IsForest(nodes: NodeTable) {
    ParentsExist(nodes) && SameMap(nodes) && Acyclic(nodes)
  }

  /** `n` lies `d` levels below its top-level node. */
  ghost predicate HasDepth(nodes: NodeTable, n: int, d: nat) {
    Up(nodes, n, d).Some? && Up(nodes, n, d + 1) == None
  }

  // ---- Walking up ----

  lemma {:induction false} UpAdd(nodes: NodeTable, n: int, j: nat, k: nat)
    ensures Up(nodes, n, j + k) ==
            match Up(nodes, n, j) { case None => None case Some(a) => Up(nodes, a, k) }
    decreases j
  {
    if j == 0 {
    } else if n in nodes && nodes[n].parentId.Some? {
      UpAdd(nodes, nodes[n].parentId.value, j - 1, k);
    }
  }

  lemma UpMonotone(nodes: NodeTable, n: int, j: nat, k: nat)
    requires Up(nodes, n, j) == None && j <= k
    ensures Up(nodes, n, k) == None
  {
    UpAdd(nodes, n, j, k - j);
  }

  lemma {:induction false} UpIsNode(nodes: NodeTable, n: int, k: nat)
    ensures Up(nodes, n, k).Some? ==> Up(nodes, n, k).value in nodes
    decreases k
  {
    if k == 0 {
    } else if n in nodes && nodes[n].parentId.Some? {
      UpIsNode(nodes, nodes[n].parentId.value, k - 1);
    }
  }

  lemma GroundedFromParent(nodes: NodeTable, n: int)
    requires n in nodes
    requires nodes[n].parentId.Some? ==> Grounded(nodes, nodes[n].parentId.value)
    ensures Grounded(nodes, n)
  {
    match nodes[n].parentId
    case None => assert Up(nodes, n, 1) == None;
    case Some(p) =>
      var d: nat :| Up(nodes, p, d) == None;
      assert Up(nodes, n, d + 1) == None;
  }

  /** A node whose chain ends is not among its own ancestors. */
  lemma {:induction false} NotOwnAncestor(nodes: NodeTable, n: int, d: nat, k: nat)
    requires Up(nodes, n, d) == None && n in nodes && k > 0
    ensures Up(nodes, n, k) != Some(n)
    decreases d
  {
    if k <= d {
      UpAdd(nodes, n, k, d - k);
      if Up(nodes, n, k) == Some(n) {
        NotOwnAncestor(nodes, n, d - k, k);
      }
    } else {
      UpMonotone(nodes, n, d, k);
    }
  }

  /** Going up from `m`, `id` is first met after `d` hops. */
  predicate MeetsAfter(nodes: NodeTable, id: int, m: int, d: nat)
    decreases d
  {
    && m in nodes
    && if d == 0 then m == id
       else m != id && nodes[m].parentId.Some? && MeetsAfter(nodes, id, nodes[m].parentId.value, d - 1)
  }

  lemma {:induction false} MeetsUp(nodes: NodeTable, id: int, m: int, d: nat)
    requires MeetsAfter(nodes, id, m, d)
    ensures Up(nodes, m, d) == Some(id) && id in nodes
    decreases d
  {
    if d == 0 {
    } else {
      MeetsUp(nodes, id, nodes[m].parentId.value, d - 1);
    }
  }

  lemma {:induction false} MeetsOnce(nodes: NodeTable, id: int, m: int, d: nat, e: nat)
    requires MeetsAfter(nodes, id, m, d) && MeetsAfter(nodes, id, m, e)
    ensures d == e
    decreases d
  {
    if d == 0 {
    } else {
      MeetsOnce(nodes, id, nodes[m].parentId.value, d - 1, e - 1);
    }
  }

  /** Whatever is reached at all is first met somewhere. */
  lemma {:induction false} UpMeets(nodes: NodeTable, id: int, m: int, k: nat) returns (d: nat)
    requires Up(nodes, m, k) == Some(id)
    ensures d <= k && MeetsAfter(nodes, id, m, d)
    decreases k
  {
    if m == id {
      d := 0;
    } else {
      d := UpMeets(nodes, id, nodes[m].parentId.value, k - 1);
      d := d + 1;
    }
  }

  /** And on a chain that ends it is met once. */
  lemma UpMeetsExactly(nodes: NodeTable, id: int, m: int, k: nat)
    requires Up(nodes, m, k) == Some(id) && Grounded(nodes, id)
    ensures MeetsAfter(nodes, id, m, k)
  {
    var d := UpMeets(nodes, id, m, k);
    MeetsUp(nodes, id, m, d);
    if d < k {
      UpAdd(nodes, m, d, k - d);
      var e: nat :| Up(nodes, id, e) == None;
      NotOwnAncestor(nodes, id, e, k - d);
    }
  }

  lemma {:induction false} MeetsUpper(nodes: NodeTable, id: int, m: int, d: nat, e: nat) returns (a: int)
    requires MeetsAfter(nodes, id, m, d) && e <= d
    ensures MeetsAfter(nodes, id, a, e)
    decreases d
  {
    if d == e {
      a := m;
    } else {
      a := MeetsUpper(nodes, id, nodes[m].parentId.value, d - 1, e);
    }
  }

  /** Changing the link of `id` alone changes nothing on the way to it. */
  lemma {:induction false} MeetsKept(nodes: NodeTable, nodes': NodeTable, id: int, m: int, d: nat)
    requires forall n :: n in nodes ==> n in nodes' && (n != id ==> nodes'[n].parentId == nodes[n].parentId)
    requires MeetsAfter(nodes, id, m, d)
    ensures MeetsAfter(nodes', id, m, d)
    decreases d
  {
    if d == 0 {
    } else {
      MeetsKept(nodes, nodes', id, nodes[m].parentId.value, d - 1);
    }
  }

  // ---- Grounded chains against "no node is its own ancestor" ----

  ghost predicate NoCycle(nodes: NodeTable) {
    forall n, k: nat :: n in nodes && k > 0 ==> Up(nodes, n, k) != Some(n)
  }

  /** The first `k` nodes on the parent chain of `n`. */
  ghost function Trail(nodes: NodeTable, n: int, k: nat): set<int>
    decreases k
  {
    if k == 0 || n !in nodes then {}
    else if nodes[n].parentId.None? then {n}
    else {n} + Trail(nodes, nodes[n].parentId.value, k - 1)
  }

  lemma {:induction false} TrailMember(nodes: NodeTable, n: int, k: nat, x: int) returns (j: nat)
    requires x in Trail(nodes, n, k)
    ensures Up(nodes, n, j) == Some(x) && x in nodes
    decreases k
  {
    if x == n {
      j := 0;
    } else {
      j := TrailMember(nodes, nodes[n].parentId.value, k - 1, x);
      j := j + 1;
    }
  }

  lemma {:induction false} TrailSize(nodes: NodeTable, n: int, k: nat)
    requires NoCycle(nodes)
    requires k > 0 ==> Up(nodes, n, k - 1).Some?
    ensures |Trail(nodes, n, k)| == k
    decreases k
  {
    if k > 1 {
      var p := nodes[n].parentId.value;
      TrailSize(nodes, p, k - 1);
      if n in Trail(nodes, p, k - 1) {
        var j := TrailMember(nodes, p, k - 1, n);
        assert false by { var again := Up(nodes, n, j + 1); }
      }
    }
  }

  lemma NoCycleImpliesGrounded(nodes: NodeTable, n: int)
    requires NoCycle(nodes)
    ensures Grounded(nodes, n)
  {
    var k := |nodes.Keys|;
    if Up(nodes, n, k).Some? {
      TrailSize(nodes, n, k + 1);
      var trail := Trail(nodes, n, k + 1);
      forall x | x in trail ensures x in nodes.Keys {
        var j := TrailMember(nodes, n, k + 1, x);
      }
      SubsetSize(trail, nodes.Keys);
    }
  }

  lemma {:induction false} SubsetSize<T>(a: set<T>, b: set<T>)
    requires a <= b
    ensures |a| <= |b|
  {
    if a == {} {
    } else {
      var x :| x in a;
      SubsetSize(a - {x}, b - {x});
    }
  }

  /** Every chain ends exactly when no node is its own proper ancestor. */
  lemma AcyclicIffNoCycle(nodes: NodeTable)
    ensures Acyclic(nodes) <==> NoCycle(nodes)
  {
    if Acyclic(nodes) {
      forall n, k: nat | n in nodes && k > 0 ensures Up(nodes, n, k) != Some(n) {
        var d: nat :| Up(nodes, n, d) == None;
        NotOwnAncestor(nodes, n, d, k);
      }
    }
    if NoCycle(nodes) {
      forall n | n in nodes ensures Grounded(nodes, n) {
        NoCycleImpliesGrounded(nodes, n);
      }
    }
  }

  // ---- Walking down ----

  /** `m` lies `k` levels below `root`, by links that stay on `root`'s map. */
  predicate Descends(nodes: NodeTable, root: int, m: int, k: nat)
    requires root in nodes
    decreases k
  {
    if k == 0 then m == root
    else
      && m in nodes
      && nodes[m].mapId == nodes[root].mapId
      && nodes[m].parentId.Some?
      && Descends(nodes, root, nodes[m].parentId.value, k - 1)
  }

  /** `root` and all its transitive children on its map. */
  ghost function Subtree(nodes: NodeTable, root: int): set<int>
    requires root in nodes
  {
    set m | m in nodes && exists k: nat :: Descends(nodes, root, m, k)
  }

  lemma {:induction false} DescendsUp(nodes: NodeTable, root: int, m: int, k: nat)
    requires root in nodes && Descends(nodes, root, m, k)
    ensures m in nodes && Up(nodes, m, k) == Some(root) && nodes[m].mapId == nodes[root].mapId
    decreases k
  {
    if k == 0 {
    } else {
      DescendsUp(nodes, root, nodes[m].parentId.value, k - 1);
    }
  }

  /** The part of a path above its lowest `j` nodes is a path too. */
  lemma {:induction false} DescendsUpper(nodes: NodeTable, root: int, m: int, k: nat, j: nat) returns (a: int)
    requires root in nodes && Descends(nodes, root, m, k) && j <= k
    ensures Up(nodes, m, j) == Some(a) && Descends(nodes, root, a, k - j)
    decreases j
  {
    if j == 0 {
      a := m;
      DescendsUp(nodes, root, m, k);
    } else {
      a := DescendsUpper(nodes, root, nodes[m].parentId.value, k - 1, j - 1);
    }
  }

  /** `root` lies below itself by links that stay on its map: a descent from it goes round for ever. */
  ghost predicate OnMapCycle(nodes: NodeTable, root: int)
    requires root in nodes
  {
    exists k: nat :: k > 0 && Descends(nodes, root, root, k)
  }

  lemma GroundedNotOnMapCycle(nodes: NodeTable, root: int)
    requires root in nodes && Grounded(nodes, root)
    ensures !OnMapCycle(nodes, root)
  {
    if k: nat :| k > 0 && Descends(nodes, root, root, k) {
      DescendsUp(nodes, root, root, k);
      var d: nat :| Up(nodes, root, d) == None;
      NotOwnAncestor(nodes, root, d, k);
    }
  }

  /** Off such a cycle a node is found on one level only. */
  lemma DescendsOnce(nodes: NodeTable, root: int, m: int, j: nat, k: nat)
    requires root in nodes && !OnMapCycle(nodes, root)
    requires Descends(nodes, root, m, j) && Descends(nodes, root, m, k)
    ensures j == k
  {
    var lo, hi := if j < k then j else k, if j < k then k else j;
    DescendsUp(nodes, root, m, lo);
    if lo < hi {
      var a := DescendsUpper(nodes, root, m, hi, lo);
    }
  }

  lemma {:induction false} DescendsAdd(nodes: NodeTable, root: int, m: int, j: nat, k: nat)
    requires root in nodes && Descends(nodes, root, root, j) && Descends(nodes, root, m, k)
    ensures Descends(nodes, root, m, j + k)
    decreases k
  {
    if k == 0 {
    } else {
      DescendsAdd(nodes, root, nodes[m].parentId.value, j, k - 1);
    }
  }

  /** A descent from a node on a cycle reaches every level. */
  lemma {:induction false} CycleReaches(nodes: NodeTable, root: int, d: nat) returns (m: int)
    requires root in nodes && OnMapCycle(nodes, root)
    ensures Descends(nodes, root, m, d)
  {
    var k: nat :| k > 0 && Descends(nodes, root, root, k);
    if d <= k {
      m := DescendsUpper(nodes, root, root, k, k - d);
    } else {
      m := CycleReaches(nodes, root, d - k);
      DescendsAdd(nodes, root, m, k, d - k);
    }
  }

  /** The subtree is closed: upwards until its root, and downwards on the root's map. */
  lemma SubtreeClosed(nodes: NodeTable, root: int)
    requires root in nodes
    ensures root in Subtree(nodes, root)
    ensures forall m :: m in Subtree(nodes, root) ==> nodes[m].mapId == nodes[root].mapId
    ensures forall m :: m in Subtree(nodes, root) && m != root ==>
              nodes[m].parentId.Some? && nodes[m].parentId.value in Subtree(nodes, root)
    ensures forall m | m in nodes && nodes[m].mapId == nodes[root].mapId && nodes[m].parentId.Some?
                       && nodes[m].parentId.value in Subtree(nodes, root) :: m in Subtree(nodes, root)
  {
    var sub := Subtree(nodes, root);
    assert Descends(nodes, root, root, 0);
    forall m | m in sub
      ensures nodes[m].mapId == nodes[root].mapId
      ensures m != root ==> nodes[m].parentId.Some? && nodes[m].parentId.value in sub
    {
      var k: nat :| Descends(nodes, root, m, k);
      DescendsUp(nodes, root, m, k);
      if k > 0 {
        DescendsUp(nodes, root, nodes[m].parentId.value, k - 1);
      }
    }
    forall m | m in nodes && nodes[m].mapId == nodes[root].mapId && nodes[m].parentId.Some?
               && nodes[m].parentId.value in sub
      ensures m in sub
    {
      var k: nat :| Descends(nodes, root, nodes[m].parentId.value, k);
      assert Descends(nodes, root, m, k + 1);
    }
  }

  /** The root's parent is outside the subtree, so no link from outside it leads back in through it. */
  lemma ParentOutsideSubtree(nodes: NodeTable, root: int)
    requires root in nodes && Grounded(nodes, root) && nodes[root].parentId.Some?
    ensures nodes[root].parentId.value !in Subtree(nodes, root)
  {
    var p := nodes[root].parentId.value;
    if p in Subtree(nodes, root) {
      var k: nat :| Descends(nodes, root, p, k);
      DescendsUp(nodes, root, p, k);
      assert Up(nodes, root, k + 1) == Some(root);
      var d: nat :| Up(nodes, root, d) == None;
      NotOwnAncestor(nodes, root, d, k + 1);
    }
  }
}
