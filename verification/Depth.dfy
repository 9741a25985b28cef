/**
 The depth limit. Create enforces it; move and copy do not, and keep it exactly when what they
 place fits under its new parent.
*/
module Depth {
  import opened Tables
  import opened Forest
  import opened Effects
  import opened Requests
  import opened ForestSafety
  import CopyLoop

  /** No node lies more than fourteen levels below its top-level node. */
  ghost predicate Shallow(nodes: NodeTable) {
    forall n :: n in nodes ==> Up(nodes, n, MAX_NODE_DEPTH) == None
  }

  lemma ShallowIsAcyclic(nodes: NodeTable)
    requires Shallow(nodes)
    ensures Acyclic(nodes)
  {
    forall n | n in nodes ensures Grounded(nodes, n) {
      assert Up(nodes, n, MAX_NODE_DEPTH) == None;
    }
  }

  lemma ShallowLevel(nodes: NodeTable, m: int, d: nat)
    requires Shallow(nodes) && Up(nodes, m, d).Some?
    ensures d < MAX_NODE_DEPTH
  {
    if d >= MAX_NODE_DEPTH {
      UpMonotone(nodes, m, MAX_NODE_DEPTH, d);
    }
  }

  /** A node `d` levels below the root of what is placed under `p` gets at most fourteen nodes above it. */
  predicate FitsUnder(nodes: NodeTable, p: int, d: nat) {
    d < MAX_NODE_DEPTH && Up(nodes, p, MAX_NODE_DEPTH - 1 - d) == None
  }

  // ---- Create ----

  /** The depth check of create is exact: it refuses just the nodes that would come to lie too deep. */
  lemma CreateDepthRule(db: Db, caller: Caller, mapId: int, parent: int, content: NodeContent)
    requires Referential(db)
    requires MapInTenant(db, mapId, caller.tenantId) && CanEditMap(db, caller.userId, mapId)
    requires parent in db.nodes && db.nodes[parent].mapId == mapId
    requires |NodesOn(db.nodes, mapId)| < MAX_NODES_PER_MAP
    ensures CreateRefusal(db, caller, mapId, Some(parent)).None? <==>
            Up(AfterCreate(db, mapId, Some(parent), caller.userId, content).nodes, db.nodeSeq + 1, MAX_NODE_DEPTH) == None
  {
    var after := AfterCreate(db, mapId, Some(parent), caller.userId, content);
    assert AgreeOn(db.nodes, after.nodes, db.nodes.Keys);
    UpAgrees(db.nodes, after.nodes, db.nodes.Keys, parent, MAX_NODE_DEPTH - 1);
    assert Up(after.nodes, db.nodeSeq + 1, MAX_NODE_DEPTH) == Up(after.nodes, parent, MAX_NODE_DEPTH - 1);
  }

  // ---- Delete ----

  /** Within the depth limit a cascade never nests deeper than fourteen levels. */
  lemma ShallowIsDeletable(nodes: NodeTable, id: int, limit: nat)
    requires Shallow(nodes) && limit >= MAX_NODE_DEPTH - 1
    ensures !CascadeTooDeep(nodes, id, limit)
  {
    if MetAt(nodes, id, limit + 1) {
      var deep := limit + 1;
      var m :| MeetsAfter(nodes, id, m, deep);
      MeetsUp(nodes, id, m, deep);
      ShallowLevel(nodes, m, deep);
    }
  }

  /** And the depth limit is exactly what a nesting limit of fourteen asks of an acyclic table, to delete any node. */
  lemma DeletableIffShallow(nodes: NodeTable)
    requires Acyclic(nodes)
    ensures (forall id :: id in nodes ==> !CascadeTooDeep(nodes, id, MAX_NODE_DEPTH - 1)) <==> Shallow(nodes)
  {
    if Shallow(nodes) {
      forall id | id in nodes ensures !CascadeTooDeep(nodes, id, MAX_NODE_DEPTH - 1) {
        ShallowIsDeletable(nodes, id, MAX_NODE_DEPTH - 1);
      }
    } else {
      var n :| n in nodes && Up(nodes, n, MAX_NODE_DEPTH) != None;
      var top := Up(nodes, n, MAX_NODE_DEPTH).value;
      UpIsNode(nodes, n, MAX_NODE_DEPTH);
      UpMeetsExactly(nodes, top, n, MAX_NODE_DEPTH);
      assert CascadeTooDeep(nodes, top, MAX_NODE_DEPTH - 1);
    }
  }

  // ---- Move ----

  /** Nothing at or below the source comes to lie too deep; links to other maps count. */
  ghost predicate MoveFits(nodes: NodeTable, id: int, target: Target) {
    target.newParent.Given? ==>
      && target.newParent.value !in CascadeSet(nodes, id)
      && forall m, d: nat :: Up(nodes, m, d) == Some(id) ==> FitsUnder(nodes, target.newParent.value, d)
  }

  /** Whatever lay `d` levels below the source still does, and its chain then goes on with the new parent's. */
  lemma MovedChain(db: Db, caller: Caller, mapId: int, id: int, target: Target, m: int, d: nat, j: nat)
    requires ParentsExist(db.nodes) && Acyclic(db.nodes)
    requires MoveRefusal(db, caller, mapId, id, target).None? && !ClosesCycle(db.nodes, id, target)
    requires Up(db.nodes, m, d) == Some(id)
    ensures Up(MoveResult(db, caller, mapId, id, target).nodes, m, d + 1 + j)
            == match NewParent(target.newParent, db.nodes[id].parentId)
               case None => None
               case Some(p) => Up(db.nodes, p, j)
  {
    var after, rest := MoveResult(db, caller, mapId, id, target), db.nodes.Keys - CascadeSet(db.nodes, id);
    UpMeetsExactly(db.nodes, id, m, d);
    MeetsKept(db.nodes, after.nodes, id, m, d);
    MeetsUp(after.nodes, id, m, d);
    UpAdd(after.nodes, m, d, j + 1);
    NotBelowClosed(db, caller, mapId, id, target);
    var parent := NewParent(target.newParent, db.nodes[id].parentId);
    if parent.Some? {
      if target.newParent.Absent? { ParentNotBelow(db.nodes, id); }
      UpAgrees(db.nodes, after.nodes, rest, parent.value, j);
    }
  }

  lemma MoveKeepsShallow(db: Db, caller: Caller, mapId: int, id: int, target: Target)
    requires ParentsExist(db.nodes) && Shallow(db.nodes)
    requires MoveRefusal(db, caller, mapId, id, target).None? && MoveFits(db.nodes, id, target)
    ensures Shallow(MoveResult(db, caller, mapId, id, target).nodes)
  {
    var after, below := MoveResult(db, caller, mapId, id, target), CascadeSet(db.nodes, id);
    ShallowIsAcyclic(db.nodes);
    NotBelowClosed(db, caller, mapId, id, target);
    forall n | n in after.nodes ensures Up(after.nodes, n, MAX_NODE_DEPTH) == None {
      if n in below {
        var d: nat :| Up(db.nodes, n, d) == Some(id);
        ShallowLevel(db.nodes, n, d);
        MovedChain(db, caller, mapId, id, target, n, d, MAX_NODE_DEPTH - 1 - d);
        UpAdd(db.nodes, n, d, MAX_NODE_DEPTH - d);
      } else {
        UpAgrees(db.nodes, after.nodes, db.nodes.Keys - below, n, MAX_NODE_DEPTH);
      }
    }
  }

  lemma MoveKeepsShallowIff(db: Db, caller: Caller, mapId: int, id: int, target: Target)
    requires ParentsExist(db.nodes) && Shallow(db.nodes)
    requires MoveRefusal(db, caller, mapId, id, target).None?
    ensures Shallow(MoveResult(db, caller, mapId, id, target).nodes) <==> MoveFits(db.nodes, id, target)
  {
    var after := MoveResult(db, caller, mapId, id, target);
    ShallowIsAcyclic(db.nodes);
    if MoveFits(db.nodes, id, target) {
      MoveKeepsShallow(db, caller, mapId, id, target);
    } else if Shallow(after.nodes) {
      ShallowIsAcyclic(after.nodes);
      MoveKeepsAcyclicIff(db, caller, mapId, id, target);
      var m: int, d: nat :| Up(db.nodes, m, d) == Some(id) && !FitsUnder(db.nodes, target.newParent.value, d);
      ShallowLevel(db.nodes, m, d);
      MovedChain(db, caller, mapId, id, target, m, d, MAX_NODE_DEPTH - 1 - d);
    }
  }

  // ---- Copy ----

  /** No copied node comes to lie too deep. */
  ghost predicate CopyFits(nodes: NodeTable, root: int, parent: Option<int>)
    requires root in nodes
  {
    parent.Some? ==> forall m, d: nat :: Descends(nodes, root, m, d) ==> FitsUnder(nodes, parent.value, d)
  }

  /** The chain of a copied node goes up to the copied root and on with the new parent's. */
  lemma {:induction false} CopiedChain(before: NodeTable, after: NodeTable, root: int, dest: int, parent: Option<int>,
                                       userId: int, idMap: map<int, int>, m: int, d: nat, j: nat)
    requires ParentsExist(before) && root in before && !OnMapCycle(before, root)
    requires IsNodeCopy(before, after, root, dest, parent, userId, idMap)
    requires parent.Some? ==> parent.value in before
    requires Descends(before, root, m, d)
    ensures m in idMap && idMap[m] in after
    ensures Up(after, idMap[m], d + 1 + j) == match parent { case None => None case Some(p) => Up(before, p, j) }
    decreases d
  {
    DescendsUp(before, root, m, d);
    assert m in Subtree(before, root);
    assert idMap[m] in idMap.Values;
    if d == 0 {
      assert AgreeOn(before, after, before.Keys);
      if parent.Some? { UpAgrees(before, after, before.Keys, parent.value, j); }
    } else {
      var above := CopiedParent(before, after, root, dest, parent, userId, idMap, m, d);
      CopiedChain(before, after, root, dest, parent, userId, idMap, above, d - 1, j);
    }
  }

  lemma CopyKeepsShallow(before: NodeTable, after: NodeTable, root: int, dest: int, parent: Option<int>,
                         userId: int, idMap: map<int, int>)
    requires ParentsExist(before) && Shallow(before) && root in before && CopyFits(before, root, parent)
    requires IsNodeCopy(before, after, root, dest, parent, userId, idMap)
    requires parent.Some? ==> parent.value in before
    ensures Shallow(after)
  {
    ShallowIsAcyclic(before);
    GroundedNotOnMapCycle(before, root);
    assert AgreeOn(before, after, before.Keys);
    forall n | n in after ensures Up(after, n, MAX_NODE_DEPTH) == None {
      if n in before {
        UpAgrees(before, after, before.Keys, n, MAX_NODE_DEPTH);
      } else {
        var m := CopyLoop.KeyOf(idMap, n);
        var d: nat :| Descends(before, root, m, d);
        DescendsUp(before, root, m, d);
        ShallowLevel(before, m, d);
        CopiedChain(before, after, root, dest, parent, userId, idMap, m, d, MAX_NODE_DEPTH - 1 - d);
      }
    }
  }

  lemma CopyKeepsShallowIff(before: NodeTable, after: NodeTable, root: int, dest: int, parent: Option<int>,
                            userId: int, idMap: map<int, int>)
    requires ParentsExist(before) && Shallow(before) && root in before
    requires IsNodeCopy(before, after, root, dest, parent, userId, idMap)
    requires parent.Some? ==> parent.value in before
    ensures Shallow(after) <==> CopyFits(before, root, parent)
  {
    ShallowIsAcyclic(before);
    GroundedNotOnMapCycle(before, root);
    if CopyFits(before, root, parent) {
      CopyKeepsShallow(before, after, root, dest, parent, userId, idMap);
    } else {
      var m: int, d: nat :| Descends(before, root, m, d) && !FitsUnder(before, parent.value, d);
      DescendsUp(before, root, m, d);
      ShallowLevel(before, m, d);
      CopiedChain(before, after, root, dest, parent, userId, idMap, m, d, MAX_NODE_DEPTH - 1 - d);
    }
  }
}
