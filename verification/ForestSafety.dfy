/**
 What each write does to the shape of the node forest.
*/
module ForestSafety {
  import opened Tables
  import opened Forest
  import opened Effects
  import opened Requests
  import CopyLoop

  // ---- Chains that a write does not touch ----

  /** `s` is closed under parents, and both tables agree on the links inside it. */
  ghost predicate AgreeOn(nodes: NodeTable, nodes': NodeTable, s: set<int>) {
    forall n {:trigger n in s} :: n in s ==>
      && n in nodes && n in nodes'
      && nodes'[n].parentId == nodes[n].parentId
      && (nodes[n].parentId.Some? ==> nodes[n].parentId.value in s)
  }

  lemma {:induction false} UpAgrees(nodes: NodeTable, nodes': NodeTable, s: set<int>, n: int, k: nat)
    requires AgreeOn(nodes, nodes', s) && n in s
    ensures Up(nodes', n, k) == Up(nodes, n, k)
    decreases k
  {
    if k == 0 {
    } else if nodes[n].parentId.Some? {
      UpAgrees(nodes, nodes', s, nodes[n].parentId.value, k - 1);
    }
  }

  lemma GroundedAgrees(nodes: NodeTable, nodes': NodeTable, s: set<int>, n: int)
    requires AgreeOn(nodes, nodes', s) && n in s && Grounded(nodes, n)
    ensures Grounded(nodes', n)
  {
    var d: nat :| Up(nodes, n, d) == None;
    UpAgrees(nodes, nodes', s, n, d);
  }

  /** What every write but some moves keeps, each part on its own. */
  ghost predicate KeepsShape(before: NodeTable, after: NodeTable) {
    && (Acyclic(before) ==> Acyclic(after))
    && (SameMap(before) ==> SameMap(after))
  }

  // ---- Create ----

  lemma CreateKeepsForest(db: Db, caller: Caller, mapId: int, parent: Option<int>, content: NodeContent)
    requires Referential(db)
    requires CreateRefusal(db, caller, mapId, parent).None?
    ensures var after := AfterCreate(db, mapId, parent, caller.userId, content);
            Referential(after) && KeepsShape(db.nodes, after.nodes)
  {
    var after, id := AfterCreate(db, mapId, parent, caller.userId, content), db.nodeSeq + 1;
    assert id !in db.nodes;
    assert AgreeOn(db.nodes, after.nodes, db.nodes.Keys);
    if Acyclic(db.nodes) {
      forall n | n in after.nodes ensures Grounded(after.nodes, n) {
        if n == id {
          if parent.Some? { GroundedAgrees(db.nodes, after.nodes, db.nodes.Keys, parent.value); }
          GroundedFromParent(after.nodes, id);
        } else {
          GroundedAgrees(db.nodes, after.nodes, db.nodes.Keys, n);
        }
      }
    }
  }

  // ---- Delete ----

  lemma CascadeChild(nodes: NodeTable, id: int, n: int)
    requires n in nodes && nodes[n].parentId.Some? && nodes[n].parentId.value in CascadeSet(nodes, id)
    ensures n in CascadeSet(nodes, id)
  {
    var k: nat :| Up(nodes, nodes[n].parentId.value, k) == Some(id);
    assert Up(nodes, n, k + 1) == Some(id);
  }

  /** What survives a cascade keeps its parents. */
  lemma SurvivorsClosed(db: Db, id: int)
    requires ParentsExist(db.nodes)
    ensures AgreeOn(db.nodes, AfterDelete(db, CascadeSet(db.nodes, id)).nodes,
                    db.nodes.Keys - CascadeSet(db.nodes, id))
  {
    var doomed := CascadeSet(db.nodes, id);
    forall n | n in db.nodes && n !in doomed && db.nodes[n].parentId.Some?
      ensures db.nodes[n].parentId.value !in doomed
    {
      var p := db.nodes[n].parentId.value;
      if p in doomed {
        CascadeChild(db.nodes, id, n);
      }
    }
  }

  lemma DeleteKeepsForest(db: Db, id: int)
    requires Referential(db)
    ensures var after := AfterDelete(db, CascadeSet(db.nodes, id));
            Referential(after) && KeepsShape(db.nodes, after.nodes)
  {
    var after, rest := AfterDelete(db, CascadeSet(db.nodes, id)), db.nodes.Keys - CascadeSet(db.nodes, id);
    SurvivorsClosed(db, id);
    KeepEdgesMeaning(db.edges, CascadeSet(db.nodes, id));
    assert forall n :: n in after.nodes ==> n in rest;
    if Acyclic(db.nodes) {
      forall n | n in after.nodes ensures Grounded(after.nodes, n) {
        GroundedAgrees(db.nodes, after.nodes, rest, n);
      }
    }
    assert ParentsExist(after.nodes);
  }

  // ---- Visibility tagging ----

  lemma SetVisibilityKeepsForest(db: Db, id: int, override: Option<bool>, groupIds: Option<set<int>>)
    requires Referential(db) && id in db.nodes
    ensures var after := AfterSetVisibility(db, id, override, groupIds);
            Referential(after) && KeepsShape(db.nodes, after.nodes)
  {
    var after := AfterSetVisibility(db, id, override, groupIds);
    assert AgreeOn(db.nodes, after.nodes, db.nodes.Keys);
    if Acyclic(db.nodes) {
      forall n | n in after.nodes ensures Grounded(after.nodes, n) {
        GroundedAgrees(db.nodes, after.nodes, db.nodes.Keys, n);
      }
    }
  }

  // ---- Move ----

  /** A move across maps whose body gives no parent, of a node that has one. */
  predicate BareRelocation(db: Db, mapId: int, id: int, target: Target) {
    && CrossMap(mapId, target) && target.newParent.Absent?
    && id in db.nodes && db.nodes[id].parentId.Some?
  }

  /** The new parent is the source or lies below it, counting links to other maps. */
  ghost predicate ClosesCycle(nodes: NodeTable, id: int, target: Target) {
    target.newParent.Given? && target.newParent.value in CascadeSet(nodes, id)
  }

  ghost function MoveResult(db: Db, caller: Caller, mapId: int, id: int, target: Target): Db
    requires id in db.nodes
  {
    AfterMove(db, id, Subtree(db.nodes, id), target.newParent, DestMap(mapId, target),
              CrossMap(mapId, target), CrossTenant(db, caller, mapId, target))
  }

  /** The nodes that do not lie below the source, on any map, are closed under parents. */
  lemma NotBelowClosed(db: Db, caller: Caller, mapId: int, id: int, target: Target)
    requires ParentsExist(db.nodes) && id in db.nodes
    ensures AgreeOn(db.nodes, MoveResult(db, caller, mapId, id, target).nodes,
                    db.nodes.Keys - CascadeSet(db.nodes, id))
  {
    var below := CascadeSet(db.nodes, id);
    assert id in below by { assert Up(db.nodes, id, 0) == Some(id); }
    forall n | n in db.nodes && n !in below && db.nodes[n].parentId.Some?
      ensures db.nodes[n].parentId.value !in below
    {
      if db.nodes[n].parentId.value in below { CascadeChild(db.nodes, id, n); }
    }
  }

  /** Only the source's link changes, so a chain that led to the source still does. */
  lemma StillReaches(nodes: NodeTable, nodes': NodeTable, id: int, m: int, k: nat) returns (j: nat)
    requires forall n :: n in nodes ==> n in nodes' && (n != id ==> nodes'[n].parentId == nodes[n].parentId)
    requires Up(nodes, m, k) == Some(id)
    ensures j <= k && Up(nodes', m, j) == Some(id)
  {
    j := UpMeets(nodes, id, m, k);
    MeetsKept(nodes, nodes', id, m, j);
    MeetsUp(nodes', id, m, j);
  }

  lemma GroundedThrough(nodes: NodeTable, m: int, j: nat, id: int)
    requires Up(nodes, m, j) == Some(id) && Grounded(nodes, id)
    ensures Grounded(nodes, m)
  {
    var d: nat :| Up(nodes, id, d) == None;
    UpAdd(nodes, m, j, d);
  }

  /** The source's own chain after the move. */
  lemma MovedSourceGrounded(db: Db, caller: Caller, mapId: int, id: int, target: Target)
    requires ParentsExist(db.nodes) && Acyclic(db.nodes)
    requires MoveRefusal(db, caller, mapId, id, target).None? && !ClosesCycle(db.nodes, id, target)
    ensures Grounded(MoveResult(db, caller, mapId, id, target).nodes, id)
  {
    var after, rest := MoveResult(db, caller, mapId, id, target), db.nodes.Keys - CascadeSet(db.nodes, id);
    NotBelowClosed(db, caller, mapId, id, target);
    var p := after.nodes[id].parentId;
    if p.Some? {
      if target.newParent.Absent? { ParentNotBelow(db.nodes, id); }
      GroundedAgrees(db.nodes, after.nodes, rest, p.value);
    }
    GroundedFromParent(after.nodes, id);
  }

  lemma ParentNotBelow(nodes: NodeTable, id: int)
    requires id in nodes && Grounded(nodes, id) && nodes[id].parentId.Some?
    ensures nodes[id].parentId.value !in CascadeSet(nodes, id)
  {
    if k: nat :| Up(nodes, nodes[id].parentId.value, k) == Some(id) {
      assert Up(nodes, id, k + 1) == Some(id);
      var d: nat :| Up(nodes, id, d) == None;
      NotOwnAncestor(nodes, id, d, k + 1);
    }
  }

  /**
   An accepted move makes a cycle exactly when the new parent lies below the source. The descendant
   check refuses those on the source's own map; one on another map, left there by a bare
   relocation, it does not see.
   */
  lemma MoveKeepsAcyclicIff(db: Db, caller: Caller, mapId: int, id: int, target: Target)
    requires ParentsExist(db.nodes) && Acyclic(db.nodes)
    requires MoveRefusal(db, caller, mapId, id, target).None?
    ensures Acyclic(MoveResult(db, caller, mapId, id, target).nodes) <==> !ClosesCycle(db.nodes, id, target)
  {
    var after, below := MoveResult(db, caller, mapId, id, target), CascadeSet(db.nodes, id);
    if ClosesCycle(db.nodes, id, target) {
      var p := target.newParent.value;
      var k: nat :| Up(db.nodes, p, k) == Some(id);
      var j := StillReaches(db.nodes, after.nodes, id, p, k);
      assert Up(after.nodes, id, j + 1) == Some(id);
      AcyclicIffNoCycle(after.nodes);
    } else {
      MovedSourceGrounded(db, caller, mapId, id, target);
      NotBelowClosed(db, caller, mapId, id, target);
      forall n | n in after.nodes ensures Grounded(after.nodes, n) {
        if n in below {
          var k: nat :| Up(db.nodes, n, k) == Some(id);
          var j := StillReaches(db.nodes, after.nodes, id, n, k);
          GroundedThrough(after.nodes, n, j, id);
        } else {
          GroundedAgrees(db.nodes, after.nodes, db.nodes.Keys - below, n);
        }
      }
    }
  }

  /** In a forest everything below a node is on its map, so there the descendant check sees it all. */
  lemma CascadeIsSubtree(nodes: NodeTable, id: int)
    requires id in nodes && ParentsExist(nodes) && SameMap(nodes)
    ensures CascadeSet(nodes, id) == Subtree(nodes, id)
  {
    forall m | m in CascadeSet(nodes, id) ensures m in Subtree(nodes, id) {
      var k: nat :| Up(nodes, m, k) == Some(id);
      UpDescends(nodes, id, m, k);
    }
    forall m | m in Subtree(nodes, id) ensures m in CascadeSet(nodes, id) {
      var k: nat :| Descends(nodes, id, m, k);
      DescendsUp(nodes, id, m, k);
    }
  }

  lemma {:induction false} UpDescends(nodes: NodeTable, id: int, m: int, k: nat)
    requires id in nodes && ParentsExist(nodes) && SameMap(nodes) && Up(nodes, m, k) == Some(id)
    ensures m in nodes && nodes[m].mapId == nodes[id].mapId && Descends(nodes, id, m, k)
    decreases k
  {
    if k == 0 {
    } else {
      UpDescends(nodes, id, nodes[m].parentId.value, k - 1);
    }
  }

  lemma MoveKeepsReferential(db: Db, caller: Caller, mapId: int, id: int, target: Target)
    requires Referential(db) && MoveRefusal(db, caller, mapId, id, target).None?
    ensures Referential(MoveResult(db, caller, mapId, id, target))
  {}

  /**
   An accepted move of a forest keeps every chain finite; it keeps parents on their children's maps
   exactly when it is not a bare relocation.
   */
  lemma MoveKeepsForestIff(db: Db, caller: Caller, mapId: int, id: int, target: Target)
    requires Referential(db) && IsForest(db.nodes)
    requires MoveRefusal(db, caller, mapId, id, target).None?
    ensures Acyclic(MoveResult(db, caller, mapId, id, target).nodes)
    ensures IsForest(MoveResult(db, caller, mapId, id, target).nodes) <==> !BareRelocation(db, mapId, id, target)
  {
    MoveKeepsReferential(db, caller, mapId, id, target);
    CascadeIsSubtree(db.nodes, id);
    MoveKeepsAcyclicIff(db, caller, mapId, id, target);
    var sub, nodes' := Subtree(db.nodes, id), MoveResult(db, caller, mapId, id, target).nodes;
    SubtreeClosed(db.nodes, id);
    if BareRelocation(db, mapId, id, target) {
      ParentOutsideSubtree(db.nodes, id);
      assert nodes'[nodes'[id].parentId.value].mapId != nodes'[id].mapId;
    } else {
      forall n | n in nodes' && nodes'[n].parentId.Some?
        ensures nodes'[nodes'[n].parentId.value].mapId == nodes'[n].mapId
      {
        if n == id && target.newParent.Absent? {
          ParentOutsideSubtree(db.nodes, id);
        }
      }
    }
  }

  // ---- Copy ----

  /** Below the root, the copy's parent is the copy of the parent. */
  lemma CopiedParent(before: NodeTable, after: NodeTable, root: int, dest: int, parent: Option<int>, userId: int,
                     idMap: map<int, int>, m: int, d: nat) returns (above: int)
    requires root in before && !OnMapCycle(before, root)
    requires IsNodeCopy(before, after, root, dest, parent, userId, idMap)
    requires d > 0 && Descends(before, root, m, d)
    ensures m in idMap && before[m].parentId == Some(above) && above in idMap && Descends(before, root, above, d - 1)
    ensures idMap[m] in after && after[idMap[m]].parentId == Some(idMap[above])
    ensures idMap[above] in after && !after[idMap[m]].visibilityOverride
  {
    above := before[m].parentId.value;
    DescendsUp(before, root, m, d);
    DescendsUp(before, root, above, d - 1);
    assert m in Subtree(before, root) && above in Subtree(before, root);
    assert idMap[m] in idMap.Values && idMap[above] in idMap.Values;
    assert CopyParent(before, root, parent, idMap, m) == Some(idMap[above]);
  }

  lemma {:induction false} CopyIsGrounded(before: NodeTable, after: NodeTable, root: int, dest: int, parent: Option<int>,
                                          userId: int, idMap: map<int, int>, m: int, k: nat)
    requires ParentsExist(before) && Acyclic(before) && root in before
    requires IsNodeCopy(before, after, root, dest, parent, userId, idMap)
    requires parent.Some? ==> parent.value in before
    requires Descends(before, root, m, k)
    ensures m in idMap && idMap[m] in after && Grounded(after, idMap[m])
    decreases k
  {
    DescendsUp(before, root, m, k);
    assert m in Subtree(before, root);
    assert idMap[m] in idMap.Values;
    if m == root {
      assert AgreeOn(before, after, before.Keys);
      if parent.Some? { GroundedAgrees(before, after, before.Keys, parent.value); }
    } else {
      var p := before[m].parentId.value;
      CopyIsGrounded(before, after, root, dest, parent, userId, idMap, p, k - 1);
    }
    GroundedFromParent(after, idMap[m]);
  }

  lemma CopyParentsOnMap(before: NodeTable, after: NodeTable, root: int, dest: int, parent: Option<int>,
                         userId: int, idMap: map<int, int>, m: int)
    requires root in before && m in idMap
    requires IsNodeCopy(before, after, root, dest, parent, userId, idMap)
    requires parent.Some? ==> parent.value in before && before[parent.value].mapId == dest
    ensures idMap[m] in after
    ensures var row := after[idMap[m]];
            row.parentId.Some? ==> row.parentId.value in after && after[row.parentId.value].mapId == row.mapId
  {
    assert idMap[m] in idMap.Values;
    assert after[idMap[m]].mapId == dest;
    if m == root {
      assert after[idMap[m]].parentId == parent;
      if parent.Some? {
        var p := parent.value;
        assert after[p] == before[p];
      }
    } else {
      var k: nat :| Descends(before, root, m, k);
      var p := before[m].parentId.value;
      DescendsUp(before, root, p, k - 1);
      assert p in Subtree(before, root);
      assert idMap[p] in idMap.Values;
      assert CopyParent(before, root, parent, idMap, m) == Some(idMap[p]);
      assert after[idMap[p]].mapId == dest;
    }
  }

  lemma CopyKeepsAcyclic(before: NodeTable, after: NodeTable, root: int, dest: int, parent: Option<int>,
                         userId: int, idMap: map<int, int>)
    requires ParentsExist(before) && Acyclic(before) && root in before
    requires IsNodeCopy(before, after, root, dest, parent, userId, idMap)
    requires parent.Some? ==> parent.value in before
    ensures Acyclic(after)
  {
    assert AgreeOn(before, after, before.Keys);
    forall n | n in after ensures Grounded(after, n) {
      if n in before {
        GroundedAgrees(before, after, before.Keys, n);
      } else {
        var m := CopyLoop.KeyOf(idMap, n);
        var k: nat :| Descends(before, root, m, k);
        CopyIsGrounded(before, after, root, dest, parent, userId, idMap, m, k);
      }
    }
  }

  lemma CopyKeepsParents(before: NodeTable, after: NodeTable, root: int, dest: int, parent: Option<int>,
                         userId: int, idMap: map<int, int>)
    requires ParentsExist(before) && root in before
    requires IsNodeCopy(before, after, root, dest, parent, userId, idMap)
    requires parent.Some? ==> parent.value in before && before[parent.value].mapId == dest
    ensures ParentsExist(after) && (SameMap(before) ==> SameMap(after))
  {
    forall n | n in after && after[n].parentId.Some?
      ensures after[n].parentId.value in after
      ensures SameMap(before) ==> after[after[n].parentId.value].mapId == after[n].mapId
    {
      if n in before {
        assert after[n] == before[n];
        var p := after[n].parentId.value;
        assert after[p] == before[p];
      } else {
        var m := CopyLoop.KeyOf(idMap, n);
        CopyParentsOnMap(before, after, root, dest, parent, userId, idMap, m);
      }
    }
  }

  /** An accepted copy keeps the forest, wherever it is placed: under the source's own subtree too. */
  lemma CopyKeepsForest(before: Db, after: Db, caller: Caller, mapId: int, id: int, target: Target,
                        idMap: map<int, int>, noteMap: map<int, int>)
    requires Referential(before)
    requires CopyRefusal(before, caller, mapId, id, target).None?
    requires IsCopy(before, after, id, DestMap(mapId, target), NewParent(target.newParent, None),
                    caller.userId, idMap, noteMap)
    ensures Referential(after) && KeepsShape(before.nodes, after.nodes)
  {
    var dest, parent := DestMap(mapId, target), NewParent(target.newParent, None);
    CopyKeepsParents(before.nodes, after.nodes, id, dest, parent, caller.userId, idMap);
    if Acyclic(before.nodes) {
      CopyKeepsAcyclic(before.nodes, after.nodes, id, dest, parent, caller.userId, idMap);
    }
    CopyKeepsReferential(before, after, id, dest, parent, caller.userId, idMap, noteMap);
  }

  lemma CopyKeepsReferential(before: Db, after: Db, id: int, dest: int, parent: Option<int>, userId: int,
                             idMap: map<int, int>, noteMap: map<int, int>)
    requires Referential(before) && id in before.nodes && ParentsExist(after.nodes)
    requires IsCopy(before, after, id, dest, parent, userId, idMap, noteMap)
    ensures Referential(after)
  {
    forall n | n in after.nodes ensures 0 < n <= after.nodeSeq {
      if n !in before.nodes {
        var m := CopyLoop.KeyOf(idMap, n);
      }
    }
    forall t | t in after.notes ensures 0 < t <= after.noteSeq && after.notes[t].nodeId in after.nodes {
      if t !in before.notes {
        var s := CopyLoop.KeyOf(noteMap, t);
        assert idMap[before.notes[s].nodeId] in idMap.Values;
      } else {
        assert after.notes[t] == before.notes[t];
      }
    }
  }
}
