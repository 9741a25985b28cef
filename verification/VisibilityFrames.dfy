/**
 How create, delete, move, copy and tagging move effective visibility. Every statement is about
 `VisibleAt` for all hop counts, so it holds of the definition and of the 15-hop query alike.
*/
module VisibilityFrames {
  import opened Tables
  import opened Forest
  import opened Resolver
  import opened Effects
  import opened Requests
  import opened ForestSafety

  // ---- Nodes a write leaves alone ----

  /** On `s` the flags and tags are the same, and so is the group membership. */
  ghost predicate SameTagging(db: Db, db': Db, s: set<int>) {
    && db'.dir == db.dir
    && (forall n {:trigger n in s} :: n in s && n in db.nodes && n in db'.nodes ==>
          db'.nodes[n].visibilityOverride == db.nodes[n].visibilityOverride)
    && (forall r: (int, int) :: r.0 in s ==> (r in db'.nodeTags <==> r in db.nodeTags))
  }

  lemma TagsAgree(db: Db, db': Db, s: set<int>, n: int, userId: int)
    requires SameTagging(db, db', s) && n in s
    ensures TagsMeet(db', n, userId) <==> TagsMeet(db, n, userId)
  {}

  /** Nodes of a parent-closed set that a write leaves alone are visible to the same users as before. */
  lemma {:induction false} VisibleAgrees(db: Db, db': Db, s: set<int>, n: int, userId: int, k: nat)
    requires AgreeOn(db.nodes, db'.nodes, s) && SameTagging(db, db', s) && n in s
    ensures VisibleAt(db', n, userId, k) <==> VisibleAt(db, n, userId, k)
    decreases k
  {
    TagsAgree(db, db', s, n, userId);
    if k == 0 {
    } else if db.nodes[n].parentId.Some? {
      VisibleAgrees(db, db', s, db.nodes[n].parentId.value, userId, k - 1);
    }
  }

  /** None of the `k + 1` nodes from `m` up has the flag. */
  predicate NoFlagOnPath(nodes: NodeTable, m: int, k: nat)
    decreases k
  {
    && m in nodes && !nodes[m].visibilityOverride
    && (k > 0 ==> nodes[m].parentId.Some? && NoFlagOnPath(nodes, nodes[m].parentId.value, k - 1))
  }

  /** A node below `id` either finds a flag on its way to it, or its walk goes on beyond. */
  lemma {:induction false} FlagOrBeyond(nodes: NodeTable, id: int, n: int, d: nat) returns (j: nat)
    requires MeetsAfter(nodes, id, n, d)
    ensures (j <= d && ResolvesAt(nodes, n, j)) || NoFlagOnPath(nodes, n, d)
    decreases d
  {
    j := 0;
    if d == 0 {
    } else if !nodes[n].visibilityOverride {
      j := FlagOrBeyond(nodes, id, nodes[n].parentId.value, d - 1);
      j := j + 1;
    }
  }

  // ---- Create and delete ----

  /** Creating a node changes nothing for the others. */
  lemma CreateSpares(db: Db, mapId: int, parent: Option<int>, userId: int, content: NodeContent,
                     n: int, viewer: int, k: nat)
    requires Referential(db) && n in db.nodes
    ensures VisibleAt(AfterCreate(db, mapId, parent, userId, content), n, viewer, k) <==> VisibleAt(db, n, viewer, k)
  {
    var after := AfterCreate(db, mapId, parent, userId, content);
    assert db.nodeSeq + 1 !in db.nodes;
    assert AgreeOn(db.nodes, after.nodes, db.nodes.Keys);
    VisibleAgrees(db, after, db.nodes.Keys, n, viewer, k);
  }

  /** The new node is visible exactly to those who see its parent; at top level, to nobody. */
  lemma CreatedVisibility(db: Db, mapId: int, parent: Option<int>, userId: int, content: NodeContent, viewer: int, k: nat)
    requires Referential(db) && (parent.Some? ==> parent.value in db.nodes)
    ensures VisibleAt(AfterCreate(db, mapId, parent, userId, content), db.nodeSeq + 1, viewer, k) <==>
            parent.Some? && k > 0 && VisibleAt(db, parent.value, viewer, k - 1)
  {
    if parent.Some? && k > 0 {
      CreateSpares(db, mapId, parent, userId, content, parent.value, viewer, k - 1);
    }
  }

  /** Deleting a node changes nothing for those that survive. */
  lemma DeleteSpares(db: Db, id: int, n: int, viewer: int, k: nat)
    requires ParentsExist(db.nodes) && n in db.nodes && n !in CascadeSet(db.nodes, id)
    ensures VisibleAt(AfterDelete(db, CascadeSet(db.nodes, id)), n, viewer, k) <==> VisibleAt(db, n, viewer, k)
  {
    SurvivorsClosed(db, id);
    VisibleAgrees(db, AfterDelete(db, CascadeSet(db.nodes, id)), db.nodes.Keys - CascadeSet(db.nodes, id), n, viewer, k);
  }

  // ---- Move, on any tables ----

  /** A node that does not lie below the source, on whatever map, is seen as before. */
  lemma MoveSpares(db: Db, caller: Caller, mapId: int, id: int, target: Target, n: int, userId: int, k: nat)
    requires ParentsExist(db.nodes) && MoveRefusal(db, caller, mapId, id, target).None?
    requires n in db.nodes && n !in CascadeSet(db.nodes, id)
    ensures VisibleAt(MoveResult(db, caller, mapId, id, target), n, userId, k) <==> VisibleAt(db, n, userId, k)
  {
    var after, rest := MoveResult(db, caller, mapId, id, target), db.nodes.Keys - CascadeSet(db.nodes, id);
    NotBelowClosed(db, caller, mapId, id, target);
    SubtreeBelow(db.nodes, id);
    VisibleAgrees(db, after, rest, n, userId, k);
  }

  lemma SubtreeBelow(nodes: NodeTable, id: int)
    requires id in nodes
    ensures Subtree(nodes, id) <= CascadeSet(nodes, id)
  {
    forall m | m in Subtree(nodes, id) ensures m in CascadeSet(nodes, id) {
      var k: nat :| Descends(nodes, id, m, k);
      DescendsUp(nodes, id, m, k);
    }
  }

  lemma {:induction false} WalkKept(db: Db, caller: Caller, mapId: int, id: int, target: Target, n: int, d: nat, j: nat)
    requires id in db.nodes && MeetsAfter(db.nodes, id, n, d)
    requires j <= d && ResolvesAt(db.nodes, n, j)
    ensures var nodes' := MoveResult(db, caller, mapId, id, target).nodes;
            ResolvesAt(nodes', n, j) && Up(nodes', n, j).Some? && Up(nodes', n, j) == Up(db.nodes, n, j)
    decreases j
  {
    if j == 0 {
    } else {
      WalkKept(db, caller, mapId, id, target, db.nodes[n].parentId.value, d - 1, j - 1);
    }
  }

  /**
   A node that finds its flag no further up than the source keeps its groups, unless the move is
   across maps and the flagged node is among those whose tags it drops: then nobody sees it.
   */
  lemma MovedInside(db: Db, caller: Caller, mapId: int, id: int, target: Target,
                    n: int, d: nat, j: nat, userId: int, k: nat)
    requires MoveRefusal(db, caller, mapId, id, target).None?
    requires MeetsAfter(db.nodes, id, n, d) && j <= d && ResolvesAt(db.nodes, n, j)
    ensures Up(db.nodes, n, j).Some?
    ensures VisibleAt(MoveResult(db, caller, mapId, id, target), n, userId, k) <==>
            VisibleAt(db, n, userId, k)
            && !(CrossMap(mapId, target) && Up(db.nodes, n, j).value in Subtree(db.nodes, id))
  {
    var after := MoveResult(db, caller, mapId, id, target);
    WalkKept(db, caller, mapId, id, target, n, d, j);
    VisibleAtMeaning(db, n, userId, k);
    VisibleAtMeaning(after, n, userId, k);
    if ResolvesAt(db.nodes, n, k) { ResolvesOnce(db.nodes, n, j, k); }
    if ResolvesAt(after.nodes, n, k) { ResolvesOnce(after.nodes, n, j, k); }
    TagsAfterMove(db, caller, mapId, id, target, Up(db.nodes, n, j).value, userId);
  }

  lemma TagsAfterMove(db: Db, caller: Caller, mapId: int, id: int, target: Target, c: int, userId: int)
    requires id in db.nodes
    ensures TagsMeet(MoveResult(db, caller, mapId, id, target), c, userId) <==>
            TagsMeet(db, c, userId) && !(CrossMap(mapId, target) && c in Subtree(db.nodes, id))
  {}

  /** Any other node below the source sees, `d + 1` hops further up, what the new parent then sees. */
  lemma {:induction false} MovedBeyond(db: Db, caller: Caller, mapId: int, id: int, target: Target,
                                       n: int, d: nat, userId: int, k: nat)
    requires MoveRefusal(db, caller, mapId, id, target).None?
    requires MeetsAfter(db.nodes, id, n, d) && NoFlagOnPath(db.nodes, n, d)
    ensures var after, p := MoveResult(db, caller, mapId, id, target), NewParent(target.newParent, db.nodes[id].parentId);
            VisibleAt(after, n, userId, k) <==> p.Some? && k > d && VisibleAt(after, p.value, userId, k - d - 1)
    decreases d
  {
    if d == 0 {
    } else if k > 0 {
      MovedBeyond(db, caller, mapId, id, target, db.nodes[n].parentId.value, d - 1, userId, k - 1);
    }
  }

  /** When the new parent does not lie below the source, that is what it saw before. */
  lemma MovedVisibility(db: Db, caller: Caller, mapId: int, id: int, target: Target, n: int, d: nat, userId: int, k: nat)
    requires ParentsExist(db.nodes) && MoveRefusal(db, caller, mapId, id, target).None?
    requires MeetsAfter(db.nodes, id, n, d) && NoFlagOnPath(db.nodes, n, d)
    requires var p := NewParent(target.newParent, db.nodes[id].parentId);
             p.Some? ==> p.value !in CascadeSet(db.nodes, id)
    ensures var p := NewParent(target.newParent, db.nodes[id].parentId);
            VisibleAt(MoveResult(db, caller, mapId, id, target), n, userId, k) <==>
            p.Some? && k > d && VisibleAt(db, p.value, userId, k - d - 1)
  {
    var p := NewParent(target.newParent, db.nodes[id].parentId);
    MovedBeyond(db, caller, mapId, id, target, n, d, userId, k);
    if p.Some? && k > d {
      MoveSpares(db, caller, mapId, id, target, p.value, userId, k - d - 1);
    }
  }

  /** When it does, and there is no flag on the cycle that this closes, nobody sees the node. */
  lemma {:induction false} MovedIntoCycle(db: Db, caller: Caller, mapId: int, id: int, target: Target,
                                          p: int, e: nat, n: int, d: nat, userId: int, k: nat)
    requires MoveRefusal(db, caller, mapId, id, target).None?
    requires NewParent(target.newParent, db.nodes[id].parentId) == Some(p)
    requires MeetsAfter(db.nodes, id, p, e) && NoFlagOnPath(db.nodes, p, e)
    requires MeetsAfter(db.nodes, id, n, d) && NoFlagOnPath(db.nodes, n, d)
    ensures !VisibleAt(MoveResult(db, caller, mapId, id, target), n, userId, k)
    decreases k
  {
    MovedBeyond(db, caller, mapId, id, target, n, d, userId, k);
    if k <= d {
    } else {
      MovedIntoCycle(db, caller, mapId, id, target, p, e, p, e, userId, k - d - 1);
    }
  }

  // ---- Move, in a forest ----

  /**
   Where parents are on their children's maps, a move on one map changes nothing for a node outside
   the subtree, nor for one that finds its flag inside.
   */
  lemma SameMapMoveVisibility(db: Db, caller: Caller, mapId: int, id: int, target: Target,
                              n: int, userId: int, d: nat, j: nat, k: nat)
    requires ParentsExist(db.nodes) && SameMap(db.nodes) && MoveRefusal(db, caller, mapId, id, target).None?
    requires !CrossMap(mapId, target) && n in db.nodes
    requires n !in Subtree(db.nodes, id)
             || (MeetsAfter(db.nodes, id, n, d) && j <= d && ResolvesAt(db.nodes, n, j))
    ensures VisibleAt(MoveResult(db, caller, mapId, id, target), n, userId, k) <==> VisibleAt(db, n, userId, k)
  {
    CascadeIsSubtree(db.nodes, id);
    if n in Subtree(db.nodes, id) {
      MovedInside(db, caller, mapId, id, target, n, d, j, userId, k);
    } else {
      MoveSpares(db, caller, mapId, id, target, n, userId, k);
    }
  }

  /** A move across maps changes nothing outside the subtree, and hides every node that finds its flag inside from everyone. */
  lemma CrossMapMoveVisibility(db: Db, caller: Caller, mapId: int, id: int, target: Target,
                               n: int, userId: int, d: nat, j: nat, k: nat)
    requires ParentsExist(db.nodes) && SameMap(db.nodes) && MoveRefusal(db, caller, mapId, id, target).None?
    requires CrossMap(mapId, target) && n in db.nodes
    requires n !in Subtree(db.nodes, id)
             || (MeetsAfter(db.nodes, id, n, d) && j <= d && ResolvesAt(db.nodes, n, j))
    ensures VisibleAt(MoveResult(db, caller, mapId, id, target), n, userId, k) <==>
            n !in Subtree(db.nodes, id) && VisibleAt(db, n, userId, k)
  {
    CascadeIsSubtree(db.nodes, id);
    if n in Subtree(db.nodes, id) {
      MovedInside(db, caller, mapId, id, target, n, d, j, userId, k);
      MeetsUp(db.nodes, id, n, d);
      UpAdd(db.nodes, n, j, d - j);
    } else {
      MoveSpares(db, caller, mapId, id, target, n, userId, k);
    }
  }

  // ---- Copy ----

  /** A copy changes nothing for the old nodes. */
  lemma CopySparesOldNodes(before: Db, after: Db, root: int, dest: int, parent: Option<int>, userId: int,
                           idMap: map<int, int>, noteMap: map<int, int>, n: int, viewer: int, k: nat)
    requires Referential(before) && root in before.nodes && n in before.nodes
    requires IsCopy(before, after, root, dest, parent, userId, idMap, noteMap)
    ensures VisibleAt(after, n, viewer, k) <==> VisibleAt(before, n, viewer, k)
  {
    assert AgreeOn(before.nodes, after.nodes, before.nodes.Keys);
    VisibleAgrees(before, after, before.nodes.Keys, n, viewer, k);
  }

  /** Every copied node resolves as the new parent does, whatever flags and tags its source had. */
  lemma {:induction false} CopyVisibility(before: Db, after: Db, root: int, dest: int, parent: Option<int>, userId: int,
                                          idMap: map<int, int>, noteMap: map<int, int>,
                                          m: int, d: nat, viewer: int, k: nat)
    requires Referential(before) && root in before.nodes && !OnMapCycle(before.nodes, root)
    requires IsCopy(before, after, root, dest, parent, userId, idMap, noteMap)
    requires parent.Some? ==> parent.value in before.nodes
    requires Descends(before.nodes, root, m, d)
    ensures m in idMap
    ensures VisibleAt(after, idMap[m], viewer, k) <==>
            parent.Some? && k > d && VisibleAt(before, parent.value, viewer, k - d - 1)
    decreases d
  {
    DescendsUp(before.nodes, root, m, d);
    assert m in Subtree(before.nodes, root);
    assert idMap[m] in idMap.Values;
    if d == 0 {
      if parent.Some? && k > 0 {
        var q := parent.value;
        CopySparesOldNodes(before, after, root, dest, parent, userId, idMap, noteMap, q, viewer, k - 1);
      }
    } else {
      var above := CopiedParent(before.nodes, after.nodes, root, dest, parent, userId, idMap, m, d);
      if k > 0 {
        CopyVisibility(before, after, root, dest, parent, userId, idMap, noteMap, above, d - 1, viewer, k - 1);
      }
    }
  }

  /** So a copy is effectively visible exactly to those who could already see the new parent. */
  lemma CopyEffectivelyVisible(before: Db, after: Db, root: int, dest: int, parent: Option<int>, userId: int,
                               idMap: map<int, int>, noteMap: map<int, int>, m: int, viewer: int)
    requires Referential(before) && root in before.nodes && !OnMapCycle(before.nodes, root)
    requires IsCopy(before, after, root, dest, parent, userId, idMap, noteMap)
    requires parent.Some? ==> parent.value in before.nodes
    requires m in idMap
    ensures EffectivelyVisible(after, idMap[m], viewer) <==>
            parent.Some? && EffectivelyVisible(before, parent.value, viewer)
  {
    var d: nat :| Descends(before.nodes, root, m, d);
    if EffectivelyVisible(after, idMap[m], viewer) {
      var k: nat :| VisibleAt(after, idMap[m], viewer, k);
      CopyVisibility(before, after, root, dest, parent, userId, idMap, noteMap, m, d, viewer, k);
    }
    if parent.Some? && EffectivelyVisible(before, parent.value, viewer) {
      var k: nat :| VisibleAt(before, parent.value, viewer, k);
      CopyVisibility(before, after, root, dest, parent, userId, idMap, noteMap, m, d, viewer, k + d + 1);
    }
  }

  // ---- Tagging ----

  /** Tagging `m` changes nothing for a node whose walk does not reach `m` unresolved. */
  lemma {:induction false} TaggingSpares(db: Db, m: int, override: Option<bool>, groupIds: Option<set<int>>,
                                         n: int, userId: int, k: nat)
    requires forall j: nat :: !Walks(db.nodes, n, m, j)
    ensures VisibleAt(AfterSetVisibility(db, m, override, groupIds), n, userId, k) <==> VisibleAt(db, n, userId, k)
    decreases k
  {
    var after := AfterSetVisibility(db, m, override, groupIds);
    if n in db.nodes {
      assert n != m by { if n == m { assert Walks(db.nodes, n, m, 0); } }
      if db.nodes[n].visibilityOverride {
        TagsOfOthers(db, m, override, groupIds, n, userId);
      } else if k > 0 && db.nodes[n].parentId.Some? {
        var p := db.nodes[n].parentId.value;
        forall j: nat ensures !Walks(db.nodes, p, m, j) {
          if Walks(db.nodes, p, m, j) { WalksFromChild(db.nodes, n, p, m, j); }
        }
        TaggingSpares(db, m, override, groupIds, p, userId, k - 1);
      }
    }
  }

  lemma TagsOfOthers(db: Db, m: int, override: Option<bool>, groupIds: Option<set<int>>, n: int, userId: int)
    requires n != m
    ensures TagsMeet(AfterSetVisibility(db, m, override, groupIds), n, userId) <==> TagsMeet(db, n, userId)
  {
    var after := AfterSetVisibility(db, m, override, groupIds);
    assert forall t: (int, int) :: t.0 == n ==> (t in after.nodeTags <==> t in db.nodeTags);
  }

  lemma WalksFromChild(nodes: NodeTable, n: int, p: int, c: int, j: nat)
    requires n in nodes && !nodes[n].visibilityOverride && nodes[n].parentId == Some(p)
    requires Walks(nodes, p, c, j)
    ensures Walks(nodes, n, c, j + 1)
  {
    forall i: nat | i < j + 1 ensures Up(nodes, n, i).Some? && !Overrides(nodes, Up(nodes, n, i).value) {
      if i > 0 { assert Up(nodes, n, i) == Up(nodes, p, i - 1); }
    }
  }

  /** The flag and the groups that a tagging request leaves on `m`. */
  function NewFlag(db: Db, m: int, override: Option<bool>): bool
    requires m in db.nodes
  {
    if override.Some? then override.value else db.nodes[m].visibilityOverride
  }

  predicate InNewGroups(db: Db, m: int, groupIds: Option<set<int>>, userId: int) {
    if groupIds.Some? then exists g :: g in groupIds.value && (g, userId) in db.dir.groupMembers
    else TagsMeet(db, m, userId)
  }

  /** With the flag on, the groups left on `m` decide for every node that walks to `m`. */
  lemma {:induction false} TaggingDecides(db: Db, m: int, override: Option<bool>, groupIds: Option<set<int>>,
                                          n: int, userId: int, k: nat)
    requires m in db.nodes && NewFlag(db, m, override)
    requires Walks(db.nodes, n, m, k) && Grounded(db.nodes, n)
    ensures VisibleAt(AfterSetVisibility(db, m, override, groupIds), n, userId, k) <==>
            InNewGroups(db, m, groupIds, userId)
    decreases k
  {
    if k == 0 {
      assert n == m;
      NewTagsMeet(db, m, override, groupIds, userId);
    } else {
      var p := StepOfWalk(db.nodes, n, m, k);
      TaggingDecides(db, m, override, groupIds, p, userId, k - 1);
    }
  }

  /** With the flag off, every node that walks to `m` sees what `m`'s parent does, that much further up. */
  lemma {:induction false} TaggingReleases(db: Db, m: int, override: Option<bool>, groupIds: Option<set<int>>,
                                           n: int, userId: int, k: nat, j: nat)
    requires m in db.nodes && !NewFlag(db, m, override)
    requires Walks(db.nodes, n, m, k) && Grounded(db.nodes, n)
    ensures VisibleAt(AfterSetVisibility(db, m, override, groupIds), n, userId, j) <==>
            db.nodes[m].parentId.Some? && j > k && VisibleAt(db, db.nodes[m].parentId.value, userId, j - k - 1)
    decreases k
  {
    if k == 0 {
      assert n == m;
      if db.nodes[m].parentId.Some? && j > 0 {
        var p := db.nodes[m].parentId.value;
        forall i: nat ensures !Walks(db.nodes, p, m, i) {
          var d: nat :| Up(db.nodes, m, d) == None;
          NotOwnAncestor(db.nodes, m, d, i + 1);
          assert Up(db.nodes, m, i + 1) == Up(db.nodes, p, i);
        }
        TaggingSpares(db, m, override, groupIds, p, userId, j - 1);
      }
    } else {
      var p := StepOfWalk(db.nodes, n, m, k);
      if j > 0 { TaggingReleases(db, m, override, groupIds, p, userId, k - 1, j - 1); }
    }
  }

  lemma NewTagsMeet(db: Db, m: int, override: Option<bool>, groupIds: Option<set<int>>, userId: int)
    ensures TagsMeet(AfterSetVisibility(db, m, override, groupIds), m, userId) <==> InNewGroups(db, m, groupIds, userId)
  {
    var after := AfterSetVisibility(db, m, override, groupIds);
    if groupIds.Some? {
      if g :| g in groupIds.value && (g, userId) in db.dir.groupMembers {
        assert (m, g) in after.nodeTags;
      }
    }
  }

  /** A walk of `k > 0` hops starts at another node without the flag, and goes on from its parent. */
  lemma StepOfWalk(nodes: NodeTable, n: int, m: int, k: nat) returns (p: int)
    requires k > 0 && Walks(nodes, n, m, k) && Grounded(nodes, n)
    ensures n in nodes && n != m && !nodes[n].visibilityOverride && nodes[n].parentId == Some(p)
    ensures Walks(nodes, p, m, k - 1) && Grounded(nodes, p)
  {
    p := nodes[n].parentId.value;
    var d: nat :| Up(nodes, n, d) == None;
    if n == m { NotOwnAncestor(nodes, n, d, k); }
    WalksFromParent(nodes, n, p, m, k - 1);
    assert Up(nodes, p, d - 1) == None;
  }

  lemma WalksFromParent(nodes: NodeTable, n: int, p: int, c: int, j: nat)
    requires n in nodes && nodes[n].parentId == Some(p) && Walks(nodes, n, c, j + 1)
    ensures Walks(nodes, p, c, j) && !nodes[n].visibilityOverride
  {
    assert Up(nodes, n, 0) == Some(n);
    forall i: nat | i < j ensures Up(nodes, p, i).Some? && !Overrides(nodes, Up(nodes, p, i).value) {
      assert Up(nodes, n, i + 1) == Up(nodes, p, i);
    }
  }

  /** Tags survive a flip of the flag: turning it to anything and back restores every table. */
  lemma FlipBackRestores(db: Db, m: int, value: bool)
    requires m in db.nodes
    ensures var flipped := AfterSetVisibility(db, m, Some(value), None);
            AfterSetVisibility(flipped, m, Some(db.nodes[m].visibilityOverride), None) == db
  {
    var flipped := AfterSetVisibility(db, m, Some(value), None);
    var back := AfterSetVisibility(flipped, m, Some(db.nodes[m].visibilityOverride), None);
    assert back.nodes == db.nodes;
  }
}
