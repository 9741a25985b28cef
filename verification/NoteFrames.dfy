/**
 What moving and copying nodes does to the notes on them.
*/
module NoteFrames {
  import opened Tables
  import opened Forest
  import opened Resolver
  import opened Effects
  import opened Requests
  import opened ForestSafety
  import opened VisibilityFrames
  import opened Listing
  import opened NotesAndPlots
  import CopyLoop

  lemma WithinAgrees(db: Db, db': Db, n: int, userId: int, hops: nat)
    requires forall k: nat :: VisibleAt(db', n, userId, k) <==> VisibleAt(db, n, userId, k)
    ensures VisibleWithin(db', n, userId, hops) <==> VisibleWithin(db, n, userId, hops)
  {
    if VisibleWithin(db', n, userId, hops) {
      var k: nat :| k <= hops && VisibleAt(db', n, userId, k);
      assert VisibleAt(db, n, userId, k);
    }
    if VisibleWithin(db, n, userId, hops) {
      var k: nat :| k <= hops && VisibleAt(db, n, userId, k);
      assert VisibleAt(db', n, userId, k);
    }
  }

  lemma WithinShifted(db: Db, db': Db, parent: Option<int>, n: int, userId: int, d: nat, hops: nat)
    requires forall k: nat :: VisibleAt(db', n, userId, k) <==>
                              parent.Some? && k > d && VisibleAt(db, parent.value, userId, k - d - 1)
    ensures VisibleWithin(db', n, userId, hops) <==>
            parent.Some? && d < hops && VisibleWithin(db, parent.value, userId, hops - d - 1)
  {
    if VisibleWithin(db', n, userId, hops) {
      var k: nat :| k <= hops && VisibleAt(db', n, userId, k);
      var j := k - d - 1;
      assert VisibleAt(db, parent.value, userId, j);
    }
    if parent.Some? && d < hops && VisibleWithin(db, parent.value, userId, hops - d - 1) {
      var bound := hops - d - 1;
      var j: nat :| j <= bound && VisibleAt(db, parent.value, userId, j);
      assert VisibleAt(db', n, userId, j + d + 1);
    }
  }

  // ---- Copy ----

  /** A copied note never overrides: it is visible exactly as the copied node that it is on. */
  lemma CopiedNoteFollowsNode(before: Db, after: Db, root: int, dest: int, parent: Option<int>, userId: int,
                              idMap: map<int, int>, noteMap: map<int, int>, t: int, viewer: int)
    requires root in before.nodes && IsCopy(before, after, root, dest, parent, userId, idMap, noteMap)
    requires t in noteMap
    ensures t in before.notes && before.notes[t].nodeId in idMap
    ensures NoteVisible(after, noteMap[t], viewer) <==>
            VisibleWithin(after, idMap[before.notes[t].nodeId], viewer, MAX_NODE_DEPTH)
  {
    assert noteMap[t] in noteMap.Values;
    assert after.notes[noteMap[t]] == CopyOfNote(before.notes[t], idMap[before.notes[t].nodeId], userId);
  }

  /**
   So who sees it depends on the new parent alone, and on how deep in the copy its node lies; the
   source note's flag and tags do not matter.
   */
  lemma CopiedNoteVisibility(before: Db, after: Db, root: int, dest: int, parent: Option<int>, userId: int,
                             idMap: map<int, int>, noteMap: map<int, int>, t: int, d: nat, viewer: int)
    requires Referential(before) && root in before.nodes && !OnMapCycle(before.nodes, root)
    requires IsCopy(before, after, root, dest, parent, userId, idMap, noteMap)
    requires parent.Some? ==> parent.value in before.nodes
    requires t in noteMap && t in before.notes && Descends(before.nodes, root, before.notes[t].nodeId, d)
    ensures NoteVisible(after, noteMap[t], viewer) <==>
            parent.Some? && d < MAX_NODE_DEPTH && VisibleWithin(before, parent.value, viewer, MAX_NODE_DEPTH - d - 1)
  {
    var m := before.notes[t].nodeId;
    CopiedNoteFollowsNode(before, after, root, dest, parent, userId, idMap, noteMap, t, viewer);
    forall k: nat ensures VisibleAt(after, idMap[m], viewer, k) <==>
                          parent.Some? && k > d && VisibleAt(before, parent.value, viewer, k - d - 1)
    {
      CopyVisibility(before, after, root, dest, parent, userId, idMap, noteMap, m, d, viewer, k);
    }
    WithinShifted(before, after, parent, idMap[m], viewer, d, MAX_NODE_DEPTH);
  }

  /** A copy changes nobody's view of an old note. */
  lemma CopySparesOldNotes(before: Db, after: Db, root: int, dest: int, parent: Option<int>, userId: int,
                           idMap: map<int, int>, noteMap: map<int, int>, t: int, viewer: int)
    requires Referential(before) && root in before.nodes && t in before.notes
    requires IsCopy(before, after, root, dest, parent, userId, idMap, noteMap)
    ensures NoteVisible(after, t, viewer) <==> NoteVisible(before, t, viewer)
  {
    var n := before.notes[t].nodeId;
    assert after.notes[t] == before.notes[t];
    forall k: nat ensures VisibleAt(after, n, viewer, k) <==> VisibleAt(before, n, viewer, k) {
      CopySparesOldNodes(before, after, root, dest, parent, userId, idMap, noteMap, n, viewer, k);
    }
    WithinAgrees(before, after, n, viewer, MAX_NODE_DEPTH);
  }

  // ---- Move ----

  /**
   A move, across maps or not, leaves notes, note tags and the plot memberships of notes alone, across tenants too: an
   overriding note stays visible to exactly the groups it was tagged with, whoever may view its new
   map; any other note goes with its node.
   */
  lemma MovedNoteVisibility(db: Db, caller: Caller, mapId: int, id: int, target: Target, t: int, viewer: Caller)
    requires MoveRefusal(db, caller, mapId, id, target).None?
    requires t in db.notes && db.notes[t].nodeId in Subtree(db.nodes, id)
    ensures var after, dest := MoveResult(db, caller, mapId, id, target), DestMap(mapId, target);
            && after.notes == db.notes && after.noteTags == db.noteTags && after.plotNotes == db.plotNotes
            && (GetsNote(after, viewer, dest, t) <==>
                && MayViewMap(db, viewer, dest)
                && (viewer.isAdmin || HasXray(db, viewer.userId, dest)
                    || if db.notes[t].visibilityOverride then NoteTagsMeet(db, t, viewer.userId)
                       else VisibleWithin(after, db.notes[t].nodeId, viewer.userId, MAX_NODE_DEPTH)))
  {
    var after, dest := MoveResult(db, caller, mapId, id, target), DestMap(mapId, target);
    ShownNotesMeaning(after, viewer, dest, t);
  }

  /** The plots of the old tenant keep the membership of a note moved to another tenant, but list it to nobody there. */
  lemma StrandedPlotNote(db: Db, caller: Caller, mapId: int, id: int, target: Target,
                         plot: int, t: int, viewer: Caller)
    requires MoveRefusal(db, caller, mapId, id, target).None? && CrossTenant(db, caller, mapId, target)
    requires t in db.notes && db.notes[t].nodeId in Subtree(db.nodes, id) && (plot, t) in db.plotNotes
    ensures var after := MoveResult(db, caller, mapId, id, target);
            && (plot, t) in after.plotNotes
            && (plot, db.notes[t].nodeId) !in after.plotNodes
            && (viewer.tenantId == caller.tenantId ==> t !in ListMemberNotes(after, viewer, plot))
  {
    assert MoveResult(db, caller, mapId, id, target).nodes[db.notes[t].nodeId].mapId == DestMap(mapId, target);
  }
}
