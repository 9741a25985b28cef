/**
 What each write leaves in the tables, row by row and column by column, beside the whole effects that
 the handlers are proved against.
*/
module RowEffects {
  import opened Tables
  import opened Forest
  import opened Effects
  import opened Requests
  import opened ForestSafety
  import Order

  /** A text column that is written through `NULLIF(?, '')`. */
  predicate EmptyToNull(written: Option<string>, given: Option<string>) {
    written == if given == Some("") then None else given
  }

  // ---- Create ----

  /** One new row with what the body gives, no flag, and the caller as its creator; nothing else changes. */
  lemma CreatedRow(db: Db, mapId: int, parent: Option<int>, userId: int, content: NodeContent)
    requires Referential(db)
    ensures var after, id := AfterCreate(db, mapId, parent, userId, content), db.nodeSeq + 1;
            && id !in db.nodes && after.nodes.Keys == db.nodes.Keys + {id}
            && (forall n :: n in db.nodes ==> after.nodes[n] == db.nodes[n])
            && after == db.(nodes := after.nodes, nodeSeq := id)
            && var row := after.nodes[id];
               && row.mapId == mapId && row.parentId == parent && row.createdBy == userId && !row.visibilityOverride
               && row.name == content.name && row.geoJson == content.geoJson
               && EmptyToNull(row.description, Some(content.description))
               && EmptyToNull(row.color, Some(content.color))
  {
    assert db.nodeSeq + 1 !in db.nodes;
  }

  // ---- Copy ----

  /** A copied node has its source's text and geometry, is on the destination map, and has neither flag nor tags. */
  lemma CopiedNode(before: Db, after: Db, root: int, dest: int, parent: Option<int>, userId: int,
                   idMap: map<int, int>, noteMap: map<int, int>, m: int)
    requires Referential(before) && root in before.nodes && m in idMap
    requires IsCopy(before, after, root, dest, parent, userId, idMap, noteMap)
    ensures m in before.nodes && idMap[m] in after.nodes
    ensures var row, src := after.nodes[idMap[m]], before.nodes[m];
            && row.name == src.name && row.geoJson == src.geoJson
            && row.description == src.description && row.color == src.color
            && row.mapId == dest && row.createdBy == userId && !row.visibilityOverride
            && (m == root ==> row.parentId == parent)
            && (m != root ==> src.parentId.Some? && src.parentId.value in idMap
                              && row.parentId == Some(idMap[src.parentId.value]))
    ensures forall r :: r in after.nodeTags ==> r.0 != idMap[m]
    ensures forall r :: r in after.plotNodes ==> r.1 != idMap[m]
  {
    SubtreeClosed(before.nodes, root);
    assert idMap[m] in idMap.Values;
    assert idMap[m] !in before.nodes;
  }

  /** A copied note has its source's text and pin, is on the copied node, and has neither flag nor tags. */
  lemma CopiedNote(before: Db, after: Db, root: int, dest: int, parent: Option<int>, userId: int,
                   idMap: map<int, int>, noteMap: map<int, int>, t: int)
    requires Referential(before) && root in before.nodes && t in noteMap
    requires IsCopy(before, after, root, dest, parent, userId, idMap, noteMap)
    ensures t in before.notes && before.notes[t].nodeId in idMap && noteMap[t] in after.notes
    ensures var row, src := after.notes[noteMap[t]], before.notes[t];
            && row.text == src.text && row.pinned == src.pinned
            && EmptyToNull(row.title, src.title) && EmptyToNull(row.color, src.color)
            && row.nodeId == idMap[src.nodeId] && row.createdBy == userId && !row.visibilityOverride
    ensures forall r :: r in after.noteTags ==> r.0 != noteMap[t]
    ensures forall r :: r in after.plotNotes ==> r.1 != noteMap[t]
  {
    assert noteMap[t] in noteMap.Values;
    assert noteMap[t] !in before.notes;
  }

  // ---- Move ----

  /** Every table after a move, in terms of the body's two fields. */
  lemma MovedRows(db: Db, caller: Caller, mapId: int, id: int, target: Target)
    requires MoveRefusal(db, caller, mapId, id, target).None?
    ensures var after := MoveResult(db, caller, mapId, id, target);
            var dest := if target.newMap.Given? then target.newMap.value else mapId;
            && after == db.(nodes := after.nodes, nodeTags := after.nodeTags, plotNodes := after.plotNodes)
            && after.nodes.Keys == db.nodes.Keys
            && (forall n :: n in db.nodes ==>
                  var row, was := after.nodes[n], db.nodes[n];
                  && row.name == was.name && row.geoJson == was.geoJson && row.description == was.description
                  && row.color == was.color && row.visibilityOverride == was.visibilityOverride
                  && row.createdBy == was.createdBy
                  && row.mapId == (if n in Subtree(db.nodes, id) then dest else was.mapId)
                  && (n != id ==> row.parentId == was.parentId))
            && (target.newParent.Null? ==> after.nodes[id].parentId == None)
            && (target.newParent.Given? ==> after.nodes[id].parentId == Some(target.newParent.value))
            && (target.newParent.Absent? ==> after.nodes[id].parentId == db.nodes[id].parentId)
            && (forall r: (int, int) :: r in after.nodeTags <==>
                  r in db.nodeTags && (dest == mapId || r.0 !in Subtree(db.nodes, id)))
            && (dest != mapId ==> dest in db.dir.maps)
            && (forall r: (int, int) :: r in after.plotNodes <==>
                  r in db.plotNodes
                  && (dest == mapId || db.dir.maps[dest].tenantId == caller.tenantId || r.1 !in Subtree(db.nodes, id)))
  {
    SubtreeClosed(db.nodes, id);
  }

  // ---- Delete ----

  /** A row is there after a delete iff it was there before and refers to nothing that the cascade takes. */
  lemma DeletedRows(db: Db, id: int)
    requires Referential(db)
    ensures var after, gone := AfterDelete(db, CascadeSet(db.nodes, id)), CascadeSet(db.nodes, id);
            && after.dir == db.dir && after.nodeSeq == db.nodeSeq && after.noteSeq == db.noteSeq
            && (forall n :: n in after.nodes <==> n in db.nodes && n !in gone)
            && (forall n :: n in after.nodes ==> after.nodes[n] == db.nodes[n])
            && (forall t :: t in after.notes <==> t in db.notes && db.notes[t].nodeId !in gone)
            && (forall t :: t in after.notes ==> after.notes[t] == db.notes[t])
            && (forall r: (int, int) :: r in after.nodeTags <==> r in db.nodeTags && r.0 !in gone)
            && (forall r: (int, int) :: r in after.noteTags <==> r in db.noteTags && db.notes[r.0].nodeId !in gone)
            && (forall r: (int, int) :: r in after.plotNodes <==> r in db.plotNodes && r.1 !in gone)
            && (forall r: (int, int) :: r in after.plotNotes <==> r in db.plotNotes && db.notes[r.1].nodeId !in gone)
            && Order.Subsequence(after.edges, db.edges)
            && (forall e :: multiset(after.edges)[e]
                  == if e.sourceId in gone || e.destId in gone then 0 else multiset(db.edges)[e])
  {
    KeepEdgesMeaning(db.edges, CascadeSet(db.nodes, id));
  }

  // ---- Visibility tagging ----

  /** Only the flag and the tags of the one node change, each only when the body gives it. */
  lemma TaggedRows(db: Db, id: int, override: Option<bool>, groupIds: Option<set<int>>)
    requires id in db.nodes
    ensures var after := AfterSetVisibility(db, id, override, groupIds);
            && after == db.(nodes := after.nodes, nodeTags := after.nodeTags)
            && after.nodes.Keys == db.nodes.Keys
            && (forall n :: n in db.nodes && n != id ==> after.nodes[n] == db.nodes[n])
            && after.nodes[id] == db.nodes[id].(visibilityOverride := after.nodes[id].visibilityOverride)
            && (override.Some? ==> after.nodes[id].visibilityOverride == override.value)
            && (override.None? ==> after.nodes[id] == db.nodes[id])
            && (forall r: (int, int) :: r.0 != id ==> (r in after.nodeTags <==> r in db.nodeTags))
            && (forall g :: (id, g) in after.nodeTags <==>
                  if groupIds.Some? then g in groupIds.value else (id, g) in db.nodeTags)
  {}
}
