/**
 The SQL statements that NodeController issues inside transactions, and the whole effect that
 each of its write endpoints is to have on the tables.
*/
module Effects {
  import opened Tables
  import opened Forest
  import Order

  // ---- Single statements ----

  datatype Stmt =
    | UpdateMap(ids: set<int>, mapId: int)
    | DeleteNodeTags(ids: set<int>)
    | DeletePlotNodes(ids: set<int>)
    | UpdateParent(id: int, parentId: Option<int>)
    | UpdateOverride(id: int, value: bool)
    | InsertNodeTags(id: int, groupIds: set<int>)

  function Exec(db: Db, stmt: Stmt): Db {
    match stmt
    case UpdateMap(ids, mapId) =>
      db.(nodes := map n | n in db.nodes :: if n in ids then db.nodes[n].(mapId := mapId) else db.nodes[n])
    case DeleteNodeTags(ids) => db.(nodeTags := set r | r in db.nodeTags && r.0 !in ids)
    case DeletePlotNodes(ids) => db.(plotNodes := set r | r in db.plotNodes && r.1 !in ids)
    case UpdateParent(id, p) =>
      if id in db.nodes then db.(nodes := db.nodes[id := db.nodes[id].(parentId := p)]) else db
    case UpdateOverride(id, v) =>
      if id in db.nodes then db.(nodes := db.nodes[id := db.nodes[id].(visibilityOverride := v)]) else db
    case InsertNodeTags(id, groupIds) => db.(nodeTags := db.nodeTags + set g | g in groupIds :: (id, g))
  }

  function ExecAll(db: Db, stmts: seq<Stmt>): Db
    decreases |stmts|
  {
    if stmts == [] then db else Exec(ExecAll(db, stmts[..|stmts| - 1]), stmts[|stmts| - 1])
  }

  /** INSERT INTO nodes: the new key is the next AUTO_INCREMENT value. */
  function InsertNode(db: Db, row: NodeRow): Db {
    db.(nodes := db.nodes[db.nodeSeq + 1 := row], nodeSeq := db.nodeSeq + 1)
  }

  function NullIfEmpty(s: string): Option<string> {
    if s == "" then None else Some(s)
  }

  // ---- Whole effects ----

  /** A body field that may be missing, JSON null, or an integer. */
  datatype Field = Absent | Null | Given(value: int)

  function NewParent(field: Field, current: Option<int>): Option<int> {
    match field
    case Absent => current
    case Null => None
    case Given(p) => Some(p)
  }

  /** Everything a move changes, row by row; `moved` is the source with its descendants. */
  function AfterMove(db: Db, id: int, moved: set<int>, parent: Field, dest: int,
                     crossMap: bool, crossTenant: bool): Db
  {
    db.(
      nodes := (map n | n in db.nodes ::
        db.nodes[n].(
          mapId := if n in moved && crossMap then dest else db.nodes[n].mapId,
          parentId := if n == id then NewParent(parent, db.nodes[n].parentId) else db.nodes[n].parentId)),
      nodeTags := (set r | r in db.nodeTags && !(crossMap && r.0 in moved)),
      plotNodes := (set r | r in db.plotNodes && !(crossTenant && r.1 in moved)))
  }

  /** The row a copied node gets: the source's text and geometry, everything else reset. */
  function CopyOfNode(src: NodeRow, dest: int, parent: Option<int>, userId: int): NodeRow {
    NodeRow(dest, parent, src.name, src.geoJson, src.description, src.color, false, userId)
  }

  function CopyOfNote(src: NoteRow, nodeId: int, userId: int): NoteRow {
    NoteRow(nodeId, userId,
            if src.title.Some? then NullIfEmpty(src.title.value) else None,
            src.text, src.pinned,
            if src.color.Some? then NullIfEmpty(src.color.value) else None,
            false)
  }

  /** The copy of `m` hangs under the copy of `m`'s parent, the copied root under the requested parent. */
  ghost function CopyParent(nodes: NodeTable, root: int, parent: Option<int>, idMap: map<int, int>, m: int): Option<int>
  {
    if m == root then parent
    else if m in nodes && nodes[m].parentId.Some? && nodes[m].parentId.value in idMap
    then Some(idMap[nodes[m].parentId.value])
    else None
  }

  ghost predicate Injective(f: map<int, int>) {
    forall x, y :: x in f && y in f && f[x] == f[y] ==> x == y
  }

  /** `idMap` is a bijection from the subtree of `root` to fresh keys, and carries the tree over. */
  ghost predicate IsNodeCopy(before: NodeTable, after: NodeTable, root: int, dest: int, parent: Option<int>,
                             userId: int, idMap: map<int, int>)
    requires root in before
  {
    && idMap.Keys == Subtree(before, root)
    && Injective(idMap)
    && (forall m :: m in idMap ==> idMap[m] !in before)
    && after.Keys == before.Keys + idMap.Values
    && (forall n :: n in before ==> after[n] == before[n])
    && (forall m :: m in idMap ==>
          after[idMap[m]] == CopyOfNode(before[m], dest, CopyParent(before, root, parent, idMap, m), userId))
  }

  /** Each note of a copied node has exactly one copy, on the copied node. */
  ghost predicate IsNoteCopy(before: Db, after: Db, userId: int, idMap: map<int, int>, noteMap: map<int, int>) {
    && noteMap.Keys == (set t | t in before.notes && before.notes[t].nodeId in idMap)
    && Injective(noteMap)
    && (forall t :: t in noteMap ==> noteMap[t] !in before.notes)
    && after.notes.Keys == before.notes.Keys + noteMap.Values
    && (forall t :: t in before.notes ==> after.notes[t] == before.notes[t])
    && (forall t :: t in noteMap ==>
          after.notes[noteMap[t]] == CopyOfNote(before.notes[t], idMap[before.notes[t].nodeId], userId))
  }

  /** The whole effect of a copy: new nodes, new notes, and no other change in any table. */
  ghost predicate IsCopy(before: Db, after: Db, root: int, dest: int, parent: Option<int>, userId: int,
                         idMap: map<int, int>, noteMap: map<int, int>)
    requires root in before.nodes
  {
    && IsNodeCopy(before.nodes, after.nodes, root, dest, parent, userId, idMap)
    && IsNoteCopy(before, after, userId, idMap, noteMap)
    && (forall m :: m in idMap ==> 0 < idMap[m] <= after.nodeSeq)
    && (forall t :: t in noteMap ==> 0 < noteMap[t] <= after.noteSeq)
    && after.nodeSeq >= before.nodeSeq && after.noteSeq >= before.noteSeq
    && after == before.(nodes := after.nodes, notes := after.notes,
                        nodeSeq := after.nodeSeq, noteSeq := after.noteSeq)
  }

  /** What ON DELETE CASCADE on `parent_id` removes: every node whose parent chain reaches `id`. */
  ghost function CascadeSet(nodes: NodeTable, id: int): set<int> {
    set m | m in nodes && exists k: nat :: Up(nodes, m, k) == Some(id)
  }

  ghost predicate MetAt(nodes: NodeTable, id: int, d: nat) {
    exists m :: MeetsAfter(nodes, id, m, d)
  }

  /** The cascade from `id` nests more than `limit` levels deep. */
  ghost predicate CascadeTooDeep(nodes: NodeTable, id: int, limit: nat) {
    MetAt(nodes, id, limit + 1)
  }

  function AfterDelete(db: Db, doomed: set<int>): Db {
    var doomedNotes := set t | t in db.notes && db.notes[t].nodeId in doomed;
    db.(
      nodes := (map n | n in db.nodes && n !in doomed :: db.nodes[n]),
      nodeTags := (set r | r in db.nodeTags && r.0 !in doomed),
      notes := (map t | t in db.notes && t !in doomedNotes :: db.notes[t]),
      noteTags := (set r | r in db.noteTags && r.0 !in doomedNotes),
      plotNodes := (set r | r in db.plotNodes && r.1 !in doomed),
      plotNotes := (set r | r in db.plotNotes && r.1 !in doomedNotes),
      edges := KeepEdges(db.edges, doomed))
  }

  function KeepEdges(edges: seq<EdgeRow>, doomed: set<int>): seq<EdgeRow> {
    Order.Filter(edges, (e: EdgeRow) => e.sourceId !in doomed && e.destId !in doomed)
  }

  lemma KeepEdgesMeaning(edges: seq<EdgeRow>, doomed: set<int>)
    ensures var kept := KeepEdges(edges, doomed);
            && Order.Subsequence(kept, edges)
            && (forall e :: multiset(kept)[e]
                  == if e.sourceId in doomed || e.destId in doomed then 0 else multiset(edges)[e])
            && (forall e :: e in kept <==> e in edges && e.sourceId !in doomed && e.destId !in doomed)
  {
    Order.FilterMeaning(edges, (e: EdgeRow) => e.sourceId !in doomed && e.destId !in doomed);
  }

  function AfterSetVisibility(db: Db, id: int, override: Option<bool>, groupIds: Option<set<int>>): Db {
    db.(
      nodes := (map n | n in db.nodes ::
        if n == id && override.Some? then db.nodes[n].(visibilityOverride := override.value) else db.nodes[n]),
      nodeTags :=
        if groupIds.None? then db.nodeTags
        else (set r | r in db.nodeTags && r.0 != id) + set g | g in groupIds.value :: (id, g))
  }

  function AfterCreate(db: Db, mapId: int, parent: Option<int>, userId: int, content: NodeContent): Db {
    InsertNode(db, NodeRow(mapId, parent, content.name, content.geoJson,
                           NullIfEmpty(content.description), NullIfEmpty(content.color), false, userId))
  }

  datatype NodeContent = NodeContent(name: string, geoJson: Option<string>, description: string, color: string)
}
