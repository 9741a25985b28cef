/**
 The relational state that the controllers read and write, one table per field of `Db`.

 Identifiers are mathematical integers; AUTO_INCREMENT columns hand out positive ones.
 Timestamps are not modelled: `edges` is kept in the `created_at, id` order in which every
 query returns it, and the other tables are unordered.
*/
module Tables {
  datatype Option<+T> = None | Some(value: T)

  datatype Level = NoLevel | View | Comment | Edit | Moderate | Administer

  datatype Role = TenantAdmin | TenantEditor | TenantViewer

  datatype MapRow = MapRow(tenantId: int, ownerId: int, ownerXray: bool)

  datatype NodeRow = NodeRow(
    mapId: int,
    parentId: Option<int>,
    name: string,
    geoJson: Option<string>,
    description: Option<string>,
    color: Option<string>,
    visibilityOverride: bool,
    createdBy: int)

  datatype NoteRow = NoteRow(
    nodeId: int,
    createdBy: int,
    title: Option<string>,
    text: string,
    pinned: bool,
    color: Option<string>,
    visibilityOverride: bool)

  datatype GroupRow = GroupRow(tenantId: int, managesVisibility: bool)

  datatype EdgeRow = EdgeRow(id: int, mapId: int, sourceId: int, destId: int)

  type NodeTable = map<int, NodeRow>

  /** The tables that none of the modelled requests writes. */
  datatype Directory = Directory(
    maps: map<int, MapRow>,
    grants: map<(int, int), Level>,     // (map, user)
    publicGrants: map<int, Level>,      // map
    roles: map<(int, int), Role>,       // (tenant, user)
    groups: map<int, GroupRow>,
    groupMembers: set<(int, int)>,      // (group, user)
    plots: map<int, int>)               // plot -> tenant

  datatype Db = Db(
    dir: Directory,
    nodes: NodeTable,
    nodeTags: set<(int, int)>,          // (node, group)
    notes: map<int, NoteRow>,
    noteTags: set<(int, int)>,          // (note, group)
    plotNodes: set<(int, int)>,         // (plot, node)
    plotNotes: set<(int, int)>,         // (plot, note)
    edges: seq<EdgeRow>,
    nodeSeq: nat,                       // last AUTO_INCREMENT value of nodes
    noteSeq: nat)                       // last AUTO_INCREMENT value of notes

  /** Who is asking: what JwtFilter and TenantFilter attach to a request. */
  datatype Caller = Caller(userId: int, tenantId: int, isAdmin: bool)

  const MAX_NODE_DEPTH: nat := 15
  const MAX_NODES_PER_MAP: nat := 5000

  // ---- Map permissions ----

  predicate OwnsMap(db: Db, userId: int, mapId: int) {
    mapId in db.dir.maps && db.dir.maps[mapId].ownerId == userId
  }

  predicate CanViewMap(db: Db, userId: int, mapId: int) {
    || OwnsMap(db, userId, mapId)
    || ((mapId, userId) in db.dir.grants && db.dir.grants[(mapId, userId)] != NoLevel)
    || (mapId in db.dir.publicGrants && db.dir.publicGrants[mapId] != NoLevel)
  }

  predicate CanEditMap(db: Db, userId: int, mapId: int) {
    || OwnsMap(db, userId, mapId)
    || ((mapId, userId) in db.dir.grants
        && var level := db.dir.grants[(mapId, userId)];
        level == Edit || level == Moderate || level == Administer)
  }

  predicate IsTenantAdmin(db: Db, userId: int, tenantId: int) {
    (tenantId, userId) in db.dir.roles && db.dir.roles[(tenantId, userId)] == TenantAdmin
  }

  predicate MapInTenant(db: Db, mapId: int, tenantId: int) {
    mapId in db.dir.maps && db.dir.maps[mapId].tenantId == tenantId
  }

  /** The owner's opt-in bypass of visibility filtering. */
  predicate HasXray(db: Db, userId: int, mapId: int) {
    OwnsMap(db, userId, mapId) && db.dir.maps[mapId].ownerXray
  }

  predicate IsVisibilityManager(db: Db, caller: Caller) {
    || caller.isAdmin
    || exists g :: g in db.dir.groups && (g, caller.userId) in db.dir.groupMembers
                   && db.dir.groups[g].tenantId == caller.tenantId && db.dir.groups[g].managesVisibility
  }

  // ---- What the foreign keys and the key generators guarantee ----

  predicate ParentsExist(nodes: NodeTable) {
    forall n :: n in nodes && nodes[n].parentId.Some? ==> nodes[n].parentId.value in nodes
  }

  /** Every row that names a node or a note names an existing one, and keys are below the counters. */
  ghost predicate Referential(db: Db) {
    && ParentsExist(db.nodes)
    && (forall n :: n in db.nodes ==> 0 < n <= db.nodeSeq)
    && (forall t :: t in db.notes ==> 0 < t <= db.noteSeq && db.notes[t].nodeId in db.nodes)
    && (forall r :: r in db.nodeTags ==> r.0 in db.nodes)
    && (forall r :: r in db.noteTags ==> r.0 in db.notes)
    && (forall r :: r in db.plotNodes ==> r.1 in db.nodes)
    && (forall r :: r in db.plotNotes ==> r.1 in db.notes)
    && (forall e :: e in db.edges ==> e.sourceId in db.nodes && e.destId in db.nodes)
  }

  /** The nodes of one map; `COUNT(*) ... WHERE map_id = ?` is its size. */
  function NodesOn(nodes: NodeTable, mapId: int): set<int> {
    set n | n in nodes && nodes[n].mapId == mapId
  }

  /** The rows are those of `before`; only the key counters, which a rollback does not rewind, may be ahead. */
  predicate RolledBack(before: Db, after: Db) {
    && after.(nodeSeq := before.nodeSeq, noteSeq := before.noteSeq) == before
    && after.nodeSeq >= before.nodeSeq && after.noteSeq >= before.noteSeq
  }
}
