/**
 What a write request carries, when it is refused, and with which status. The refusals are
 listed in the order in which the handlers make their checks.
*/
module Requests {
  import opened Tables
  import opened Forest
  import opened Effects

  datatype Status = BadRequest | Forbidden | NotFound

  datatype Response =
    | Refused(status: Status)
    | DbError
    | Created(id: int)
    | Moved(id: int, mapId: int, parentId: Option<int>, count: nat)
    | Copied(id: int, mapId: int, parentId: Option<int>, count: nat)
    | Deleted
    | VisibilitySet

  /** The body of a move or a copy. */
  datatype Target = Target(newParent: Field, newMap: Field)

  function DestMap(mapId: int, target: Target): int {
    if target.newMap.Given? then target.newMap.value else mapId
  }

  predicate CrossMap(mapId: int, target: Target) {
    DestMap(mapId, target) != mapId
  }

  predicate CrossTenant(db: Db, caller: Caller, mapId: int, target: Target) {
    && CrossMap(mapId, target)
    && DestMap(mapId, target) in db.dir.maps
    && db.dir.maps[DestMap(mapId, target)].tenantId != caller.tenantId
  }

  /** The node is on a map of the caller's tenant that the caller may edit. */
  predicate EditableNode(db: Db, caller: Caller, mapId: int, id: int) {
    && id in db.nodes && db.nodes[id].mapId == mapId
    && MapInTenant(db, mapId, caller.tenantId)
    && CanEditMap(db, caller.userId, mapId)
  }

  /** The destination checks that move and copy share. */
  function DestRefusal(db: Db, caller: Caller, mapId: int, target: Target): Option<Status> {
    var dest := DestMap(mapId, target);
    if CrossMap(mapId, target) && (dest !in db.dir.maps || !CanEditMap(db, caller.userId, dest)) then Some(BadRequest)
    else if CrossTenant(db, caller, mapId, target) && !caller.isAdmin then Some(Forbidden)
    else if CrossTenant(db, caller, mapId, target)
         && !IsTenantAdmin(db, caller.userId, db.dir.maps[dest].tenantId) then Some(Forbidden)
    else if target.newParent.Given?
         && !(target.newParent.value in db.nodes && db.nodes[target.newParent.value].mapId == dest)
    then Some(BadRequest)
    else None
  }

  /** The checks of a move that come before its descendant query. */
  function MoveCheckRefusal(db: Db, caller: Caller, mapId: int, id: int, target: Target): Option<Status> {
    if target.newParent.Absent? && target.newMap.Absent? then Some(BadRequest)
    else if target.newParent == Given(id) then Some(BadRequest)
    else if !EditableNode(db, caller, mapId, id) then Some(Forbidden)
    else DestRefusal(db, caller, mapId, target)
  }

  ghost function MoveRefusal(db: Db, caller: Caller, mapId: int, id: int, target: Target): Option<Status> {
    if MoveCheckRefusal(db, caller, mapId, id, target).Some? then MoveCheckRefusal(db, caller, mapId, id, target)
    else if target.newParent.Given? && target.newParent.value in Subtree(db.nodes, id) then Some(BadRequest)
    else None
  }

  /** How many statements a move issues after its checks; a transaction adds BEGIN and COMMIT. */
  function MoveStatements(db: Db, caller: Caller, mapId: int, target: Target): nat {
    var parentUpdates := if target.newParent.Absent? then 0 else 1;
    if !CrossMap(mapId, target) then parentUpdates
    else 4 + parentUpdates + if CrossTenant(db, caller, mapId, target) then 1 else 0
  }

  /** The checks of a copy that come before its descendant query. */
  function CopyCheckRefusal(db: Db, caller: Caller, mapId: int, id: int, target: Target): Option<Status> {
    if target.newParent.Absent? && target.newMap.Absent? then Some(BadRequest)
    else if !EditableNode(db, caller, mapId, id) then Some(Forbidden)
    else DestRefusal(db, caller, mapId, target)
  }

  ghost function CopyRefusal(db: Db, caller: Caller, mapId: int, id: int, target: Target): Option<Status> {
    if CopyCheckRefusal(db, caller, mapId, id, target).Some? then CopyCheckRefusal(db, caller, mapId, id, target)
    else if |NodesOn(db.nodes, DestMap(mapId, target))| + |Subtree(db.nodes, id)| > MAX_NODES_PER_MAP
    then Some(BadRequest)
    else None
  }

  /** The notes that a copy duplicates. */
  ghost function NotesOf(db: Db, ids: set<int>): set<int> {
    set t | t in db.notes && db.notes[t].nodeId in ids
  }

  /** BEGIN, one INSERT per node, the note query, one INSERT per note, COMMIT. */
  ghost function CopyStatements(db: Db, id: int): nat
    requires id in db.nodes
  {
    3 + |Subtree(db.nodes, id)| + |NotesOf(db, Subtree(db.nodes, id))|
  }

  /** The parent has at least fourteen nodes above it, so a child would be too deep. */
  function CreateRefusal(db: Db, caller: Caller, mapId: int, parent: Option<int>): Option<Status> {
    if !(MapInTenant(db, mapId, caller.tenantId) && CanEditMap(db, caller.userId, mapId)) then Some(Forbidden)
    else if parent.Some? && !(parent.value in db.nodes && db.nodes[parent.value].mapId == mapId)
    then Some(BadRequest)
    else if parent.Some? && Up(db.nodes, parent.value, MAX_NODE_DEPTH - 1).Some? then Some(BadRequest)
    else if |NodesOn(db.nodes, mapId)| >= MAX_NODES_PER_MAP then Some(BadRequest)
    else None
  }

  function DeleteRefusal(db: Db, caller: Caller, mapId: int, id: int): Option<Status> {
    if !EditableNode(db, caller, mapId, id) then Some(Forbidden) else None
  }

  function VisibilityRefusal(db: Db, caller: Caller, mapId: int, id: int,
                             override: Option<bool>, groupIds: Option<set<int>>): Option<Status>
  {
    if override.None? && groupIds.None? then Some(BadRequest)
    else if !IsVisibilityManager(db, caller) then Some(Forbidden)
    else if !(id in db.nodes && db.nodes[id].mapId == mapId && MapInTenant(db, mapId, caller.tenantId))
    then Some(NotFound)
    else if groupIds.Some?
         && !(forall g :: g in groupIds.value ==> g in db.dir.groups && db.dir.groups[g].tenantId == caller.tenantId)
    then Some(BadRequest)
    else None
  }

  /** The UPDATE, the DELETE and the INSERT that the body asks for, between BEGIN and COMMIT. */
  function VisibilityStatements(override: Option<bool>, groupIds: Option<set<int>>): nat {
    2 + (if override.Some? then 1 else 0)
      + (if groupIds.None? then 0 else if groupIds.value == {} then 1 else 2)
  }
}
