/**
 Who may do what: the permission levels, and for each write endpoint when it accepts and with which
 status it refuses.
*/
module Acceptance {
  import opened Tables
  import opened Forest
  import opened Effects
  import opened Requests
  import NoteController
  import NotesAndPlots

  // ---- Permission levels ----

  /** The levels in the order of what they allow. */
  function Rank(level: Level): nat {
    match level
    case NoLevel => 0
    case View => 1
    case Comment => 2
    case Edit => 3
    case Moderate => 4
    case Administer => 5
  }

  predicate HasLevel(grants: map<(int, int), Level>, mapId: int, userId: int, least: nat) {
    (mapId, userId) in grants && Rank(grants[(mapId, userId)]) >= least
  }

  predicate IsOwner(db: Db, userId: int, mapId: int) {
    mapId in db.dir.maps && db.dir.maps[mapId].ownerId == userId
  }

  /** Editing takes ownership or an own grant from `edit` up; a public grant never suffices. */
  lemma EditTakesLevel(db: Db, userId: int, mapId: int)
    ensures CanEditMap(db, userId, mapId) <==>
            IsOwner(db, userId, mapId) || HasLevel(db.dir.grants, mapId, userId, 3)
  {}

  /** Viewing takes ownership or any own or public grant. */
  lemma ViewTakesLevel(db: Db, userId: int, mapId: int)
    ensures CanViewMap(db, userId, mapId) <==>
            || IsOwner(db, userId, mapId) || HasLevel(db.dir.grants, mapId, userId, 1)
            || (mapId in db.dir.publicGrants && Rank(db.dir.publicGrants[mapId]) >= 1)
    ensures CanEditMap(db, userId, mapId) ==> CanViewMap(db, userId, mapId)
  {}

  /** The node is on the given map, the map in the caller's tenant, and the caller may edit it. */
  predicate MayEditNode(db: Db, caller: Caller, mapId: int, id: int) {
    && id in db.nodes && db.nodes[id].mapId == mapId && MayEditOwnMap(db, caller, mapId)
  }

  predicate MayEditOwnMap(db: Db, caller: Caller, mapId: int) {
    && mapId in db.dir.maps && db.dir.maps[mapId].tenantId == caller.tenantId
    && (IsOwner(db, caller.userId, mapId) || HasLevel(db.dir.grants, mapId, caller.userId, 3))
  }

  // ---- Create and delete ----

  /** At most 5000 nodes on the map, the parent on it and at most thirteen nodes above the parent. */
  lemma CreateAccepts(db: Db, caller: Caller, mapId: int, parent: Option<int>)
    ensures CreateRefusal(db, caller, mapId, parent) == Some(Forbidden) <==> !MayEditOwnMap(db, caller, mapId)
    ensures CreateRefusal(db, caller, mapId, parent).None? <==>
            && MayEditOwnMap(db, caller, mapId)
            && |NodesOn(db.nodes, mapId)| < 5000
            && (parent.Some? ==>
                  parent.value in db.nodes && db.nodes[parent.value].mapId == mapId && Up(db.nodes, parent.value, 14) == None)
    ensures CreateRefusal(db, caller, mapId, parent) != Some(NotFound)
  {}

  lemma DeleteAccepts(db: Db, caller: Caller, mapId: int, id: int)
    ensures DeleteRefusal(db, caller, mapId, id) == if MayEditNode(db, caller, mapId, id) then None else Some(Forbidden)
  {}

  // ---- Move and copy ----

  /** The destination map of a body: the given one, or the map of the request. */
  function Destination(mapId: int, target: Target): int {
    match target.newMap
    case Absent => mapId
    case Null => mapId
    case Given(m) => m
  }

  /** Another map exists and may be edited. */
  predicate DestinationEditable(db: Db, caller: Caller, mapId: int, target: Target) {
    var dest := Destination(mapId, target);
    dest != mapId ==>
      dest in db.dir.maps && (IsOwner(db, caller.userId, dest) || HasLevel(db.dir.grants, dest, caller.userId, 3))
  }

  /** A map of another tenant takes an admin of both tenants. */
  predicate TenantsAllow(db: Db, caller: Caller, mapId: int, target: Target) {
    var dest := Destination(mapId, target);
    dest != mapId && dest in db.dir.maps && db.dir.maps[dest].tenantId != caller.tenantId ==>
      var key := (db.dir.maps[dest].tenantId, caller.userId);
      caller.isAdmin && key in db.dir.roles && db.dir.roles[key] == TenantAdmin
  }

  predicate ParentOnDestination(db: Db, mapId: int, target: Target) {
    target.newParent.Given? ==>
      target.newParent.value in db.nodes && db.nodes[target.newParent.value].mapId == Destination(mapId, target)
  }

  predicate SaysSomething(target: Target) {
    !(target.newParent.Absent? && target.newMap.Absent?)
  }

  lemma MoveAccepts(db: Db, caller: Caller, mapId: int, id: int, target: Target)
    ensures MoveRefusal(db, caller, mapId, id, target).None? <==>
            && SaysSomething(target) && target.newParent != Given(id)
            && MayEditNode(db, caller, mapId, id) && DestinationEditable(db, caller, mapId, target)
            && TenantsAllow(db, caller, mapId, target) && ParentOnDestination(db, mapId, target)
            && (target.newParent.Given? ==> target.newParent.value !in Subtree(db.nodes, id))
    ensures MoveRefusal(db, caller, mapId, id, target) == Some(Forbidden) <==>
            && SaysSomething(target) && target.newParent != Given(id)
            && (MayEditNode(db, caller, mapId, id) ==>
                  DestinationEditable(db, caller, mapId, target) && !TenantsAllow(db, caller, mapId, target))
    ensures MoveRefusal(db, caller, mapId, id, target) != Some(NotFound)
  {}

  lemma CopyAccepts(db: Db, caller: Caller, mapId: int, id: int, target: Target)
    ensures CopyRefusal(db, caller, mapId, id, target).None? <==>
            && SaysSomething(target)
            && MayEditNode(db, caller, mapId, id) && DestinationEditable(db, caller, mapId, target)
            && TenantsAllow(db, caller, mapId, target) && ParentOnDestination(db, mapId, target)
            && |NodesOn(db.nodes, Destination(mapId, target))| + |Subtree(db.nodes, id)| <= 5000
    ensures CopyRefusal(db, caller, mapId, id, target) == Some(Forbidden) <==>
            && SaysSomething(target)
            && (MayEditNode(db, caller, mapId, id) ==>
                  DestinationEditable(db, caller, mapId, target) && !TenantsAllow(db, caller, mapId, target))
    ensures CopyRefusal(db, caller, mapId, id, target) != Some(NotFound)
  {}

  // ---- Visibility tagging ----

  /** A tenant admin, or a member of one of the tenant's groups that manage visibility. */
  ghost predicate MayTag(db: Db, caller: Caller) {
    || caller.isAdmin
    || exists g :: (g, caller.userId) in db.dir.groupMembers && g in db.dir.groups
                   && db.dir.groups[g].tenantId == caller.tenantId && db.dir.groups[g].managesVisibility
  }

  ghost predicate GroupsOfTenant(db: Db, caller: Caller, groupIds: Option<set<int>>) {
    groupIds.Some? ==>
      forall g :: g in groupIds.value ==> g in db.dir.groups && db.dir.groups[g].tenantId == caller.tenantId
  }

  predicate OnOwnMap(db: Db, caller: Caller, mapId: int, id: int) {
    && id in db.nodes && db.nodes[id].mapId == mapId
    && mapId in db.dir.maps && db.dir.maps[mapId].tenantId == caller.tenantId
  }

  lemma TaggingAccepts(db: Db, caller: Caller, mapId: int, id: int, override: Option<bool>, groupIds: Option<set<int>>)
    ensures var refusal, says := VisibilityRefusal(db, caller, mapId, id, override, groupIds), override.Some? || groupIds.Some?;
            && (refusal.None? <==> says && MayTag(db, caller) && OnOwnMap(db, caller, mapId, id)
                                   && GroupsOfTenant(db, caller, groupIds))
            && (refusal == Some(Forbidden) <==> says && !MayTag(db, caller))
            && (refusal == Some(NotFound) <==> says && MayTag(db, caller) && !OnOwnMap(db, caller, mapId, id))
  {}

  /** The same for notes; the map is that of the note's node. */
  lemma NoteTaggingAccepts(db: Db, caller: Caller, mapId: int, t: int, override: Option<bool>, groupIds: Option<set<int>>)
    ensures var refusal, says := NoteController.Refusal(db, caller, mapId, t, override, groupIds), override.Some? || groupIds.Some?;
            var onMap := t in db.notes && OnOwnMap(db, caller, mapId, db.notes[t].nodeId);
            && (refusal.None? <==> says && MayTag(db, caller) && onMap && GroupsOfTenant(db, caller, groupIds))
            && (refusal == Some(Forbidden) <==> says && !MayTag(db, caller))
            && (refusal == Some(NotFound) <==> says && MayTag(db, caller) && !onMap)
  {}
}
