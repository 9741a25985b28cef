/**
 NoteController's setVisibility. It issues the same statements as the node version, but outside a
 transaction: a failing statement leaves the earlier ones in place.
*/
module NoteController {
  import opened Tables
  import opened Resolver
  import opened NotesAndPlots
  import opened Requests

  datatype NoteStmt = SetOverride(value: bool) | ClearTags | AddTags(groupIds: set<int>)

  function Exec(db: Db, t: int, stmt: NoteStmt): Db {
    match stmt
    case SetOverride(v) =>
      if t in db.notes then db.(notes := db.notes[t := db.notes[t].(visibilityOverride := v)]) else db
    case ClearTags => db.(noteTags := set r | r in db.noteTags && r.0 != t)
    case AddTags(groupIds) => db.(noteTags := db.noteTags + set g | g in groupIds :: (t, g))
  }

  /** The tables after the first `k` statements. */
  function AfterFirst(db: Db, t: int, stmts: seq<NoteStmt>, k: nat): Db
    requires k <= |stmts|
  {
    if k == 0 then db else Exec(AfterFirst(db, t, stmts, k - 1), t, stmts[k - 1])
  }

  /** What the body asks for, in the order in which it is done. */
  function Statements(override: Option<bool>, groupIds: Option<set<int>>): seq<NoteStmt> {
    (if override.Some? then [SetOverride(override.value)] else [])
    + (if groupIds.None? then [] else if groupIds.value == {} then [ClearTags]
       else [ClearTags, AddTags(groupIds.value)])
  }

  function Refusal(db: Db, caller: Caller, mapId: int, t: int,
                   override: Option<bool>, groupIds: Option<set<int>>): Option<Status>
  {
    if override.None? && groupIds.None? then Some(BadRequest)
    else if !IsVisibilityManager(db, caller) then Some(Forbidden)
    else if !(NoteOnMap(db, t, mapId) && MapInTenant(db, mapId, caller.tenantId)) then Some(NotFound)
    else if groupIds.Some?
         && !(forall g :: g in groupIds.value ==> g in db.dir.groups && db.dir.groups[g].tenantId == caller.tenantId)
    then Some(BadRequest)
    else None
  }

  class Controller {
    var db: Db

    constructor (db: Db)
      ensures this.db == db
    {
      this.db := db;
    }

    /** `fault` is the index of the statement that the database fails; past the last one, none fails. */
    method SetVisibility(caller: Caller, mapId: int, t: int, override: Option<bool>,
                         groupIds: Option<set<int>>, fault: nat) returns (resp: Response)
      modifies this
      ensures var stmts := Statements(override, groupIds);
              match Refusal(old(db), caller, mapId, t, override, groupIds)
              case Some(status) => resp == Refused(status) && db == old(db)
              case None =>
                if fault < |stmts| then resp == DbError && db == AfterFirst(old(db), t, stmts, fault)
                else resp == VisibilitySet && db == AfterFirst(old(db), t, stmts, |stmts|)
    {
      if override.None? && groupIds.None? {
        return Refused(BadRequest);
      }
      if !IsVisibilityManager(db, caller) {
        return Refused(Forbidden);
      }
      if !(NoteOnMap(db, t, mapId) && MapInTenant(db, mapId, caller.tenantId)) {
        return Refused(NotFound);
      }
      if groupIds.Some? && exists g :: g in groupIds.value && !(g in db.dir.groups && db.dir.groups[g].tenantId == caller.tenantId) {
        return Refused(BadRequest);
      }
      var stmts := Statements(override, groupIds);
      var i := 0;
      while i < |stmts|
        invariant i <= |stmts| && i <= fault
        invariant db == AfterFirst(old(db), t, stmts, i)
      {
        if i == fault {
          return DbError;
        }
        db := Exec(db, t, stmts[i]);
        i := i + 1;
      }
      resp := VisibilitySet;
    }
  }

  /** The flag and the tags of one note, and everything else untouched. */
  ghost predicate IsTagged(before: Db, after: Db, t: int, flag: bool, groups: set<int>)
    requires t in before.notes
  {
    && after == before.(notes := before.notes[t := before.notes[t].(visibilityOverride := flag)],
                        noteTags := after.noteTags)
    && forall r: (int, int) :: r in after.noteTags <==> if r.0 == t then r.1 in groups else r in before.noteTags
  }

  ghost function GroupsOf(db: Db, t: int): set<int> {
    set r | r in db.noteTags && r.0 == t :: r.1
  }

  /** How far the first `k` statements get. */
  lemma {:induction false} AfterFirstMeaning(db: Db, t: int, override: Option<bool>, groupIds: Option<set<int>>, k: nat)
    requires t in db.notes && k <= |Statements(override, groupIds)|
    ensures var u := if override.Some? then 1 else 0;
            var flag := if k >= 1 && override.Some? then override.value else db.notes[t].visibilityOverride;
            var groups := if k == u + 2 then groupIds.value else if k == u + 1 then {} else GroupsOf(db, t);
            IsTagged(db, AfterFirst(db, t, Statements(override, groupIds), k), t, flag, groups)
  {
    var stmts := Statements(override, groupIds);
    assert db.notes[t := db.notes[t].(visibilityOverride := db.notes[t].visibilityOverride)] == db.notes;
    assert forall r: (int, int) :: r in db.noteTags && r.0 == t <==> r.0 == t && r.1 in GroupsOf(db, t);
    if k == 0 {
    } else {
      AfterFirstMeaning(db, t, override, groupIds, k - 1);
      var flag := if k > 1 && override.Some? then override.value else db.notes[t].visibilityOverride;
      var cleared := k > 1 && stmts[k - 2].ClearTags?;
      TaggedStep(db, AfterFirst(db, t, stmts, k - 1), t, flag, if cleared then {} else GroupsOf(db, t), stmts[k - 1]);
    }
  }

  lemma TaggedStep(before: Db, mid: Db, t: int, flag: bool, groups: set<int>, stmt: NoteStmt)
    requires t in before.notes && IsTagged(before, mid, t, flag, groups)
    ensures IsTagged(before, Exec(mid, t, stmt), t,
                     if stmt.SetOverride? then stmt.value else flag,
                     if stmt.ClearTags? then {} else if stmt.AddTags? then groups + stmt.groupIds else groups)
  {
    match stmt
    case SetOverride(_) =>
    case ClearTags =>
    case AddTags(groupIds) =>
      forall r: (int, int)
        ensures r in Exec(mid, t, stmt).noteTags <==> r in mid.noteTags || (r.0 == t && r.1 in groupIds)
      {
        var g := r.1;
        assert r.0 == t && g in groupIds ==> r == (t, g);
      }
  }

  /** Repeating a request that failed part of the way brings about its whole effect. */
  lemma RetryCompletes(db: Db, t: int, override: Option<bool>, groupIds: Option<set<int>>, k: nat)
    requires t in db.notes && k <= |Statements(override, groupIds)|
    ensures var stmts := Statements(override, groupIds);
            AfterFirst(AfterFirst(db, t, stmts, k), t, stmts, |stmts|) == AfterFirst(db, t, stmts, |stmts|)
  {
    var stmts := Statements(override, groupIds);
    var partial := AfterFirst(db, t, stmts, k);
    AfterFirstMeaning(db, t, override, groupIds, k);
    AfterFirstMeaning(db, t, override, groupIds, |stmts|);
    AfterFirstMeaning(partial, t, override, groupIds, |stmts|);
    assert AfterFirst(partial, t, stmts, |stmts|).noteTags == AfterFirst(db, t, stmts, |stmts|).noteTags;
  }

  lemma {:induction false} NodesKeepVisibility(before: Db, after: Db, n: int, userId: int, k: nat)
    requires after.dir == before.dir && after.nodes == before.nodes && after.nodeTags == before.nodeTags
    ensures VisibleAt(after, n, userId, k) <==> VisibleAt(before, n, userId, k)
    decreases k
  {
    if k == 0 {
    } else if n in before.nodes && before.nodes[n].parentId.Some? {
      NodesKeepVisibility(before, after, before.nodes[n].parentId.value, userId, k - 1);
    }
  }

  predicate InSome(db: Db, userId: int, groups: set<int>) {
    exists g :: g in groups && (g, userId) in db.dir.groupMembers
  }

  lemma TaggedVisibility(before: Db, after: Db, t: int, flag: bool, groups: set<int>, userId: int)
    requires t in before.notes && IsTagged(before, after, t, flag, groups)
    ensures NoteVisible(after, t, userId) <==>
            if flag then InSome(before, userId, groups)
            else VisibleWithin(before, before.notes[t].nodeId, userId, MAX_NODE_DEPTH)
  {
    if flag {
      if InSome(before, userId, groups) {
        var g :| g in groups && (g, userId) in before.dir.groupMembers;
        assert (t, g) in after.noteTags;
      }
    } else {
      forall k: nat ensures VisibleAt(after, before.notes[t].nodeId, userId, k)
                            <==> VisibleAt(before, before.notes[t].nodeId, userId, k)
      {
        NodesKeepVisibility(before, after, before.notes[t].nodeId, userId, k);
      }
    }
  }

  /**
   A request that fails part of the way can show the note to a user who sees it neither before nor
   after the whole request: exactly when it has just turned the override on and not yet replaced
   tags that an earlier override left behind.
   */
  lemma PartialExposureIff(db: Db, t: int, override: Option<bool>, groupIds: Option<set<int>>, k: nat, userId: int)
    requires t in db.notes && k <= |Statements(override, groupIds)|
    ensures var stmts := Statements(override, groupIds);
            && NoteVisible(AfterFirst(db, t, stmts, k), t, userId)
            && !NoteVisible(db, t, userId)
            && !NoteVisible(AfterFirst(db, t, stmts, |stmts|), t, userId)
            <==>
            && k == 1 && override == Some(true) && groupIds.Some?
            && !db.notes[t].visibilityOverride
            && InSome(db, userId, GroupsOf(db, t))
            && !InSome(db, userId, groupIds.value)
            && !VisibleWithin(db, db.notes[t].nodeId, userId, MAX_NODE_DEPTH)
  {
    var stmts := Statements(override, groupIds);
    var u := if override.Some? then 1 else 0;
    var flag := db.notes[t].visibilityOverride;
    AfterFirstMeaning(db, t, override, groupIds, 0);
    TaggedVisibility(db, db, t, flag, GroupsOf(db, t), userId);
    AfterFirstMeaning(db, t, override, groupIds, k);
    TaggedVisibility(db, AfterFirst(db, t, stmts, k), t,
                     if k >= 1 && override.Some? then override.value else flag,
                     if k == u + 2 then groupIds.value else if k == u + 1 then {} else GroupsOf(db, t), userId);
    AfterFirstMeaning(db, t, override, groupIds, |stmts|);
    TaggedVisibility(db, AfterFirst(db, t, stmts, |stmts|), t,
                     if override.Some? then override.value else flag,
                     if groupIds.Some? then groupIds.value else GroupsOf(db, t), userId);
  }

  /** The smallest such case: group 7 is left over, group 8 is asked for, and user 9 is in group 7. */
  lemma PartialExposureExample() returns (db: Db)
    ensures 1 in db.notes && Referential(db)
    ensures var stmts := Statements(Some(true), Some({8}));
            && NoteVisible(AfterFirst(db, 1, stmts, 1), 1, 9)
            && !NoteVisible(db, 1, 9)
            && !NoteVisible(AfterFirst(db, 1, stmts, |stmts|), 1, 9)
  {
    var node := NodeRow(1, None, "n", None, None, None, false, 2);
    var note := NoteRow(1, 2, None, "text", false, None, false);
    var dir := Directory(map[1 := MapRow(1, 2, false)], map[], map[], map[],
                         map[7 := GroupRow(1, false), 8 := GroupRow(1, false)], {(7, 9)}, map[]);
    db := Db(dir, map[1 := node], {}, map[1 := note], {(1, 7)}, {}, {}, [], 1, 1);
    assert (1, 7) in db.noteTags;
    PartialExposureIff(db, 1, Some(true), Some({8}), 1, 9);
  }
}
