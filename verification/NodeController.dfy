/**
 The write endpoints of NodeController over the tables. A request is one atomic step.

 `fault` says which of the request's writing statements the database fails (BEGIN and COMMIT count
 as statements); a value past the last one means that none fails. Creating a node also counts the
 SELECT after its INSERT.
*/
module NodeController {
  import opened Tables
  import opened Forest
  import opened Effects
  import opened Requests
  import opened Descent
  import opened CopyLoop
  import Order

  class Controller {
    var db: Db
    const maxRecursion: nat   // the database server's limit on the rounds of a recursive query
    const maxCascade: nat     // and on the nesting of cascading deletes

    constructor (db: Db, maxRecursion: nat, maxCascade: nat)
      ensures this.db == db && this.maxRecursion == maxRecursion && this.maxCascade == maxCascade
    {
      this.db, this.maxRecursion, this.maxCascade := db, maxRecursion, maxCascade;
    }

    // ---- Transactions ----

    /** Runs the statements in order; on the first failure rolls back everything done so far. */
    method RunTransaction(stmts: seq<Stmt>, fault: nat) returns (committed: bool)
      modifies this
      ensures committed <==> fault >= |stmts| + 2
      ensures db == if committed then ExecAll(old(db), stmts) else old(db)
    {
      var saved := db;
      if fault == 0 {
        return false;
      }
      var i := 0;
      while i < |stmts|
        invariant 0 <= i <= |stmts|
        invariant db == ExecAll(old(db), stmts[..i])
        invariant fault > i
      {
        if fault == i + 1 {
          db := saved;
          return false;
        }
        assert stmts[..i + 1][..i] == stmts[..i];
        db := Exec(db, stmts[i]);
        i := i + 1;
      }
      assert stmts[..|stmts|] == stmts;
      if fault == |stmts| + 1 {
        db := saved;
        return false;
      }
      committed := true;
    }

    // ---- POST /nodes ----

    /** The bounded walk up from the parent: MAX(depth) over the rows of `chain`. */
    method ParentDepth(id: int) returns (depth: nat)
      requires id in db.nodes && ParentsExist(db.nodes)
      ensures HasDepth(db.nodes, id, depth) || (depth == MAX_NODE_DEPTH && Up(db.nodes, id, depth).Some?)
      ensures depth <= MAX_NODE_DEPTH
    {
      var cur := id;
      depth := 0;
      while depth < MAX_NODE_DEPTH && db.nodes[cur].parentId.Some?
        invariant depth <= MAX_NODE_DEPTH && Up(db.nodes, id, depth) == Some(cur) && cur in db.nodes
      {
        UpAdd(db.nodes, id, depth, 1);
        cur := db.nodes[cur].parentId.value;
        depth := depth + 1;
      }
      UpAdd(db.nodes, id, depth, 1);
    }

    /** The INSERT, and then the SELECT that re-fetches the row: when that fails, the row stays. */
    method CreateNode(caller: Caller, mapId: int, parent: Option<int>, content: NodeContent, fault: nat)
      returns (resp: Response)
      requires Referential(db)
      modifies this
      ensures match CreateRefusal(old(db), caller, mapId, parent)
              case Some(status) => resp == Refused(status) && db == old(db)
              case None =>
                if fault == 0 then resp == DbError && db == old(db)
                else resp == (if fault == 1 then DbError else Created(old(db).nodeSeq + 1))
                     && db == AfterCreate(old(db), mapId, parent, caller.userId, content)
    {
      if !(MapInTenant(db, mapId, caller.tenantId) && CanEditMap(db, caller.userId, mapId)) {
        return Refused(Forbidden);
      }
      if parent.Some? {
        if !(parent.value in db.nodes && db.nodes[parent.value].mapId == mapId) {
          return Refused(BadRequest);
        }
        var parentDepth := ParentDepth(parent.value);
        DepthTest(db.nodes, parent.value, parentDepth);
        if parentDepth + 1 >= MAX_NODE_DEPTH {
          return Refused(BadRequest);
        }
      }
      if |NodesOn(db.nodes, mapId)| >= MAX_NODES_PER_MAP {
        return Refused(BadRequest);
      }
      if fault == 0 {
        return DbError;
      }
      db := InsertNode(db, NodeRow(mapId, parent, content.name, content.geoJson,
                                   NullIfEmpty(content.description), NullIfEmpty(content.color),
                                   false, caller.userId));
      if fault == 1 {
        return DbError;
      }
      resp := Created(db.nodeSeq);
    }

    // ---- DELETE /nodes/{id} ----

    /**
     Follows ON DELETE CASCADE down `parent_id`, on whatever maps the children are, one nesting level a
     round; the database fails the statement at a level beyond its limit.
     */
    method CollectCascade(id: int) returns (within: bool, doomed: set<int>)
      requires id in db.nodes
      ensures within <==> !CascadeTooDeep(db.nodes, id, maxCascade)
      ensures within ==> doomed == CascadeSet(db.nodes, id)
    {
      doomed := {id};
      var d := 0;
      var next := ChildrenOutside(db.nodes, doomed);
      CascadeStart(db.nodes, id);
      while next != {}
        invariant d <= maxCascade && CascadeTo(db.nodes, id, doomed, d)
        invariant next == ChildrenOutside(db.nodes, doomed)
        decreases maxCascade - d
      {
        CascadeRound(db.nodes, id, doomed, d);
        if d == maxCascade {
          NextIsTooDeep(db.nodes, id, next, d);
          return false, doomed;
        }
        doomed, d := doomed + next, d + 1;
        next := ChildrenOutside(db.nodes, doomed);
      }
      CascadeComplete(db.nodes, id, doomed, d);
      CascadeWithin(db.nodes, id, doomed, d, maxCascade);
      within := true;
    }

    method DeleteNode(caller: Caller, mapId: int, id: int, fault: nat) returns (resp: Response)
      modifies this
      ensures match DeleteRefusal(old(db), caller, mapId, id)
              case Some(status) => resp == Refused(status) && db == old(db)
              case None =>
                if fault == 0 || CascadeTooDeep(old(db).nodes, id, maxCascade) then resp == DbError && db == old(db)
                else resp == Deleted && db == AfterDelete(old(db), CascadeSet(old(db).nodes, id))
    {
      if !EditableNode(db, caller, mapId, id) {
        return Refused(Forbidden);
      }
      if fault == 0 {
        return DbError;
      }
      var within, doomed := CollectCascade(id);
      if !within {
        return DbError;
      }
      db := AfterDelete(db, doomed);
      resp := Deleted;
    }

    // ---- POST /nodes/{id}/visibility ----

    method SetVisibility(caller: Caller, mapId: int, id: int, override: Option<bool>,
                         groupIds: Option<set<int>>, fault: nat) returns (resp: Response)
      modifies this
      ensures match VisibilityRefusal(old(db), caller, mapId, id, override, groupIds)
              case Some(status) => resp == Refused(status) && db == old(db)
              case None =>
                if fault < VisibilityStatements(override, groupIds) then resp == DbError && db == old(db)
                else resp == VisibilitySet && db == AfterSetVisibility(old(db), id, override, groupIds)
    {
      if override.None? && groupIds.None? {
        return Refused(BadRequest);
      }
      if !IsVisibilityManager(db, caller) {
        return Refused(Forbidden);
      }
      if !(id in db.nodes && db.nodes[id].mapId == mapId && MapInTenant(db, mapId, caller.tenantId)) {
        return Refused(NotFound);
      }
      if groupIds.Some? && exists g :: g in groupIds.value && !(g in db.dir.groups && db.dir.groups[g].tenantId == caller.tenantId) {
        return Refused(BadRequest);
      }
      var update := if override.Some? then [UpdateOverride(id, override.value)] else [];
      var retag := if groupIds.None? then []
                   else if groupIds.value == {} then [DeleteNodeTags({id})]
                   else [DeleteNodeTags({id}), InsertNodeTags(id, groupIds.value)];
      VisibilityStatementsEffect(db, id, override, groupIds, update, retag);
      var committed := RunTransaction(update + retag, fault);
      resp := if committed then VisibilitySet else DbError;
    }

    // ---- POST /nodes/{id}/move and /copy ----

    /**
     The destination map, the cross-tenant rule, and the new parent. Accepted is exactly a destination
     that the caller may edit, across tenants as an admin of both, with the parent on it.
     */
    method CheckDestination(caller: Caller, mapId: int, target: Target) returns (refusal: Option<Status>)
      ensures refusal == DestRefusal(db, caller, mapId, target)
      ensures var dest := DestMap(mapId, target);
              refusal.None? <==>
              && (dest != mapId ==> dest in db.dir.maps && CanEditMap(db, caller.userId, dest))
              && (dest != mapId && db.dir.maps[dest].tenantId != caller.tenantId ==>
                    caller.isAdmin && IsTenantAdmin(db, caller.userId, db.dir.maps[dest].tenantId))
              && (target.newParent.Given? ==>
                    target.newParent.value in db.nodes && db.nodes[target.newParent.value].mapId == dest)
      ensures refusal != Some(NotFound)
    {
      var dest := DestMap(mapId, target);
      if CrossMap(mapId, target) {
        if dest !in db.dir.maps || !CanEditMap(db, caller.userId, dest) {
          return Some(BadRequest);
        }
        var destTenant := db.dir.maps[dest].tenantId;
        if destTenant != caller.tenantId {
          if !caller.isAdmin {
            return Some(Forbidden);
          }
          if (destTenant, caller.userId) !in db.dir.roles
             || db.dir.roles[(destTenant, caller.userId)] != TenantAdmin {
            return Some(Forbidden);
          }
        }
      }
      if target.newParent.Given?
         && (target.newParent.value !in db.nodes || db.nodes[target.newParent.value].mapId != dest) {
        return Some(BadRequest);
      }
      refusal := None;
    }

    /** The checks of a move that come before its descendant query. */
    method CheckMove(caller: Caller, mapId: int, id: int, target: Target) returns (refusal: Option<Status>)
      ensures refusal == MoveCheckRefusal(db, caller, mapId, id, target)
      ensures refusal.None? ==> EditableNode(db, caller, mapId, id)
    {
      if target.newParent.Absent? && target.newMap.Absent? {
        return Some(BadRequest);
      }
      if target.newParent == Given(id) {
        return Some(BadRequest);
      }
      if !EditableNode(db, caller, mapId, id) {
        return Some(Forbidden);
      }
      refusal := CheckDestination(caller, mapId, target);
    }

    /** The checks of a copy that come before its descendant query. */
    method CheckCopy(caller: Caller, mapId: int, id: int, target: Target) returns (refusal: Option<Status>)
      ensures refusal == CopyCheckRefusal(db, caller, mapId, id, target)
      ensures refusal.None? ==> EditableNode(db, caller, mapId, id)
    {
      if target.newParent.Absent? && target.newMap.Absent? {
        return Some(BadRequest);
      }
      if !EditableNode(db, caller, mapId, id) {
        return Some(Forbidden);
      }
      refusal := CheckDestination(caller, mapId, target);
    }

    /** The checks pass, but the descendant query does not answer. */
    ghost predicate MoveQueryFails(db: Db, caller: Caller, mapId: int, id: int, target: Target) {
      MoveCheckRefusal(db, caller, mapId, id, target).None? && DescentFails(db.nodes, id, maxRecursion)
    }

    ghost predicate CopyQueryFails(db: Db, caller: Caller, mapId: int, id: int, target: Target) {
      CopyCheckRefusal(db, caller, mapId, id, target).None? && DescentFails(db.nodes, id, maxRecursion)
    }

    method MoveNode(caller: Caller, mapId: int, id: int, target: Target, fault: nat) returns (resp: Response)
      modifies this
      ensures MoveQueryFails(old(db), caller, mapId, id, target) ==> resp == DbError && db == old(db)
      ensures !MoveQueryFails(old(db), caller, mapId, id, target) ==>
              match MoveRefusal(old(db), caller, mapId, id, target)
              case Some(status) => resp == Refused(status) && db == old(db)
              case None =>
                if fault < MoveStatements(old(db), caller, mapId, target) then resp == DbError && db == old(db)
                else
                  && resp == Moved(id, DestMap(mapId, target), NewParent(target.newParent, None),
                                   |Subtree(old(db).nodes, id)|)
                  && db == AfterMove(old(db), id, Subtree(old(db).nodes, id), target.newParent,
                                     DestMap(mapId, target), CrossMap(mapId, target),
                                     CrossTenant(old(db), caller, mapId, target))
    {
      var refusal := CheckMove(caller, mapId, id, target);
      if refusal.Some? {
        return Refused(refusal.value);
      }
      var answered, rows, depths := DescendantRows(db.nodes, id, maxRecursion);
      if !answered {
        return DbError;
      }
      var moved := set m | m in rows;
      assert moved == Subtree(db.nodes, id);
      RowCount(db.nodes, id, rows, depths);
      if target.newParent.Given? && target.newParent.value in rows {
        return Refused(BadRequest);
      }
      var dest, crossTenant := DestMap(mapId, target), CrossTenant(db, caller, mapId, target);
      var setParent := if target.newParent.Absent? then []
                       else [UpdateParent(id, NewParent(target.newParent, None))];
      MoveStatementsEffect(db, id, moved, target.newParent, dest, CrossMap(mapId, target), crossTenant, setParent);
      var done := true;
      if CrossMap(mapId, target) {
        var dropPlots := if crossTenant then [DeletePlotNodes(moved)] else [];
        done := RunTransaction([UpdateMap(moved, dest), DeleteNodeTags(moved)] + dropPlots + setParent, fault);
      } else if setParent != [] {
        if fault == 0 {
          done := false;
        } else {
          db := Exec(db, setParent[0]);
        }
      }
      resp := if done then Moved(id, dest, NewParent(target.newParent, None), |rows|) else DbError;
    }

    // ---- POST /nodes/{id}/copy ----

    method CopyNode(caller: Caller, mapId: int, id: int, target: Target, fault: nat)
      returns (resp: Response, idMap: map<int, int>, noteMap: map<int, int>)
      requires Referential(db)
      modifies this
      ensures CopyQueryFails(old(db), caller, mapId, id, target) ==> resp == DbError && db == old(db)
      ensures !CopyQueryFails(old(db), caller, mapId, id, target) ==>
              match CopyRefusal(old(db), caller, mapId, id, target)
              case Some(status) => resp == Refused(status) && db == old(db)
              case None =>
                if fault < CopyStatements(old(db), id) then resp == DbError && RolledBack(old(db), db)
                else
                  && id in idMap
                  && IsCopy(old(db), db, id, DestMap(mapId, target), NewParent(target.newParent, None),
                            caller.userId, idMap, noteMap)
                  && resp == Copied(idMap[id], DestMap(mapId, target), NewParent(target.newParent, None),
                                    |Subtree(old(db).nodes, id)|)
    {
      idMap, noteMap := map[], map[];
      var refusal := CheckCopy(caller, mapId, id, target);
      if refusal.Some? {
        return Refused(refusal.value), idMap, noteMap;
      }
      var answered, rows, depths := DescendantRows(db.nodes, id, maxRecursion);
      if !answered {
        return DbError, idMap, noteMap;
      }
      RowCount(db.nodes, id, rows, depths);
      var dest, parent := DestMap(mapId, target), NewParent(target.newParent, None);
      if |NodesOn(db.nodes, dest)| + |rows| > MAX_NODES_PER_MAP {
        return Refused(BadRequest), idMap, noteMap;
      }
      var committed;
      ghost var before := db;
      CopyReady(db, id, rows, depths);
      ghost var notes;
      committed, idMap, noteMap, notes := CopyRows(caller.userId, id, dest, parent, rows, fault);
      if committed {
        CopyDone(before, db, id, dest, parent, caller.userId, rows, depths, notes, idMap, noteMap);
      }
      resp := if committed then Copied(idMap[id], dest, parent, |rows|) else DbError;
    }

    /**
     The transaction of a copy: the two loops fill the transaction's own image of the tables, and
     COMMIT publishes it. A failed transaction leaves nothing behind but used-up keys.
     */
    method CopyRows(userId: int, root: int, dest: int, parent: Option<int>, rows: seq<int>, fault: nat)
      returns (committed: bool, idMap: map<int, int>, noteMap: map<int, int>, ghost notes: seq<int>)
      requires ParentsBefore(db.nodes, root, rows)
      requires KeysUpTo(db.nodes.Keys, db.nodeSeq) && KeysUpTo(db.notes.Keys, db.noteSeq)
      modifies this
      ensures committed <==> fault >= 3 + |rows| + |NotesIn(old(db).notes, rows)|
      ensures committed ==>
                && RowsCopied(old(db), db, root, dest, parent, userId, rows, notes, idMap, noteMap)
                && forall t :: t in notes <==> t in NotesIn(old(db).notes, rows)
      ensures !committed ==> RolledBack(old(db), db)
    {
      idMap, noteMap, notes := map[], map[], [];
      if fault == 0 {
        return false, idMap, noteMap, notes;
      }
      var nodeRows, nodeSeq, noteRows, noteSeq := db.nodes, db.nodeSeq, db.notes, db.noteSeq;
      committed, nodeRows, nodeSeq, idMap :=
        CopyNodeRows(nodeRows, nodeSeq, userId, root, dest, parent, rows, fault);
      if committed && fault != |rows| + 1 {
        var found := Order.Ascending(NotesIn(noteRows, rows));
        notes := found;
        NotesReady(noteRows, db.nodeSeq, rows, found, idMap);
        committed, noteRows, noteSeq, noteMap :=
          CopyNoteRows(noteRows, noteSeq, userId, idMap, found, fault, |rows| + 2);
        committed := committed && fault != |rows| + 2 + |found|;
      } else {
        committed := false;
      }
      if committed {
        db := db.(nodes := nodeRows, notes := noteRows);
      }
      db := db.(nodeSeq := nodeSeq, noteSeq := noteSeq);
    }
  }

  // ---- The two loops of a copy ----

  /** The serial INSERT loop over the fetched rows; parents are inserted before their children. */
  method CopyNodeRows(sources: NodeTable, base: nat, userId: int, root: int, dest: int, parent: Option<int>,
                      rows: seq<int>, fault: nat)
    returns (done: bool, nodes: NodeTable, nodeSeq: nat, idMap: map<int, int>)
    requires ParentsBefore(sources, root, rows) && KeysUpTo(sources.Keys, base)
    requires fault > 0
    ensures done <==> fault > |rows|
    ensures nodeSeq >= base
    ensures done ==>
              && NodesCopied(sources, nodes, root, dest, parent, userId, idMap)
              && Assigned(base, rows, |rows|, idMap)
              && nodeSeq == base + |rows|
  {
    nodes, nodeSeq, idMap := sources, base, map[];
    var idx := 0;
    while idx < |rows|
      invariant NodesCopied(sources, nodes, root, dest, parent, userId, idMap)
      invariant Assigned(base, rows, idx, idMap)
      invariant nodeSeq == base + idx && fault > idx
    {
      var src := rows[idx];
      var newParent := parent;
      ParentAssigned(sources, root, rows, base, idx, idMap);
      if src != root {
        if sources[src].parentId.None? || sources[src].parentId.value !in idMap {
          // The handler rolls back here; the fetch order means that it never does.
          assert false;
        }
        newParent := Some(idMap[sources[src].parentId.value]);
      }
      idx := idx + 1;
      if fault == idx {
        return false, nodes, nodeSeq, idMap;
      }
      nodeSeq := nodeSeq + 1;
      AssignStep(base, rows, idx - 1, idMap);
      CopyNodeStep(sources, nodes, root, dest, parent, userId, idMap, src, newParent, nodeSeq);
      nodes := nodes[nodeSeq := CopyOfNode(sources[src], dest, newParent, userId)];
      idMap := idMap[src := nodeSeq];
    }
    done := true;
  }

  /** The second loop: each note of a copied node, onto that node's copy. `first` is its first statement. */
  method CopyNoteRows(sources: map<int, NoteRow>, base: nat, userId: int, idMap: map<int, int>,
                      found: seq<int>, fault: nat, first: nat)
    returns (done: bool, notes: map<int, NoteRow>, noteSeq: nat, noteMap: map<int, int>)
    requires Distinct(found) && KeysUpTo(sources.Keys, base)
    requires forall i :: 0 <= i < |found| ==> found[i] in sources && sources[found[i]].nodeId in idMap
    requires fault >= first
    ensures done <==> fault >= first + |found|
    ensures noteSeq >= base
    ensures done ==>
              && NotesCopied(sources, notes, userId, idMap, noteMap)
              && Assigned(base, found, |found|, noteMap)
              && noteSeq == base + |found|
  {
    notes, noteSeq, noteMap := sources, base, map[];
    var idx := 0;
    while idx < |found|
      invariant NotesCopied(sources, notes, userId, idMap, noteMap)
      invariant Assigned(base, found, idx, noteMap)
      invariant noteSeq == base + idx && fault >= first + idx
    {
      var src := found[idx];
      if sources[src].nodeId !in idMap {
        // The handler rolls back here too, and again never does.
        assert false;
      }
      if fault == first + idx {
        return false, notes, noteSeq, noteMap;
      }
      noteSeq := noteSeq + 1;
      AssignStep(base, found, idx, noteMap);
      CopyNoteStep(sources, notes, userId, idMap, noteMap, src, noteSeq);
      notes := notes[noteSeq := CopyOfNote(sources[src], idMap[sources[src].nodeId], userId)];
      noteMap := noteMap[src := noteSeq];
      idx := idx + 1;
    }
    done := true;
  }

  // ---- Creating ----

  lemma DepthTest(nodes: NodeTable, p: int, depth: nat)
    requires HasDepth(nodes, p, depth) || (depth == MAX_NODE_DEPTH && Up(nodes, p, depth).Some?)
    ensures depth + 1 >= MAX_NODE_DEPTH <==> Up(nodes, p, MAX_NODE_DEPTH - 1).Some?
  {
    if depth + 1 >= MAX_NODE_DEPTH {
      UpAdd(nodes, p, MAX_NODE_DEPTH - 1, depth - (MAX_NODE_DEPTH - 1));
    } else {
      UpMonotone(nodes, p, depth + 1, MAX_NODE_DEPTH - 1);
    }
  }

  // ---- Deleting ----

  function ChildrenOutside(nodes: NodeTable, doomed: set<int>): set<int> {
    set c | c in nodes && c !in doomed && nodes[c].parentId.Some? && nodes[c].parentId.value in doomed
  }

  ghost predicate MeetsWithin(nodes: NodeTable, id: int, m: int, d: nat) {
    exists e: nat :: e <= d && MeetsAfter(nodes, id, m, e)
  }

  /** What the cascade reaches in `d` rounds. */
  ghost predicate CascadeTo(nodes: NodeTable, id: int, doomed: set<int>, d: nat) {
    forall m :: m in doomed <==> MeetsWithin(nodes, id, m, d)
  }

  lemma MeetsWithinNext(nodes: NodeTable, id: int, m: int, d: nat)
    ensures MeetsWithin(nodes, id, m, d + 1) <==> MeetsWithin(nodes, id, m, d) || MeetsAfter(nodes, id, m, d + 1)
  {
    if MeetsWithin(nodes, id, m, d) {
      var e: nat :| e <= d && MeetsAfter(nodes, id, m, e);
      assert e <= d + 1;
    }
  }

  lemma CascadeStart(nodes: NodeTable, id: int)
    requires id in nodes
    ensures CascadeTo(nodes, id, {id}, 0)
  {
    assert MeetsAfter(nodes, id, id, 0);
  }

  lemma CascadeRound(nodes: NodeTable, id: int, doomed: set<int>, d: nat)
    requires id in nodes && CascadeTo(nodes, id, doomed, d)
    ensures forall c :: c in ChildrenOutside(nodes, doomed) <==> MeetsAfter(nodes, id, c, d + 1)
    ensures CascadeTo(nodes, id, doomed + ChildrenOutside(nodes, doomed), d + 1)
  {
    var next := ChildrenOutside(nodes, doomed);
    assert id in doomed by { assert MeetsAfter(nodes, id, id, 0); }
    forall c ensures c in next <==> MeetsAfter(nodes, id, c, d + 1) {
      if c in next {
        var e: nat :| e <= d && MeetsAfter(nodes, id, nodes[c].parentId.value, e);
        assert MeetsAfter(nodes, id, c, e + 1);
      }
      if MeetsAfter(nodes, id, c, d + 1) {
        var p := nodes[c].parentId.value;
        assert MeetsAfter(nodes, id, p, d);
        assert p in doomed;
        if c in doomed {
          var e: nat :| e <= d && MeetsAfter(nodes, id, c, e);
          MeetsOnce(nodes, id, c, e, d + 1);
        }
      }
    }
    var after, deeper := doomed + next, d + 1;
    forall m ensures m in after <==> MeetsWithin(nodes, id, m, deeper) {
      MeetsWithinNext(nodes, id, m, d);
      assert m in doomed <==> MeetsWithin(nodes, id, m, d);
      assert m in next <==> MeetsAfter(nodes, id, m, deeper);
    }
  }

  lemma NextIsTooDeep(nodes: NodeTable, id: int, next: set<int>, d: nat)
    requires next != {} && forall c :: c in next <==> MeetsAfter(nodes, id, c, d + 1)
    ensures CascadeTooDeep(nodes, id, d)
  {
    var c := Order.Member(next);
    assert c in next;
  }

  lemma CascadeComplete(nodes: NodeTable, id: int, doomed: set<int>, d: nat)
    requires id in nodes && CascadeTo(nodes, id, doomed, d) && ChildrenOutside(nodes, doomed) == {}
    ensures doomed == CascadeSet(nodes, id)
  {
    assert id in doomed by { assert MeetsAfter(nodes, id, id, 0); }
    forall c | c in nodes && nodes[c].parentId.Some? && nodes[c].parentId.value in doomed ensures c in doomed {
      assert c !in ChildrenOutside(nodes, doomed);
    }
    forall m | m in CascadeSet(nodes, id) ensures m in doomed {
      var k: nat :| Up(nodes, m, k) == Some(id);
      CascadeReached(nodes, id, doomed, m, k);
    }
    forall m | m in doomed ensures m in CascadeSet(nodes, id) {
      var e: nat :| e <= d && MeetsAfter(nodes, id, m, e);
      MeetsUp(nodes, id, m, e);
    }
  }

  lemma CascadeWithin(nodes: NodeTable, id: int, doomed: set<int>, d: nat, limit: nat)
    requires CascadeTo(nodes, id, doomed, d) && doomed == CascadeSet(nodes, id) && d <= limit
    ensures !CascadeTooDeep(nodes, id, limit)
  {
    if MetAt(nodes, id, limit + 1) {
      var deep := limit + 1;
      var m :| MeetsAfter(nodes, id, m, deep);
      var a := MeetsUpper(nodes, id, m, deep, d + 1);
      MeetsUp(nodes, id, a, d + 1);
      assert a in doomed;
      var e: nat :| e <= d && MeetsAfter(nodes, id, a, e);
      MeetsOnce(nodes, id, a, e, d + 1);
    }
  }

  lemma {:induction false} CascadeReached(nodes: NodeTable, id: int, doomed: set<int>, m: int, k: nat)
    requires id in doomed && Up(nodes, m, k) == Some(id)
    requires forall c :: c in nodes && nodes[c].parentId.Some? && nodes[c].parentId.value in doomed ==> c in doomed
    ensures m in doomed
    decreases k
  {
    if k == 0 {
    } else {
      CascadeReached(nodes, id, doomed, nodes[m].parentId.value, k - 1);
    }
  }

  // ---- Statement lists against whole effects ----

  lemma VisibilityStatementsEffect(db: Db, id: int, override: Option<bool>, groupIds: Option<set<int>>,
                                   update: seq<Stmt>, retag: seq<Stmt>)
    requires id in db.nodes
    requires update == if override.Some? then [UpdateOverride(id, override.value)] else []
    requires retag == if groupIds.None? then []
                      else if groupIds.value == {} then [DeleteNodeTags({id})]
                      else [DeleteNodeTags({id}), InsertNodeTags(id, groupIds.value)]
    ensures ExecAll(db, update + retag) == AfterSetVisibility(db, id, override, groupIds)
    ensures |update + retag| + 2 == VisibilityStatements(override, groupIds)
  {
    var mid := if override.Some? then Exec(db, update[0]) else db;
    ExecShort(db, update);
    ExecAppend(db, update, retag);
    ExecShort(mid, retag);
    assert mid.nodes == AfterSetVisibility(db, id, override, groupIds).nodes;
    assert ExecAll(mid, retag).nodeTags == AfterSetVisibility(db, id, override, groupIds).nodeTags;
  }

  lemma ExecShort(db: Db, stmts: seq<Stmt>)
    ensures |stmts| == 0 ==> ExecAll(db, stmts) == db
    ensures |stmts| == 1 ==> ExecAll(db, stmts) == Exec(db, stmts[0])
    ensures |stmts| == 2 ==> ExecAll(db, stmts) == Exec(Exec(db, stmts[0]), stmts[1])
  {
    if |stmts| == 2 {
      ExecShort(db, stmts[..1]);
    }
  }

  lemma {:induction false} ExecAppend(db: Db, a: seq<Stmt>, b: seq<Stmt>)
    ensures ExecAll(db, a + b) == ExecAll(ExecAll(db, a), b)
    decreases |b|
  {
    if b == [] {
      assert a + b == a;
    } else {
      assert (a + b)[..|a + b| - 1] == a + b[..|b| - 1];
      ExecAppend(db, a, b[..|b| - 1]);
    }
  }

  lemma MoveStatementsEffect(db: Db, id: int, moved: set<int>, parent: Field, dest: int,
                             crossMap: bool, crossTenant: bool, setParent: seq<Stmt>)
    requires id in db.nodes && (crossTenant ==> crossMap)
    requires setParent == if parent.Absent? then [] else [UpdateParent(id, NewParent(parent, None))]
    ensures !crossMap ==>
              AfterMove(db, id, moved, parent, dest, crossMap, crossTenant)
              == if setParent == [] then db else Exec(db, setParent[0])
    ensures crossMap ==>
              var dropPlots := if crossTenant then [DeletePlotNodes(moved)] else [];
              ExecAll(db, [UpdateMap(moved, dest), DeleteNodeTags(moved)] + dropPlots + setParent)
              == AfterMove(db, id, moved, parent, dest, crossMap, crossTenant)
  {
    var mid := AfterMove(db, id, moved, Absent, dest, crossMap, crossTenant);
    ReparentEffect(db, id, moved, parent, dest, crossMap, crossTenant);
    RelocateEffect(db, id, moved, dest, crossMap, crossTenant);
    if crossMap {
      var relocate := [UpdateMap(moved, dest), DeleteNodeTags(moved)];
      var dropPlots := if crossTenant then [DeletePlotNodes(moved)] else [];
      ExecAppend(db, relocate + dropPlots, setParent);
      ExecAppend(db, relocate, dropPlots);
      ExecShort(db, relocate);
      ExecShort(Exec(Exec(db, relocate[0]), relocate[1]), dropPlots);
      ExecShort(mid, setParent);
    }
  }

  lemma RelocateEffect(db: Db, id: int, moved: set<int>, dest: int, crossMap: bool, crossTenant: bool)
    requires crossTenant ==> crossMap
    ensures var mid := if crossMap then Exec(Exec(db, UpdateMap(moved, dest)), DeleteNodeTags(moved)) else db;
            AfterMove(db, id, moved, Absent, dest, crossMap, crossTenant)
            == if crossTenant then Exec(mid, DeletePlotNodes(moved)) else mid
  {
    var mid := if crossMap then Exec(Exec(db, UpdateMap(moved, dest)), DeleteNodeTags(moved)) else db;
    var whole := AfterMove(db, id, moved, Absent, dest, crossMap, crossTenant);
    assert mid.nodes == whole.nodes;
    assert mid.nodeTags == whole.nodeTags;
    assert (if crossTenant then Exec(mid, DeletePlotNodes(moved)) else mid).plotNodes == whole.plotNodes;
  }

  lemma ReparentEffect(db: Db, id: int, moved: set<int>, parent: Field, dest: int, crossMap: bool, crossTenant: bool)
    requires id in db.nodes
    ensures var mid := AfterMove(db, id, moved, Absent, dest, crossMap, crossTenant);
            AfterMove(db, id, moved, parent, dest, crossMap, crossTenant)
            == if parent.Absent? then mid else Exec(mid, UpdateParent(id, NewParent(parent, None)))
  {
    var mid := AfterMove(db, id, moved, Absent, dest, crossMap, crossTenant);
    var whole := AfterMove(db, id, moved, parent, dest, crossMap, crossTenant);
    if !parent.Absent? {
      assert Exec(mid, UpdateParent(id, NewParent(parent, None))).nodes == whole.nodes;
    }
  }

  // ---- Copying ----

  lemma RowsAreNodes(nodes: NodeTable, root: int, rows: seq<int>, depths: seq<nat>)
    requires root in nodes && IsDescendantList(nodes, root, rows, depths)
    ensures forall i :: 0 <= i < |rows| ==> rows[i] in nodes
  {
    forall i | 0 <= i < |rows| ensures rows[i] in nodes {
      assert rows[i] in rows;
    }
  }

  lemma RowCount(nodes: NodeTable, root: int, rows: seq<int>, depths: seq<nat>)
    requires root in nodes && !OnMapCycle(nodes, root) && IsDescendantList(nodes, root, rows, depths)
    ensures |rows| == |Subtree(nodes, root)|
  {
    forall i, j | 0 <= i < j < |rows| ensures rows[i] != rows[j] {
      RowsDistinct(nodes, root, rows, depths, i, j);
    }
    DistinctCount(rows, Subtree(nodes, root));
  }

  lemma {:induction false} DistinctCount(q: seq<int>, s: set<int>)
    requires forall i, j :: 0 <= i < j < |q| ==> q[i] != q[j]
    requires forall x :: x in q <==> x in s
    ensures |q| == |s|
  {
    if q == [] {
      assert forall x :: x in s ==> x in q;
    } else {
      var last := q[|q| - 1];
      forall x ensures x in q[..|q| - 1] <==> x in s - {last} {
        assert x in q <==> x in q[..|q| - 1] || x == last;
      }
      DistinctCount(q[..|q| - 1], s - {last});
    }
  }

  lemma CopyReady(db: Db, root: int, rows: seq<int>, depths: seq<nat>)
    requires Referential(db)
    requires root in db.nodes && !OnMapCycle(db.nodes, root) && IsDescendantList(db.nodes, root, rows, depths)
    ensures ParentsBefore(db.nodes, root, rows)
    ensures KeysUpTo(db.nodes.Keys, db.nodeSeq) && KeysUpTo(db.notes.Keys, db.noteSeq)
    ensures |rows| == |Subtree(db.nodes, root)|
    ensures NotesIn(db.notes, rows) == NotesOf(db, Subtree(db.nodes, root))
  {
    RowCount(db.nodes, root, rows, depths);
    RowsAreNodes(db.nodes, root, rows, depths);
    forall i, j | 0 <= i < j < |rows| ensures rows[i] != rows[j] {
      RowsDistinct(db.nodes, root, rows, depths, i, j);
    }
    forall i | 0 <= i < |rows| ensures ParentBefore(db.nodes, root, rows, i) {
      if rows[i] != root {
        var j := ParentsFirst(db.nodes, root, rows, depths, i);
      }
    }
  }

  lemma NotesReady(notes: map<int, NoteRow>, base: nat, rows: seq<int>, found: seq<int>, idMap: map<int, int>)
    requires Assigned(base, rows, |rows|, idMap)
    requires Order.StrictlyAscending(found) && forall t :: t in found <==> t in NotesIn(notes, rows)
    ensures Distinct(found)
    ensures forall i :: 0 <= i < |found| ==> found[i] in notes && notes[found[i]].nodeId in idMap
  {
    forall i | 0 <= i < |found| ensures found[i] in notes && notes[found[i]].nodeId in idMap {
      var t := found[i];
      assert t in found;
    }
  }

  ghost predicate RowsCopied(before: Db, after: Db, root: int, dest: int, parent: Option<int>, userId: int,
                             rows: seq<int>, notes: seq<int>, idMap: map<int, int>, noteMap: map<int, int>)
  {
    && NodesCopied(before.nodes, after.nodes, root, dest, parent, userId, idMap)
    && Assigned(before.nodeSeq, rows, |rows|, idMap)
    && NotesCopied(before.notes, after.notes, userId, idMap, noteMap)
    && Assigned(before.noteSeq, notes, |notes|, noteMap)
    && after == before.(nodes := after.nodes, nodeSeq := before.nodeSeq + |rows|,
                        notes := after.notes, noteSeq := before.noteSeq + |notes|)
  }

  lemma CopyDone(before: Db, after: Db, root: int, dest: int, parent: Option<int>, userId: int,
                 rows: seq<int>, depths: seq<nat>, notes: seq<int>, idMap: map<int, int>, noteMap: map<int, int>)
    requires Referential(before) && root in before.nodes
    requires IsDescendantList(before.nodes, root, rows, depths)
    requires RowsCopied(before, after, root, dest, parent, userId, rows, notes, idMap, noteMap)
    requires forall t :: t in notes <==> t in NotesIn(before.notes, rows)
    ensures IsCopy(before, after, root, dest, parent, userId, idMap, noteMap) && root in idMap
  {
    NodeCopyDone(before.nodes, after.nodes, before.nodeSeq, root, dest, parent, userId, rows, depths, idMap);
    AssignedFacts(before.nodeSeq, rows, idMap, Subtree(before.nodes, root));
    NoteCopyDone(before, after, userId, rows, notes, idMap, noteMap);
  }

  lemma NodeCopyDone(before: NodeTable, after: NodeTable, base: nat, root: int, dest: int, parent: Option<int>,
                     userId: int, rows: seq<int>, depths: seq<nat>, idMap: map<int, int>)
    requires root in before && IsDescendantList(before, root, rows, depths) && KeysUpTo(before.Keys, base)
    requires NodesCopied(before, after, root, dest, parent, userId, idMap)
    requires Assigned(base, rows, |rows|, idMap)
    ensures IsNodeCopy(before, after, root, dest, parent, userId, idMap) && root in idMap
    ensures forall m :: m in idMap ==> 0 < idMap[m] <= base + |rows|
  {
    AssignedFacts(base, rows, idMap, Subtree(before, root));
    assert rows[0] in rows;
    forall m | m in idMap
      ensures after[idMap[m]] == CopyOfNode(before[m], dest, CopyParent(before, root, parent, idMap, m), userId)
    {
      assert NodeCopied(before, after, root, dest, parent, userId, idMap, m);
    }
  }

  lemma NoteCopyDone(before: Db, after: Db, userId: int, rows: seq<int>, notes: seq<int>,
                     idMap: map<int, int>, noteMap: map<int, int>)
    requires KeysUpTo(before.notes.Keys, before.noteSeq) && forall x :: x in rows <==> x in idMap
    requires NotesCopied(before.notes, after.notes, userId, idMap, noteMap)
    requires Assigned(before.noteSeq, notes, |notes|, noteMap)
    requires forall t :: t in notes <==> t in NotesIn(before.notes, rows)
    ensures IsNoteCopy(before, after, userId, idMap, noteMap)
    ensures forall t :: t in noteMap ==> 0 < noteMap[t] <= before.noteSeq + |notes|
  {
    AssignedFacts(before.noteSeq, notes, noteMap, NotesIn(before.notes, rows));
    forall t | t in noteMap
      ensures after.notes[noteMap[t]] == CopyOfNote(before.notes[t], idMap[before.notes[t].nodeId], userId)
    {
      assert NoteCopied(before.notes, after.notes, userId, idMap, noteMap, t);
    }
  }
}
