/**
 The queries of NoteController and PlotController that restate the visibility resolver with other
 anchors: the notes of a map, the members of a plot, and the plots of a member.
*/
module NotesAndPlots {
  import opened Tables
  import opened Resolver
  import opened Listing

  // ---- Notes ----

  predicate NoteTagsMeet(db: Db, t: int, userId: int) {
    exists r :: r in db.noteTags && r.0 == t && (r.1, userId) in db.dir.groupMembers
  }

  /** `note_visible`: by its own tags if the note overrides, else through its node in `nodeVisibleStarts`. */
  predicate PassesNoteFilter(db: Db, t: int, userId: int, nodeVisibleStarts: set<int>)
    requires t in db.notes
  {
    if db.notes[t].visibilityOverride then NoteTagsMeet(db, t, userId)
    else db.notes[t].nodeId in nodeVisibleStarts
  }

  /** The definition that every note query stands for. */
  ghost predicate NoteVisible(db: Db, t: int, userId: int) {
    t in db.notes &&
    if db.notes[t].visibilityOverride then NoteTagsMeet(db, t, userId)
    else VisibleWithin(db, db.notes[t].nodeId, userId, MAX_NODE_DEPTH)
  }

  predicate NoteOnMap(db: Db, t: int, mapId: int) {
    t in db.notes && db.notes[t].nodeId in db.nodes && db.nodes[db.notes[t].nodeId].mapId == mapId
  }

  /** The notes of a map that pass the visibility predicate for a caller. */
  function ShownNotes(db: Db, caller: Caller, mapId: int): set<int> {
    if caller.isAdmin || HasXray(db, caller.userId, mapId) then set t | t in db.notes && NoteOnMap(db, t, mapId)
    else
      var starts := VisibleStarts(db, NodesOn(db.nodes, mapId), caller.userId);
      set t | t in db.notes && NoteOnMap(db, t, mapId) && PassesNoteFilter(db, t, caller.userId, starts)
  }

  /** GET /nodes/{nodeId}/notes. */
  function ListNotes(db: Db, caller: Caller, mapId: int, nodeId: int): set<int> {
    if !MayViewMap(db, caller, mapId) then {}
    else set t | t in ShownNotes(db, caller, mapId) && t in db.notes && db.notes[t].nodeId == nodeId
  }

  /** GET /notes/{id}: whether it answers with the note (else 404). */
  predicate GetsNote(db: Db, caller: Caller, mapId: int, t: int) {
    MayViewMap(db, caller, mapId) && t in ShownNotes(db, caller, mapId)
  }

  lemma ShownNotesMeaning(db: Db, caller: Caller, mapId: int, t: int)
    ensures t in ShownNotes(db, caller, mapId) <==>
            && NoteOnMap(db, t, mapId)
            && (caller.isAdmin || HasXray(db, caller.userId, mapId) || NoteVisible(db, t, caller.userId))
  {
    if t in db.notes {
      BoundedResolver(db, NodesOn(db.nodes, mapId), db.notes[t].nodeId, caller.userId);
    }
  }

  /** A note without its own override is shown exactly when the map listing shows its node. */
  lemma InheritingNoteFollowsNode(db: Db, caller: Caller, mapId: int, t: int)
    requires NoteOnMap(db, t, mapId) && !db.notes[t].visibilityOverride
    ensures GetsNote(db, caller, mapId, t) <==>
            MayViewMap(db, caller, mapId) && db.notes[t].nodeId in Shown(db, caller, mapId)
    ensures t in ListNotes(db, caller, mapId, db.notes[t].nodeId) <==> GetsNote(db, caller, mapId, t)
  {
    ShownNotesMeaning(db, caller, mapId, t);
    ShownMeaning(db, caller, mapId, db.notes[t].nodeId);
  }

  /** A note is visible by its own groups if it overrides, else with its node. */
  ghost predicate NoteIsListed(db: Db, caller: Caller, mapId: int, t: int) {
    && PassesGate(db, caller, mapId)
    && t in db.notes && db.notes[t].nodeId in db.nodes && db.nodes[db.notes[t].nodeId].mapId == mapId
    && (Bypasses(db, caller, mapId)
        || if db.notes[t].visibilityOverride
           then exists g :: (t, g) in db.noteTags && (g, caller.userId) in db.dir.groupMembers
           else VisibleWithin(db, db.notes[t].nodeId, caller.userId, 15))
  }

  /** A node's notes are listed, and a note fetched, exactly by that rule. */
  lemma NoteEndpointsMeaning(db: Db, caller: Caller, mapId: int, nodeId: int, t: int)
    ensures t in ListNotes(db, caller, mapId, nodeId) <==>
            NoteIsListed(db, caller, mapId, t) && db.notes[t].nodeId == nodeId
    ensures GetsNote(db, caller, mapId, t) <==> NoteIsListed(db, caller, mapId, t)
  {
    ShownNotesMeaning(db, caller, mapId, t);
    OwnGroups(db, t, caller.userId);
  }

  lemma OwnGroups(db: Db, t: int, userId: int)
    ensures NoteTagsMeet(db, t, userId) <==> exists g :: (t, g) in db.noteTags && (g, userId) in db.dir.groupMembers
  {
    if NoteTagsMeet(db, t, userId) {
      var r :| r in db.noteTags && r.0 == t && (r.1, userId) in db.dir.groupMembers;
      var g := r.1;
      assert r == (t, g) && (t, g) in db.noteTags && (g, userId) in db.dir.groupMembers;
    }
    if g :| (t, g) in db.noteTags && (g, userId) in db.dir.groupMembers {
      var r := (t, g);
      assert r in db.noteTags && r.0 == t;
    }
  }

  // ---- Members of a plot ----

  function MemberNodes(db: Db, plot: int): set<int> {
    set r | r in db.plotNodes && r.0 == plot && r.1 in db.nodes :: r.1
  }

  function MemberNotes(db: Db, plot: int): set<int> {
    set r | r in db.plotNotes && r.0 == plot && r.1 in db.notes && db.notes[r.1].nodeId in db.nodes :: r.1
  }

  /** The nodes that the plot's notes are attached to: the anchor of the note query. */
  function NodesOfMemberNotes(db: Db, plot: int): set<int> {
    set t | t in MemberNotes(db, plot) && t in db.notes && db.notes[t].nodeId in db.nodes :: db.notes[t].nodeId
  }

  /** Who may see a member on this map past both gates, given whether its own filter passes. */
  predicate MemberGate(db: Db, caller: Caller, mapId: int, passes: bool) {
    && MapInTenant(db, mapId, caller.tenantId)
    && (caller.isAdmin
        || (CanViewMap(db, caller.userId, mapId) && (HasXray(db, caller.userId, mapId) || passes)))
  }

  /** GET /plots/{id}/members, nodes part. */
  function ListMemberNodes(db: Db, caller: Caller, plot: int): set<int> {
    var starts := VisibleStarts(db, MemberNodes(db, plot), caller.userId);
    set n | n in MemberNodes(db, plot) && n in db.nodes
            && MemberGate(db, caller, db.nodes[n].mapId, n in starts)
  }

  /** GET /plots/{id}/members, notes part. */
  function ListMemberNotes(db: Db, caller: Caller, plot: int): set<int> {
    var starts := VisibleStarts(db, NodesOfMemberNotes(db, plot), caller.userId);
    set t | t in MemberNotes(db, plot) && t in db.notes && db.notes[t].nodeId in db.nodes
            && MemberGate(db, caller, db.nodes[db.notes[t].nodeId].mapId,
                          PassesNoteFilter(db, t, caller.userId, starts))
  }

  /** An admin whose own listing of the map answers with nothing: the plot skips that gate. */
  predicate PlotSkipsGate(db: Db, caller: Caller, mapId: int) {
    caller.isAdmin && MapInTenant(db, mapId, caller.tenantId) && !CanViewMap(db, caller.userId, mapId)
  }

  /**
   The plot-scoped node query is the map-scoped one restricted to members, whatever maps the plot spans:
   a member is listed exactly when the listing of its own map shows it, or the plot skips the map gate.
   */
  lemma PlotNodesAgreeWithMaps(db: Db, caller: Caller, plot: int, n: int)
    ensures n in ListMemberNodes(db, caller, plot) <==>
            n in MemberNodes(db, plot)
            && (n in ListNodes(db, caller, db.nodes[n].mapId, AnyParent) || PlotSkipsGate(db, caller, db.nodes[n].mapId))
  {
    BoundedResolver(db, MemberNodes(db, plot), n, caller.userId);
    if n in db.nodes {
      var mapId := db.nodes[n].mapId;
      ShownMeaning(db, caller, mapId, n);
      if MayViewMap(db, caller, mapId) { ListedAll(db, caller, mapId); }
    }
  }

  /** The same for notes, with the anchor moved to the attached nodes. */
  lemma PlotNotesAgreeWithMaps(db: Db, caller: Caller, plot: int, t: int)
    ensures t in ListMemberNotes(db, caller, plot) <==>
            && t in MemberNotes(db, plot)
            && var mapId := db.nodes[db.notes[t].nodeId].mapId;
               GetsNote(db, caller, mapId, t) || PlotSkipsGate(db, caller, mapId)
  {
    if t in MemberNotes(db, plot) {
      var nodeId := db.notes[t].nodeId;
      assert nodeId in NodesOfMemberNotes(db, plot);
      BoundedResolver(db, NodesOfMemberNotes(db, plot), nodeId, caller.userId);
      ShownNotesMeaning(db, caller, db.nodes[nodeId].mapId, t);
    }
  }

  /** A plot lists a node to admins when its map is in the tenant, and to others as a listing of its map would. */
  lemma MemberNodesMeaning(db: Db, caller: Caller, plot: int, n: int)
    ensures n in ListMemberNodes(db, caller, plot) <==>
            && (plot, n) in db.plotNodes && n in db.nodes
            && if caller.isAdmin then MapInTenant(db, db.nodes[n].mapId, caller.tenantId)
               else IsListed(db, caller, db.nodes[n].mapId, n)
  {
    PlotNodesAgreeWithMaps(db, caller, plot, n);
    assert n in MemberNodes(db, plot) <==> (plot, n) in db.plotNodes && n in db.nodes by {
      if (plot, n) in db.plotNodes { assert (plot, n).1 == n && (plot, n).0 == plot; }
    }
    if n in db.nodes { ListNodesMeaning(db, caller, db.nodes[n].mapId, AnyParent, n); }
  }

  lemma MemberNotesMeaning(db: Db, caller: Caller, plot: int, t: int)
    ensures t in ListMemberNotes(db, caller, plot) <==>
            && (plot, t) in db.plotNotes && t in db.notes && db.notes[t].nodeId in db.nodes
            && var mapId := db.nodes[db.notes[t].nodeId].mapId;
               if caller.isAdmin then MapInTenant(db, mapId, caller.tenantId) else NoteIsListed(db, caller, mapId, t)
  {
    PlotNotesAgreeWithMaps(db, caller, plot, t);
    assert t in MemberNotes(db, plot) <==> (plot, t) in db.plotNotes && t in db.notes && db.notes[t].nodeId in db.nodes by {
      if (plot, t) in db.plotNotes { assert (plot, t).1 == t && (plot, t).0 == plot; }
    }
    if t in db.notes && db.notes[t].nodeId in db.nodes {
      NoteEndpointsMeaning(db, caller, db.nodes[db.notes[t].nodeId].mapId, db.notes[t].nodeId, t);
    }
  }

  // ---- Plots of a member ----

  /** GET /nodes/{nid}/plots: None is the 404 of a node that is missing or not visible. */
  function ListPlotsForNode(db: Db, caller: Caller, mapId: int, n: int): Option<set<int>> {
    if !(MapInTenant(db, mapId, caller.tenantId) && n in Shown(db, caller, mapId)) then None
    else Some(set r | r in db.plotNodes && r.1 == n && r.0 in db.dir.plots
                      && db.dir.plots[r.0] == caller.tenantId :: r.0)
  }

  function ListPlotsForNote(db: Db, caller: Caller, mapId: int, t: int): Option<set<int>> {
    if !(MapInTenant(db, mapId, caller.tenantId) && t in ShownNotes(db, caller, mapId)) then None
    else Some(set r | r in db.plotNotes && r.1 == t && r.0 in db.dir.plots
                      && db.dir.plots[r.0] == caller.tenantId :: r.0)
  }

  /** The 404 hides missing, foreign and invisible nodes alike; else exactly the tenant's plots that hold the node. */
  lemma PlotsForNodeMeaning(db: Db, caller: Caller, mapId: int, n: int, plot: int)
    ensures var plots := ListPlotsForNode(db, caller, mapId, n);
            && (plots.Some? <==>
                  && mapId in db.dir.maps && db.dir.maps[mapId].tenantId == caller.tenantId
                  && n in db.nodes && db.nodes[n].mapId == mapId
                  && (Bypasses(db, caller, mapId) || VisibleWithin(db, n, caller.userId, 15)))
            && (plots.Some? ==>
                  (plot in plots.value <==>
                     (plot, n) in db.plotNodes && plot in db.dir.plots && db.dir.plots[plot] == caller.tenantId))
  {
    ShownMeaning(db, caller, mapId, n);
    if (plot, n) in db.plotNodes { assert (plot, n).1 == n && (plot, n).0 == plot; }
  }

  lemma PlotsForNoteMeaning(db: Db, caller: Caller, mapId: int, t: int, plot: int)
    ensures var plots := ListPlotsForNote(db, caller, mapId, t);
            && (plots.Some? <==>
                  && mapId in db.dir.maps && db.dir.maps[mapId].tenantId == caller.tenantId
                  && NoteOnMap(db, t, mapId)
                  && (Bypasses(db, caller, mapId) || NoteVisible(db, t, caller.userId)))
            && (plots.Some? ==>
                  (plot in plots.value <==>
                     (plot, t) in db.plotNotes && plot in db.dir.plots && db.dir.plots[plot] == caller.tenantId))
  {
    ShownNotesMeaning(db, caller, mapId, t);
    if (plot, t) in db.plotNotes { assert (plot, t).1 == t && (plot, t).0 == plot; }
  }

  /** The two directions agree: a plot lists a node exactly when the node lists the plot and its map may be viewed. */
  lemma MembershipBothWays(db: Db, caller: Caller, plot: int, n: int)
    requires plot in db.dir.plots && db.dir.plots[plot] == caller.tenantId && n in db.nodes
    ensures n in ListMemberNodes(db, caller, plot) <==>
            var plots := ListPlotsForNode(db, caller, db.nodes[n].mapId, n);
            && plots.Some? && plot in plots.value
            && (caller.isAdmin || CanViewMap(db, caller.userId, db.nodes[n].mapId))
  {
    BoundedResolver(db, MemberNodes(db, plot), n, caller.userId);
    ShownMeaning(db, caller, db.nodes[n].mapId, n);
    assert n in MemberNodes(db, plot) <==> (plot, n) in db.plotNodes by {
      if (plot, n) in db.plotNodes { assert (plot, n).1 == n; }
    }
    var plots := ListPlotsForNode(db, caller, db.nodes[n].mapId, n);
    if plots.Some? {
      assert plot in plots.value <==> (plot, n) in db.plotNodes by {
        if (plot, n) in db.plotNodes { assert (plot, n).0 == plot; }
      }
    }
  }

  lemma NoteMembershipBothWays(db: Db, caller: Caller, plot: int, t: int)
    requires plot in db.dir.plots && db.dir.plots[plot] == caller.tenantId
    requires t in db.notes && db.notes[t].nodeId in db.nodes
    ensures t in ListMemberNotes(db, caller, plot) <==>
            var mapId := db.nodes[db.notes[t].nodeId].mapId;
            var plots := ListPlotsForNote(db, caller, mapId, t);
            && plots.Some? && plot in plots.value
            && (caller.isAdmin || CanViewMap(db, caller.userId, mapId))
  {
    var mapId := db.nodes[db.notes[t].nodeId].mapId;
    ShownNotesMeaning(db, caller, mapId, t);
    assert t in MemberNotes(db, plot) <==> (plot, t) in db.plotNotes by {
      if (plot, t) in db.plotNotes { assert (plot, t).1 == t; }
    }
    if t in MemberNotes(db, plot) {
      assert db.notes[t].nodeId in NodesOfMemberNotes(db, plot);
      BoundedResolver(db, NodesOfMemberNotes(db, plot), db.notes[t].nodeId, caller.userId);
    }
    var plots := ListPlotsForNote(db, caller, mapId, t);
    if plots.Some? {
      assert plot in plots.value <==> (plot, t) in db.plotNotes by {
        if (plot, t) in db.plotNotes { assert (plot, t).0 == plot; }
      }
    }
  }
}
