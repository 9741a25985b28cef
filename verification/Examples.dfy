/**
 Concrete requests at which a guarantee that one might expect fails. The conditions under which it
 holds are the "Iff" lemmas of Runs.
*/
module Examples {
  import opened Tables
  import opened Forest
  import opened Effects
  import opened Requests
  import opened ForestSafety
  import opened Depth
  import opened Resolver
  import opened Runs
  import CopyLoop
  import opened VisibilityFrames

  // ---- A bare relocation, and a cycle after it ----

  // Three states of a two-node forest on maps 1 and 2, both owned by user 7.

  const OWNER := Caller(7, 1, false)
  const TOP := NodeRow(1, None, "top", None, None, None, false, 7)

  function TwoMaps(nodes: NodeTable): Db {
    Db(Directory(map[1 := MapRow(1, 7, false), 2 := MapRow(1, 7, false)], map[], map[], map[], map[], {}, map[]),
       nodes, {}, map[], {}, {}, {}, [], 2, 0)
  }

  /** Node 2 hangs under node 1, both on map 1. */
  const TOGETHER: NodeTable := map[1 := TOP, 2 := TOP.(parentId := Some(1))]
  /** Node 2 has been moved to map 2 with `newMapId` alone. */
  const APART: NodeTable := map[1 := TOP, 2 := TOP.(parentId := Some(1), mapId := 2)]
  /** Node 1 has been moved to map 2 under node 2. */
  const KNOT: NodeTable := map[1 := TOP.(parentId := Some(2), mapId := 2), 2 := TOP.(parentId := Some(1), mapId := 2)]

  lemma FirstMove()
    ensures CarriedOut(TwoMaps(TOGETHER), OWNER, Move(1, 2, Target(Absent, Given(2))), TwoMaps(APART))
  {
    var db, target := TwoMaps(TOGETHER), Target(Absent, Given(2));
    assert 2 in db.nodes && Descends(db.nodes, 2, 2, 0);
    forall m | m in Subtree(db.nodes, 2) ensures m == 2 {
      var k: nat :| Descends(db.nodes, 2, m, k);
      assert k == 0 || m == 2;
    }
    assert Subtree(db.nodes, 2) == {2};
    assert MoveResult(db, OWNER, 1, 2, target).nodes == APART;
  }

  lemma SecondMove()
    ensures CarriedOut(TwoMaps(APART), OWNER, Move(1, 1, Target(Given(2), Given(2))), TwoMaps(KNOT))
  {
    var db, target := TwoMaps(APART), Target(Given(2), Given(2));
    assert Descends(db.nodes, 1, 1, 0);
    forall m | m in Subtree(db.nodes, 1) ensures m == 1 {
      var k: nat :| Descends(db.nodes, 1, m, k);
      assert k == 0 || m == 1;
    }
    assert Subtree(db.nodes, 1) == {1};
    assert MoveResult(db, OWNER, 1, 1, target).nodes == KNOT;
  }

  lemma ShapesOfTheTables()
    ensures IsForest(TOGETHER) && Referential(TwoMaps(TOGETHER))
    ensures Acyclic(APART) && !SameMap(APART) && !Acyclic(KNOT)
  {
    assert Up(TOGETHER, 1, 1) == None && Up(TOGETHER, 2, 2) == None;
    assert Up(APART, 1, 1) == None && Up(APART, 2, 2) == None;
    assert Up(KNOT, 2, 1) == Some(1) && Up(KNOT, 1, 2) == Some(1);
    AcyclicIffNoCycle(KNOT);
  }

  /** Two accepted moves from a two-node forest: the first leaves a parent behind, the second closes a cycle. */
  lemma TwoMovesMakeACycle() returns (start: Db, middle: Db, end: Db, first: Asked, second: Asked)
    ensures Referential(start) && IsForest(start.nodes)
    ensures CarriedOut(start, first.0, first.1, middle) && LeavesParentBehind(start, first.0, first.1, middle)
    ensures Acyclic(middle.nodes) && !SameMap(middle.nodes)
    ensures CarriedOut(middle, second.0, second.1, end) && MakesCycle(middle, second.0, second.1, end)
    ensures !Acyclic(end.nodes)
  {
    FirstMove();
    SecondMove();
    ShapesOfTheTables();
    assert Up(APART, 2, 1) == Some(1);
    start, middle, end := TwoMaps(TOGETHER), TwoMaps(APART), TwoMaps(KNOT);
    first := (OWNER, Move(1, 2, Target(Absent, Given(2))));
    second := (OWNER, Move(1, 1, Target(Given(2), Given(2))));
  }

  // ---- A move that goes too deep ----

  /** Nodes 1 to 15 form a chain of the greatest depth; node 16 stands alone. */
  const CHAIN: NodeTable :=
    map n: int | 1 <= n <= 16 :: TOP.(parentId := if n == 1 || n == 16 then None else Some(n - 1))

  lemma {:induction false} ChainUp(n: int, k: nat)
    requires 1 <= n <= 15
    ensures Up(CHAIN, n, k) == if k < n then Some(n - k) else None
    decreases k
  {
    if k == 0 {
    } else if n > 1 {
      ChainUp(n - 1, k - 1);
    }
  }

  lemma ChainShape()
    ensures Referential(TwoMaps(CHAIN).(nodeSeq := 16)) && IsForest(CHAIN) && Shallow(CHAIN)
    ensures Up(CHAIN, 16, 1) == None
  {
    forall n | n in CHAIN ensures Up(CHAIN, n, MAX_NODE_DEPTH) == None {
      if n == 16 {
        assert Up(CHAIN, 16, 1) == None;
      } else {
        ChainUp(n, MAX_NODE_DEPTH);
      }
    }
    ShallowIsAcyclic(CHAIN);
  }

  lemma NotBelowAlone()
    ensures 15 !in Subtree(CHAIN, 16)
  {
    forall k: nat ensures !Descends(CHAIN, 16, 15, k) {
      if Descends(CHAIN, 16, 15, k) {
        DescendsUp(CHAIN, 16, 15, k);
        ChainUp(15, k);
      }
    }
  }

  const FULL_CHAIN: Db := TwoMaps(CHAIN).(nodeSeq := 16)
  const UNDER_LAST := Target(Given(15), Absent)

  lemma MoveUnderLastAccepted()
    ensures MoveRefusal(FULL_CHAIN, OWNER, 1, 16, UNDER_LAST).None?
  {
    NotBelowAlone();
  }

  lemma CreateUnderLastRefused()
    ensures CreateRefusal(FULL_CHAIN, OWNER, 1, Some(15)) == Some(BadRequest)
  {
    ChainUp(15, MAX_NODE_DEPTH - 1);
  }

  lemma MoveUnderLastDoesNotFit()
    ensures !MoveFits(CHAIN, 16, UNDER_LAST)
  {
    ChainUp(15, MAX_NODE_DEPTH - 1);
    assert Up(CHAIN, 16, 0) == Some(16) && !FitsUnder(CHAIN, 15, 0);
  }

  /** Node 16 is moved under node 15, and so to depth fifteen; create refuses a node there. */
  lemma MoveTooDeep() returns (start: Db, end: Db, asked: Asked)
    ensures Referential(start) && IsForest(start.nodes) && Shallow(start.nodes)
    ensures GoesTooDeep(start, asked.0, asked.1, end) && !Shallow(end.nodes)
    ensures CreateRefusal(start, asked.0, 1, Some(15)) == Some(BadRequest)
  {
    start, asked := FULL_CHAIN, (OWNER, Move(1, 16, UNDER_LAST));
    ChainShape();
    MoveUnderLastAccepted();
    CreateUnderLastRefused();
    MoveUnderLastDoesNotFit();
    end := MoveResult(start, OWNER, 1, 16, UNDER_LAST);
    MoveKeepsShallowIff(start, OWNER, 1, 16, UNDER_LAST);
  }

  // ---- A copy that goes too deep ----

  /** A copy of a single node without notes. */
  function LeafCopied(db: Db, id: int, dest: int, parent: Option<int>, userId: int): Db
    requires id in db.nodes
  {
    InsertNode(db, CopyOfNode(db.nodes[id], dest, parent, userId))
  }

  lemma LeafIsCopy(db: Db, id: int, dest: int, parent: Option<int>, userId: int)
    requires Referential(db) && id in db.nodes && Subtree(db.nodes, id) == {id}
    requires forall t :: t in db.notes ==> db.notes[t].nodeId != id
    ensures IsCopy(db, LeafCopied(db, id, dest, parent, userId), id, dest, parent, userId,
                   map[id := db.nodeSeq + 1], map[])
  {
    var idMap := map[id := db.nodeSeq + 1];
    assert idMap[id] in idMap.Values;
    forall v | v in idMap.Values ensures v == db.nodeSeq + 1 { var k := CopyLoop.KeyOf(idMap, v); }
    var after, noteMap: map<int, int> := LeafCopied(db, id, dest, parent, userId), map[];
    assert IsNodeCopy(db.nodes, after.nodes, id, dest, parent, userId, idMap);
    forall t | t in db.notes ensures db.notes[t].nodeId !in idMap {
      var n := db.notes[t].nodeId;
      assert n != id;
    }
    assert after.notes.Keys == db.notes.Keys + noteMap.Values;
    assert IsNoteCopy(db, after, userId, idMap, noteMap);
  }

  lemma AloneSubtree()
    ensures Subtree(CHAIN, 16) == {16}
  {
    assert Descends(CHAIN, 16, 16, 0);
    forall m | m in Subtree(CHAIN, 16) ensures m == 16 {
      var k: nat :| Descends(CHAIN, 16, m, k);
      if k > 0 {
        DescendsUp(CHAIN, 16, m, k);
        ChainUp(m, k);
      }
    }
  }

  lemma ChainCount()
    ensures |NodesOn(CHAIN, 1)| <= 16
  {
    FirstCount(16);
    SubsetSize(NodesOn(CHAIN, 1), First(16));
  }

  lemma CopyUnderLastAccepted()
    ensures CopyRefusal(FULL_CHAIN, OWNER, 1, 16, UNDER_LAST).None?
  {
    AloneSubtree();
    ChainCount();
  }

  lemma CopyUnderLastDoesNotFit()
    ensures !CopyFits(CHAIN, 16, Some(15))
  {
    ChainUp(15, MAX_NODE_DEPTH - 1);
    assert Descends(CHAIN, 16, 16, 0) && !FitsUnder(CHAIN, 15, 0);
  }

  /** A copy of node 16 under node 15 is accepted as well, and goes as deep. */
  lemma CopyTooDeep() returns (end: Db, idMap: map<int, int>)
    ensures Referential(FULL_CHAIN) && IsForest(CHAIN) && Shallow(CHAIN)
    ensures CopyRefusal(FULL_CHAIN, OWNER, 1, 16, UNDER_LAST).None? && !CopyFits(CHAIN, 16, Some(15))
    ensures IsCopy(FULL_CHAIN, end, 16, 1, Some(15), OWNER.userId, idMap, map[])
    ensures !Shallow(end.nodes)
  {
    idMap, end := map[16 := 17], LeafCopied(FULL_CHAIN, 16, 1, Some(15), OWNER.userId);
    ChainShape();
    AloneSubtree();
    CopyUnderLastAccepted();
    CopyUnderLastDoesNotFit();
    LeafIsCopy(FULL_CHAIN, 16, 1, Some(15), OWNER.userId);
    CopyKeepsShallowIff(CHAIN, end.nodes, 16, 1, Some(15), OWNER.userId, idMap);
  }

  // ---- A move that overfills its destination ----

  /** The numbers from 1 to `k`. */
  function First(k: nat): set<int> {
    if k == 0 then {} else First(k - 1) + {k}
  }

  lemma {:induction false} FirstCount(k: nat)
    ensures |First(k)| == k && forall n :: n in First(k) <==> 1 <= n <= k
  {
    if k == 0 {
    } else {
      FirstCount(k - 1);
    }
  }

  /** Nodes 1 to `k - 1` are on map 2, and the last one is alone on map 1. */
  function Filled(k: nat): NodeTable {
    map n | n in First(k) :: TOP.(mapId := if n < k then 2 else 1)
  }

  const LAST: int := MAX_NODES_PER_MAP + 1
  const ACROSS := Target(Null, Given(2))

  lemma FilledShape(k: nat)
    requires k > 0
    ensures |NodesOn(Filled(k), 2)| == k - 1 && NodesOn(Filled(k), 1) == {k}
    ensures forall m :: m != 1 && m != 2 ==> NodesOn(Filled(k), m) == {}
    ensures IsForest(Filled(k)) && forall n :: n in Filled(k) <==> 1 <= n <= k
  {
    FirstCount(k - 1);
    FirstCount(k);
    assert NodesOn(Filled(k), 2) == First(k - 1);
    forall n | n in Filled(k) ensures Grounded(Filled(k), n) { assert Up(Filled(k), n, 1) == None; }
  }

  lemma MoveAcross(k: nat) returns (start: Db)
    requires k == LAST
    ensures Referential(start) && IsForest(start.nodes) && Capped(start.nodes) && LAST in start.nodes
    ensures |NodesOn(start.nodes, 2)| == MAX_NODES_PER_MAP
    ensures MoveRefusal(start, OWNER, 1, LAST, ACROSS).None?
    ensures CreateRefusal(start, OWNER, 2, None) == Some(BadRequest)
  {
    start := TwoMaps(Filled(k)).(nodeSeq := k);
    FilledShape(k);
    forall m ensures |NodesOn(start.nodes, m)| <= MAX_NODES_PER_MAP {
      if m != 1 && m != 2 { assert NodesOn(start.nodes, m) == {}; }
    }
  }

  /** Node 5001 is moved across, to a map where create refuses a node. */
  lemma MoveOverfills() returns (start: Db, end: Db, asked: Asked)
    ensures Referential(start) && IsForest(start.nodes) && Capped(start.nodes)
    ensures Overfills(start, asked.0, asked.1, end) && !Capped(end.nodes)
    ensures CreateRefusal(start, asked.0, 2, None) == Some(BadRequest)
  {
    start := MoveAcross(LAST);
    asked := (OWNER, Move(1, LAST, ACROSS));
    end := MoveResult(start, OWNER, 1, LAST, ACROSS);
    SubtreeClosed(start.nodes, LAST);
    SubsetSize({LAST}, Subtree(start.nodes, LAST));
    MoveKeepsCapIff(start, OWNER, 1, LAST, ACROSS);
  }

  // ---- A same-map move that reveals a node outside the subtree ----

  /** Node 2 has been moved away from under node 1 with `newMapId` alone; node 3 is flagged, for group 5. */
  const LEFT_BEHIND: NodeTable :=
    map[1 := TOP, 2 := TOP.(parentId := Some(1), mapId := 2), 3 := TOP.(visibilityOverride := true)]

  function Tagged(nodes: NodeTable): Db {
    var db := TwoMaps(nodes);
    db.(dir := db.dir.(groups := map[5 := GroupRow(1, false)], groupMembers := {(5, 9)}),
        nodeTags := {(3, 5)}, nodeSeq := 3)
  }

  lemma NothingBelowOne(m: int, k: nat)
    requires Descends(LEFT_BEHIND, 1, m, k)
    ensures m == 1
  {
    if k > 0 { DescendsUp(LEFT_BEHIND, 1, m, k); }
  }

  /** Moving node 1 under node 3, on their map, shows node 2 on the other map to user 9. */
  lemma MoveRevealsOutside() returns (start: Db, end: Db, target: Target)
    ensures Referential(start) && Acyclic(start.nodes)
    ensures MoveRefusal(start, OWNER, 1, 1, target).None? && !CrossMap(1, target)
    ensures end == MoveResult(start, OWNER, 1, 1, target)
    ensures 2 !in Subtree(start.nodes, 1) && 2 in CascadeSet(start.nodes, 1)
    ensures !EffectivelyVisible(start, 2, 9) && EffectivelyVisible(end, 2, 9)
  {
    start, target := Tagged(LEFT_BEHIND), Target(Given(3), Absent);
    var nodes := LEFT_BEHIND;
    assert Up(nodes, 1, 1) == None && Up(nodes, 2, 2) == None && Up(nodes, 3, 1) == None;
    forall m | m in Subtree(nodes, 1) ensures m == 1 {
      var k: nat :| Descends(nodes, 1, m, k);
      NothingBelowOne(m, k);
    }
    assert Up(nodes, 2, 1) == Some(1);
    end := MoveResult(start, OWNER, 1, 1, target);
    forall k: nat ensures !VisibleAt(start, 2, 9, k) {
      VisibleAtMeaning(start, 2, 9, k);
      if k >= 2 { UpMonotone(nodes, 2, 2, k); }
    }
    assert MeetsAfter(nodes, 1, 2, 1) && NoFlagOnPath(nodes, 2, 1);
    assert (3, 5) in start.nodeTags;
    assert VisibleAt(start, 3, 9, 0);
    assert 3 !in CascadeSet(nodes, 1) by {
      forall k: nat ensures Up(nodes, 3, k) != Some(1) { if k > 0 { UpMonotone(nodes, 3, 1, k); } }
    }
    MovedVisibility(start, OWNER, 1, 1, target, 2, 1, 9, 2);
  }

  // ---- A create that is answered with an error and has stored its row ----

  lemma ErrorWithStoredRow() returns (start: Db, end: Db, asked: Asked)
    ensures Referential(start) && RefetchFails(start, asked.0, asked.1, 1)
    ensures CarriedOut(start, asked.0, asked.1, end) && !RolledBack(start, end)
  {
    start := TwoMaps(map[]);
    assert NodesOn(start.nodes, 1) == {};
    var content := NodeContent("new", None, "", "");
    asked := (OWNER, Create(1, None, content));
    end := AfterCreate(start, 1, None, 7, content);
    CreateIsSeen(start, 1, None, 7, content);
  }
}
