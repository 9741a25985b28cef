/**
 Runs: any number of write requests, from any callers, each one an atomic step that is carried
 out, refused, or failed and rolled back.
*/
module Runs {
  import opened Tables
  import opened Forest
  import opened Effects
  import opened Requests
  import opened ForestSafety
  import opened NodeController
  import opened Resolver
  import opened Depth
  import CopyLoop
  import Order

  datatype Request =
    | Create(mapId: int, parent: Option<int>, content: NodeContent)
    | Delete(mapId: int, id: int)
    | SetVisibility(mapId: int, id: int, override: Option<bool>, groupIds: Option<set<int>>)
    | Move(mapId: int, id: int, target: Target)
    | Copy(mapId: int, id: int, target: Target)

  /** The request is accepted and has its whole effect. */
  ghost predicate CarriedOut(db: Db, caller: Caller, req: Request, db': Db) {
    match req
    case Create(mapId, parent, content) =>
      && CreateRefusal(db, caller, mapId, parent).None?
      && db' == AfterCreate(db, mapId, parent, caller.userId, content)
    case Delete(mapId, id) =>
      && DeleteRefusal(db, caller, mapId, id).None?
      && db' == AfterDelete(db, CascadeSet(db.nodes, id))
    case SetVisibility(mapId, id, override, groupIds) =>
      && VisibilityRefusal(db, caller, mapId, id, override, groupIds).None?
      && db' == AfterSetVisibility(db, id, override, groupIds)
    case Move(mapId, id, target) =>
      && MoveRefusal(db, caller, mapId, id, target).None?
      && db' == MoveResult(db, caller, mapId, id, target)
    case Copy(mapId, id, target) =>
      && CopyRefusal(db, caller, mapId, id, target).None?
      && exists idMap, noteMap ::
           IsCopy(db, db', id, DestMap(mapId, target), NewParent(target.newParent, None), caller.userId, idMap, noteMap)
  }

  ghost predicate Step(db: Db, caller: Caller, req: Request, db': Db) {
    RolledBack(db, db') || CarriedOut(db, caller, req, db')
  }

  /** The one error response that comes with a stored row: the SELECT after an accepted create's INSERT fails. */
  predicate RefetchFails(db: Db, caller: Caller, req: Request, fault: nat) {
    req.Create? && fault == 1 && CreateRefusal(db, caller, req.mapId, req.parent).None?
  }

  /**
   Dispatches a request to its handler. Whatever statement fails, the outcome is one step, and an
   error response means unchanged rows exactly when it is not that of a failed re-fetch. The foreign
   keys are all that the handlers rely on.
   */
  method Handle(controller: Controller, caller: Caller, req: Request, fault: nat) returns (resp: Response)
    requires Referential(controller.db)
    modifies controller
    ensures Step(old(controller.db), caller, req, controller.db)
    ensures Referential(controller.db)
    ensures resp.DbError? || resp.Refused? ==>
              (RolledBack(old(controller.db), controller.db) <==> !RefetchFails(old(controller.db), caller, req, fault))
    ensures RefetchFails(old(controller.db), caller, req, fault) ==> resp.DbError?
    ensures (!resp.DbError? && !resp.Refused?) || RefetchFails(old(controller.db), caller, req, fault) ==>
              CarriedOut(old(controller.db), caller, req, controller.db)
  {
    ghost var before := controller.db;
    match req {
      case Create(mapId, parent, content) =>
        resp := controller.CreateNode(caller, mapId, parent, content, fault);
        CreateIsSeen(before, mapId, parent, caller.userId, content);
      case Delete(mapId, id) =>
        resp := controller.DeleteNode(caller, mapId, id, fault);
      case SetVisibility(mapId, id, override, groupIds) =>
        resp := controller.SetVisibility(caller, mapId, id, override, groupIds, fault);
      case Move(mapId, id, target) =>
        resp := controller.MoveNode(caller, mapId, id, target, fault);
      case Copy(mapId, id, target) =>
        var idMap, noteMap;
        resp, idMap, noteMap := controller.CopyNode(caller, mapId, id, target, fault);
    }
    StepKeepsReferential(before, caller, req, controller.db);
  }

  lemma CreateIsSeen(db: Db, mapId: int, parent: Option<int>, userId: int, content: NodeContent)
    requires Referential(db)
    ensures !RolledBack(db, AfterCreate(db, mapId, parent, userId, content))
  {
    assert db.nodeSeq + 1 !in db.nodes;
  }

  type Asked = (Caller, Request)

  ghost predicate StepAt(dbs: seq<Db>, asked: seq<Asked>, i: nat)
    requires i < |asked| < |dbs|
  {
    Step(dbs[i], asked[i].0, asked[i].1, dbs[i + 1])
  }

  ghost predicate IsRun(dbs: seq<Db>, asked: seq<Asked>) {
    && |dbs| == |asked| + 1
    && forall i {:trigger StepAt(dbs, asked, i)} :: 0 <= i < |asked| ==> StepAt(dbs, asked, i)
  }

  // ---- References ----

  lemma StepKeepsReferential(db: Db, caller: Caller, req: Request, db': Db)
    requires Referential(db) && Step(db, caller, req, db')
    ensures Referential(db')
    ensures !req.Move? ==> KeepsShape(db.nodes, db'.nodes)
  {
    if !RolledBack(db, db') {
      match req
      case Create(mapId, parent, content) => CreateKeepsForest(db, caller, mapId, parent, content);
      case Delete(mapId, id) => DeleteKeepsForest(db, id);
      case SetVisibility(mapId, id, override, groupIds) => SetVisibilityKeepsForest(db, id, override, groupIds);
      case Move(mapId, id, target) => MoveKeepsReferential(db, caller, mapId, id, target);
      case Copy(mapId, id, target) =>
        var idMap, noteMap :|
          IsCopy(db, db', id, DestMap(mapId, target), NewParent(target.newParent, None), caller.userId, idMap, noteMap);
        CopyKeepsForest(db, db', caller, mapId, id, target, idMap, noteMap);
    }
  }

  /** Over every run every parent exists and every reference is valid; so every request can be handled. */
  lemma {:induction false} RunKeepsReferential(dbs: seq<Db>, asked: seq<Asked>, i: nat)
    requires IsRun(dbs, asked) && i < |dbs| && Referential(dbs[0])
    ensures Referential(dbs[i])
  {
    if i == 0 {
    } else {
      RunKeepsReferential(dbs, asked, i - 1);
      assert StepAt(dbs, asked, i - 1);
      StepKeepsReferential(dbs[i - 1], asked[i - 1].0, asked[i - 1].1, dbs[i]);
    }
  }

  /** A property that holds at first holds throughout exactly when no step breaks it. */
  lemma UnbrokenIff(dbs: seq<Db>, asked: seq<Asked>, holds: Db -> bool, breaks: (Db, Asked, Db) -> bool)
    requires |dbs| == |asked| + 1 && holds(dbs[0])
    requires forall j :: 0 <= j < |asked| && holds(dbs[j]) ==>
               (holds(dbs[j + 1]) <==> !breaks(dbs[j], asked[j], dbs[j + 1]))
    ensures (forall i :: 0 <= i < |dbs| ==> holds(dbs[i])) <==>
            (forall j :: 0 <= j < |asked| ==> !breaks(dbs[j], asked[j], dbs[j + 1]))
  {
    if forall j :: 0 <= j < |asked| ==> !breaks(dbs[j], asked[j], dbs[j + 1]) {
      forall i | 0 <= i < |dbs| ensures holds(dbs[i]) { UnbrokenHolds(dbs, asked, holds, breaks, i); }
    }
    if forall i :: 0 <= i < |dbs| ==> holds(dbs[i]) {
      forall j | 0 <= j < |asked| ensures !breaks(dbs[j], asked[j], dbs[j + 1]) {
        assert holds(dbs[j]) && holds(dbs[j + 1]);
      }
    }
  }

  lemma {:induction false} UnbrokenHolds(dbs: seq<Db>, asked: seq<Asked>, holds: Db -> bool,
                                         breaks: (Db, Asked, Db) -> bool, i: nat)
    requires |dbs| == |asked| + 1 && holds(dbs[0]) && i < |dbs|
    requires forall j :: 0 <= j < |asked| && holds(dbs[j]) ==>
               (holds(dbs[j + 1]) <==> !breaks(dbs[j], asked[j], dbs[j + 1]))
    requires forall j :: 0 <= j < |asked| ==> !breaks(dbs[j], asked[j], dbs[j + 1])
    ensures holds(dbs[i])
  {
    if i == 0 {
    } else {
      UnbrokenHolds(dbs, asked, holds, breaks, i - 1);
    }
  }

  // ---- No cycles ----

  /** An accepted move whose new parent lies below its source, on whatever map. */
  ghost predicate MakesCycle(db: Db, caller: Caller, req: Request, db': Db) {
    req.Move? && CarriedOut(db, caller, req, db') && ClosesCycle(db.nodes, req.id, req.target)
  }

  lemma StepKeepsAcyclicIff(db: Db, caller: Caller, req: Request, db': Db)
    requires Referential(db) && Acyclic(db.nodes) && Step(db, caller, req, db')
    ensures Acyclic(db'.nodes) <==> !MakesCycle(db, caller, req, db')
  {
    if req.Move? {
      if CarriedOut(db, caller, req, db') { MoveKeepsAcyclicIff(db, caller, req.mapId, req.id, req.target); }
    } else {
      StepKeepsReferential(db, caller, req, db');
    }
  }

  /**
   A run from acyclic tables, bare relocations and all, stays acyclic exactly when no accepted move
   in it names a parent below its source.
   */
  lemma RunKeepsAcyclicIff(dbs: seq<Db>, asked: seq<Asked>)
    requires IsRun(dbs, asked) && Referential(dbs[0]) && Acyclic(dbs[0].nodes)
    ensures (forall i :: 0 <= i < |dbs| ==> Acyclic(dbs[i].nodes)) <==>
            (forall j :: 0 <= j < |asked| ==> !MakesCycle(dbs[j], asked[j].0, asked[j].1, dbs[j + 1]))
  {
    var holds := (db: Db) => Acyclic(db.nodes);
    var breaks := (db: Db, a: Asked, db': Db) => MakesCycle(db, a.0, a.1, db');
    forall j | 0 <= j < |asked| && holds(dbs[j])
      ensures holds(dbs[j + 1]) <==> !breaks(dbs[j], asked[j], dbs[j + 1])
    {
      RunKeepsReferential(dbs, asked, j);
      assert StepAt(dbs, asked, j);
      StepKeepsAcyclicIff(dbs[j], asked[j].0, asked[j].1, dbs[j + 1]);
    }
    UnbrokenIff(dbs, asked, holds, breaks);
    assert forall i :: 0 <= i < |dbs| ==> (holds(dbs[i]) <==> Acyclic(dbs[i].nodes));
    assert forall j :: 0 <= j < |asked| ==>
             (breaks(dbs[j], asked[j], dbs[j + 1]) <==> MakesCycle(dbs[j], asked[j].0, asked[j].1, dbs[j + 1]));
  }

  // ---- The forest ----

  /** The one accepted request that can break a forest. */
  ghost predicate LeavesParentBehind(db: Db, caller: Caller, req: Request, db': Db) {
    req.Move? && CarriedOut(db, caller, req, db') && BareRelocation(db, req.mapId, req.id, req.target)
  }

  lemma StepKeepsForestIff(db: Db, caller: Caller, req: Request, db': Db)
    requires Referential(db) && IsForest(db.nodes) && Step(db, caller, req, db')
    ensures IsForest(db'.nodes) <==> !LeavesParentBehind(db, caller, req, db')
  {
    StepKeepsReferential(db, caller, req, db');
    if req.Move? && CarriedOut(db, caller, req, db') {
      MoveKeepsForestIff(db, caller, req.mapId, req.id, req.target);
    }
  }

  /** A run from a forest remains one exactly when it contains no accepted bare relocation. */
  lemma RunKeepsForestIff(dbs: seq<Db>, asked: seq<Asked>)
    requires IsRun(dbs, asked) && Referential(dbs[0]) && IsForest(dbs[0].nodes)
    ensures (forall i :: 0 <= i < |dbs| ==> IsForest(dbs[i].nodes)) <==>
            (forall j :: 0 <= j < |asked| ==> !LeavesParentBehind(dbs[j], asked[j].0, asked[j].1, dbs[j + 1]))
  {
    var holds := (db: Db) => IsForest(db.nodes);
    var breaks := (db: Db, a: Asked, db': Db) => LeavesParentBehind(db, a.0, a.1, db');
    forall j | 0 <= j < |asked| && holds(dbs[j])
      ensures holds(dbs[j + 1]) <==> !breaks(dbs[j], asked[j], dbs[j + 1])
    {
      RunKeepsReferential(dbs, asked, j);
      assert StepAt(dbs, asked, j);
      StepKeepsForestIff(dbs[j], asked[j].0, asked[j].1, dbs[j + 1]);
    }
    UnbrokenIff(dbs, asked, holds, breaks);
    assert forall i :: 0 <= i < |dbs| ==> (holds(dbs[i]) <==> IsForest(dbs[i].nodes));
    assert forall j :: 0 <= j < |asked| ==>
             (breaks(dbs[j], asked[j], dbs[j + 1]) <==> LeavesParentBehind(dbs[j], asked[j].0, asked[j].1, dbs[j + 1]));
  }

  // ---- Depth ----

  /** An accepted move or copy that does not fit under its new parent. */
  ghost predicate GoesTooDeep(db: Db, caller: Caller, req: Request, db': Db) {
    && CarriedOut(db, caller, req, db')
    && ((req.Move? && !MoveFits(db.nodes, req.id, req.target))
        || (req.Copy? && !CopyFits(db.nodes, req.id, NewParent(req.target.newParent, None))))
  }

  lemma StepKeepsShallowIff(db: Db, caller: Caller, req: Request, db': Db)
    requires Referential(db) && Shallow(db.nodes) && Step(db, caller, req, db')
    ensures Shallow(db'.nodes) <==> !GoesTooDeep(db, caller, req, db')
  {
    if CarriedOut(db, caller, req, db') {
      match req
      case Move(mapId, id, target) => MoveKeepsShallowIff(db, caller, mapId, id, target);
      case Copy(mapId, id, target) =>
        var dest, parent := DestMap(mapId, target), NewParent(target.newParent, None);
        var idMap, noteMap :| IsCopy(db, db', id, dest, parent, caller.userId, idMap, noteMap);
        CopyKeepsShallowIff(db.nodes, db'.nodes, id, dest, parent, caller.userId, idMap);
      case _ => StepKeepsShallow(db, caller, req, db');
    }
  }

  lemma StepKeepsShallow(db: Db, caller: Caller, req: Request, db': Db)
    requires Referential(db) && Shallow(db.nodes)
    requires CarriedOut(db, caller, req, db') && !req.Move? && !req.Copy?
    ensures Shallow(db'.nodes)
  {
    var kept := if req.Delete? then db.nodes.Keys - CascadeSet(db.nodes, req.id) else db.nodes.Keys;
    if req.Delete? { SurvivorsClosed(db, req.id); }
    assert AgreeOn(db.nodes, db'.nodes, kept);
    forall n | n in db'.nodes ensures Up(db'.nodes, n, MAX_NODE_DEPTH) == None {
      if n in kept {
        UpAgrees(db.nodes, db'.nodes, kept, n, MAX_NODE_DEPTH);
      } else if req.parent.Some? {
        CreateDepthRule(db, caller, req.mapId, req.parent.value, req.content);
      }
    }
  }

  /** A run keeps every node within fourteen levels exactly when all its accepted moves and copies fit. */
  lemma RunKeepsShallowIff(dbs: seq<Db>, asked: seq<Asked>)
    requires IsRun(dbs, asked) && Referential(dbs[0]) && Shallow(dbs[0].nodes)
    ensures (forall i :: 0 <= i < |dbs| ==> Shallow(dbs[i].nodes)) <==>
            (forall j :: 0 <= j < |asked| ==> !GoesTooDeep(dbs[j], asked[j].0, asked[j].1, dbs[j + 1]))
  {
    var holds := (db: Db) => Shallow(db.nodes);
    var breaks := (db: Db, a: Asked, db': Db) => GoesTooDeep(db, a.0, a.1, db');
    forall j | 0 <= j < |asked| && holds(dbs[j])
      ensures holds(dbs[j + 1]) <==> !breaks(dbs[j], asked[j], dbs[j + 1])
    {
      RunKeepsReferential(dbs, asked, j);
      assert StepAt(dbs, asked, j);
      StepKeepsShallowIff(dbs[j], asked[j].0, asked[j].1, dbs[j + 1]);
    }
    UnbrokenIff(dbs, asked, holds, breaks);
    assert forall i :: 0 <= i < |dbs| ==> (holds(dbs[i]) <==> Shallow(dbs[i].nodes));
    assert forall j :: 0 <= j < |asked| ==>
             (breaks(dbs[j], asked[j], dbs[j + 1]) <==> GoesTooDeep(dbs[j], asked[j].0, asked[j].1, dbs[j + 1]));
  }

  /** Over such a run the 15-hop query computes the unbounded definition, for every node and user. */
  lemma RunQueryIsExact(dbs: seq<Db>, asked: seq<Asked>, n: nat, starts: set<int>, m: int, userId: int)
    requires IsRun(dbs, asked) && n < |dbs| && Referential(dbs[0]) && Shallow(dbs[0].nodes)
    requires forall j :: 0 <= j < |asked| ==> !GoesTooDeep(dbs[j], asked[j].0, asked[j].1, dbs[j + 1])
    requires starts <= dbs[n].nodes.Keys
    ensures m in VisibleStarts(dbs[n], starts, userId) <==> m in starts && EffectivelyVisible(dbs[n], m, userId)
  {
    RunKeepsShallowIff(dbs, asked);
    BoundedResolver(dbs[n], starts, m, userId);
    if m in dbs[n].nodes {
      UpMonotone(dbs[n].nodes, m, MAX_NODE_DEPTH, MAX_NODE_DEPTH + 1);
    }
    ShallowIsExact(dbs[n], m, userId);
  }

  // ---- The per-map cap ----

  ghost predicate Capped(nodes: NodeTable) {
    forall m :: |NodesOn(nodes, m)| <= MAX_NODES_PER_MAP
  }

  lemma {:induction false} ValuesCount(f: map<int, int>)
    requires Injective(f)
    ensures |f.Values| == |f.Keys|
    decreases |f.Keys|
  {
    if f.Keys != {} {
      var k: int := Order.Member(f.Keys);
      var rest := f - {k};
      assert rest.Keys == f.Keys - {k};
      forall v ensures v in f.Values <==> v in rest.Values + {f[k]} {
        if v in f.Values {
          var x := CopyLoop.KeyOf(f, v);
          assert x == k || (x in rest && rest[x] == v);
        }
        if v in rest.Values {
          var x := CopyLoop.KeyOf(rest, v);
          assert f[x] == v;
        }
      }
      if f[k] in rest.Values {
        var x := CopyLoop.KeyOf(rest, f[k]);
      }
      assert f.Values == rest.Values + {f[k]};
      ValuesCount(rest);
    } else {
      assert f.Values == {};
    }
  }

  /** A copy adds exactly the subtree's size to the destination map and nothing elsewhere. */
  lemma CopyCount(before: NodeTable, after: NodeTable, root: int, dest: int, parent: Option<int>,
                  userId: int, idMap: map<int, int>, m: int)
    requires root in before && IsNodeCopy(before, after, root, dest, parent, userId, idMap)
    ensures |NodesOn(after, m)| == |NodesOn(before, m)| + if m == dest then |Subtree(before, root)| else 0
  {
    CopyNodesOn(before, after, root, dest, parent, userId, idMap, m);
    ValuesCount(idMap);
  }

  lemma CopyNodesOn(before: NodeTable, after: NodeTable, root: int, dest: int, parent: Option<int>,
                    userId: int, idMap: map<int, int>, m: int)
    requires root in before && IsNodeCopy(before, after, root, dest, parent, userId, idMap)
    ensures NodesOn(after, m) == NodesOn(before, m) + if m == dest then idMap.Values else {}
    ensures NodesOn(before, m) !! idMap.Values
  {
    forall n | n in idMap.Values ensures n in after && n !in before && after[n].mapId == dest {
      var x := CopyLoop.KeyOf(idMap, n);
      assert after[idMap[x]].mapId == dest;
    }
    forall n ensures n in NodesOn(after, m) <==> n in NodesOn(before, m) || (m == dest && n in idMap.Values) {
      if n in before { assert after[n] == before[n]; }
    }
  }

  lemma MovedNodesOn(db: Db, caller: Caller, mapId: int, id: int, target: Target, m: int)
    requires id in db.nodes && db.nodes[id].mapId == mapId
    ensures var on, sub := NodesOn(db.nodes, m), Subtree(db.nodes, id);
            && sub <= NodesOn(db.nodes, mapId)
            && NodesOn(MoveResult(db, caller, mapId, id, target).nodes, m)
               == if !CrossMap(mapId, target) then on
                  else if m == DestMap(mapId, target) then on + sub
                  else if m == mapId then on - sub else on
  {
    SubtreeClosed(db.nodes, id);
  }

  /** A move conserves the nodes: it takes the subtree from one map's count and adds it to the other's. */
  lemma MoveCount(db: Db, caller: Caller, mapId: int, id: int, target: Target, m: int)
    requires MoveRefusal(db, caller, mapId, id, target).None?
    ensures var after := MoveResult(db, caller, mapId, id, target);
            && after.nodes.Keys == db.nodes.Keys
            && |NodesOn(after.nodes, m)| == |NodesOn(db.nodes, m)|
                 + (if CrossMap(mapId, target) && m == DestMap(mapId, target) then |Subtree(db.nodes, id)|
                    else if CrossMap(mapId, target) && m == mapId then -|Subtree(db.nodes, id)| else 0)
  {
    MovedNodesOn(db, caller, mapId, id, target, m);
    var on, sub := NodesOn(db.nodes, m), Subtree(db.nodes, id);
    SumAndDifference(on, sub);
  }

  lemma SumAndDifference<T>(a: set<T>, b: set<T>)
    ensures a !! b ==> |a + b| == |a| + |b|
    ensures b <= a ==> |a - b| == |a| - |b|
  {
    if b <= a { assert a == (a - b) + b; }
  }

  /** Moves across maps do not check the cap: it survives one exactly when the subtree still fits. */
  lemma MoveKeepsCapIff(db: Db, caller: Caller, mapId: int, id: int, target: Target)
    requires Capped(db.nodes) && MoveRefusal(db, caller, mapId, id, target).None?
    ensures Capped(MoveResult(db, caller, mapId, id, target).nodes) <==>
            (CrossMap(mapId, target) ==>
               |NodesOn(db.nodes, DestMap(mapId, target))| + |Subtree(db.nodes, id)| <= MAX_NODES_PER_MAP)
  {
    var after := MoveResult(db, caller, mapId, id, target);
    forall m ensures |NodesOn(after.nodes, m)| <= MAX_NODES_PER_MAP
                     || (CrossMap(mapId, target) && m == DestMap(mapId, target)) {
      MoveCount(db, caller, mapId, id, target, m);
    }
    MoveCount(db, caller, mapId, id, target, DestMap(mapId, target));
  }

  lemma CreateKeepsCap(db: Db, caller: Caller, mapId: int, parent: Option<int>, content: NodeContent)
    requires Referential(db) && Capped(db.nodes) && CreateRefusal(db, caller, mapId, parent).None?
    ensures Capped(AfterCreate(db, mapId, parent, caller.userId, content).nodes)
  {
    var after, id := AfterCreate(db, mapId, parent, caller.userId, content), db.nodeSeq + 1;
    forall m ensures |NodesOn(after.nodes, m)| <= MAX_NODES_PER_MAP {
      InsertCount(db.nodes, id, after.nodes[id], m);
    }
  }

  lemma InsertCount(nodes: NodeTable, id: int, row: NodeRow, m: int)
    requires id !in nodes
    ensures |NodesOn(nodes[id := row], m)| == |NodesOn(nodes, m)| + if m == row.mapId then 1 else 0
  {
    assert NodesOn(nodes[id := row], m) == NodesOn(nodes, m) + if m == row.mapId then {id} else {};
  }

  lemma CopyKeepsCap(db: Db, db': Db, caller: Caller, mapId: int, id: int, target: Target,
                     idMap: map<int, int>, noteMap: map<int, int>)
    requires Capped(db.nodes) && CopyRefusal(db, caller, mapId, id, target).None?
    requires IsCopy(db, db', id, DestMap(mapId, target), NewParent(target.newParent, None), caller.userId, idMap, noteMap)
    ensures Capped(db'.nodes)
  {
    forall m ensures |NodesOn(db'.nodes, m)| <= MAX_NODES_PER_MAP {
      CopyCount(db.nodes, db'.nodes, id, DestMap(mapId, target), NewParent(target.newParent, None),
                caller.userId, idMap, m);
    }
  }

  /** An accepted move across maps that does not fit on the destination. */
  ghost predicate Overfills(db: Db, caller: Caller, req: Request, db': Db) {
    && req.Move? && CarriedOut(db, caller, req, db') && CrossMap(req.mapId, req.target)
    && |NodesOn(db.nodes, DestMap(req.mapId, req.target))| + |Subtree(db.nodes, req.id)| > MAX_NODES_PER_MAP
  }

  lemma StepKeepsCapIff(db: Db, caller: Caller, req: Request, db': Db)
    requires Referential(db) && Capped(db.nodes) && Step(db, caller, req, db')
    ensures Capped(db'.nodes) <==> !Overfills(db, caller, req, db')
  {
    if CarriedOut(db, caller, req, db') {
      match req
      case Create(mapId, parent, content) => CreateKeepsCap(db, caller, mapId, parent, content);
      case Delete(mapId, id) => SubsetsKeepCap(db.nodes, db'.nodes);
      case SetVisibility(mapId, id, override, groupIds) => SubsetsKeepCap(db.nodes, db'.nodes);
      case Move(mapId, id, target) => MoveKeepsCapIff(db, caller, mapId, id, target);
      case Copy(mapId, id, target) =>
        var idMap, noteMap :|
          IsCopy(db, db', id, DestMap(mapId, target), NewParent(target.newParent, None), caller.userId, idMap, noteMap);
        CopyKeepsCap(db, db', caller, mapId, id, target, idMap, noteMap);
    }
  }

  lemma SubsetsKeepCap(nodes: NodeTable, nodes': NodeTable)
    requires Capped(nodes) && forall n :: n in nodes' ==> n in nodes && nodes'[n].mapId == nodes[n].mapId
    ensures Capped(nodes')
  {
    forall m ensures |NodesOn(nodes', m)| <= MAX_NODES_PER_MAP {
      assert NodesOn(nodes', m) <= NodesOn(nodes, m) by {
        forall n | n in NodesOn(nodes', m) ensures n in NodesOn(nodes, m) { assert n in nodes'; }
      }
      SubsetSize(NodesOn(nodes', m), NodesOn(nodes, m));
    }
  }

  /** A run keeps every map within 5000 nodes exactly when no accepted move across maps overfills one. */
  lemma RunKeepsCapIff(dbs: seq<Db>, asked: seq<Asked>)
    requires IsRun(dbs, asked) && Referential(dbs[0]) && Capped(dbs[0].nodes)
    ensures (forall i :: 0 <= i < |dbs| ==> Capped(dbs[i].nodes)) <==>
            (forall j :: 0 <= j < |asked| ==> !Overfills(dbs[j], asked[j].0, asked[j].1, dbs[j + 1]))
  {
    var holds := (db: Db) => Capped(db.nodes);
    var breaks := (db: Db, a: Asked, db': Db) => Overfills(db, a.0, a.1, db');
    forall j | 0 <= j < |asked| && holds(dbs[j])
      ensures holds(dbs[j + 1]) <==> !breaks(dbs[j], asked[j], dbs[j + 1])
    {
      RunKeepsReferential(dbs, asked, j);
      assert StepAt(dbs, asked, j);
      StepKeepsCapIff(dbs[j], asked[j].0, asked[j].1, dbs[j + 1]);
    }
    UnbrokenIff(dbs, asked, holds, breaks);
    assert forall i :: 0 <= i < |dbs| ==> (holds(dbs[i]) <==> Capped(dbs[i].nodes));
    assert forall j :: 0 <= j < |asked| ==>
             (breaks(dbs[j], asked[j], dbs[j + 1]) <==> Overfills(dbs[j], asked[j].0, asked[j].1, dbs[j + 1]));
  }

  // ---- The response of a move ----

  /** It names the stored parent unless the body gave none and the node has one. */
  lemma MoveResponseParent(db: Db, caller: Caller, mapId: int, id: int, target: Target)
    requires MoveRefusal(db, caller, mapId, id, target).None?
    ensures MoveResult(db, caller, mapId, id, target).nodes[id].parentId == NewParent(target.newParent, None)
            <==> !(target.newParent.Absent? && db.nodes[id].parentId.Some?)
  {}
}
