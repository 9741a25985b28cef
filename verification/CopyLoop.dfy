/**
 What one pass of copyNode's two INSERT loops does to the old-id to new-id map and to the table.
*/
module CopyLoop {
  import opened Tables
  import opened Forest
  import opened Effects

  ghost predicate Distinct(rows: seq<int>) {
    forall i, j :: 0 <= i < j < |rows| ==> rows[i] != rows[j]
  }

  predicate KeysUpTo(keys: set<int>, last: nat) {
    forall k :: k in keys ==> 0 < k <= last
  }

  /** The `i`-th listed node is the root or comes after its parent. */
  ghost predicate ParentBefore(nodes: NodeTable, root: int, rows: seq<int>, i: nat)
    requires i < |rows|
  {
    && rows[i] in nodes
    && (rows[i] != root ==>
          nodes[rows[i]].parentId.Some? && exists j :: 0 <= j < i && rows[j] == nodes[rows[i]].parentId.value)
  }

  ghost predicate ParentsBefore(nodes: NodeTable, root: int, rows: seq<int>) {
    Distinct(rows) && forall i :: 0 <= i < |rows| ==> ParentBefore(nodes, root, rows, i)
  }

  /** The first `i` rows have been given the keys after `base`, in order. */
  ghost predicate Assigned(base: nat, rows: seq<int>, i: nat, f: map<int, int>) {
    && i <= |rows|
    && (forall j :: 0 <= j < i ==> rows[j] in f && f[rows[j]] == base + 1 + j)
    && (forall m :: m in f ==> base < f[m] <= base + i && rows[f[m] - base - 1] == m)
  }

  lemma ParentAssigned(nodes: NodeTable, root: int, rows: seq<int>, base: nat, i: nat, f: map<int, int>)
    requires ParentsBefore(nodes, root, rows) && i < |rows| && Assigned(base, rows, i, f)
    ensures rows[i] in nodes
    ensures rows[i] != root ==> nodes[rows[i]].parentId.Some? && nodes[rows[i]].parentId.value in f
  {
    assert ParentBefore(nodes, root, rows, i);
  }

  lemma AssignStep(base: nat, rows: seq<int>, i: nat, f: map<int, int>)
    requires Distinct(rows) && i < |rows| && Assigned(base, rows, i, f)
    ensures rows[i] !in f && base + 1 + i !in f.Values
    ensures Assigned(base, rows, i + 1, f[rows[i] := base + 1 + i])
  {
    var src := rows[i];
    assert src !in f;
    if base + 1 + i in f.Values {
      var m := KeyOf(f, base + 1 + i);
    }
  }

  lemma AssignedFacts(base: nat, rows: seq<int>, f: map<int, int>, s: set<int>)
    requires Assigned(base, rows, |rows|, f)
    requires forall x :: x in rows <==> x in s
    ensures f.Keys == s && Injective(f)
    ensures forall m :: m in f ==> base < f[m] <= base + |rows|
  {
    forall x ensures x in f <==> x in s {
      if x in s { assert x in rows; }
      if x in f { assert rows[f[x] - base - 1] in rows; }
    }
  }

  lemma KeyOf<K, V>(f: map<K, V>, v: V) returns (k: K)
    requires v in f.Values
    ensures k in f && f[k] == v
  {
    k :| k in f && f[k] == v;
  }

  lemma ValuesAdd(f: map<int, int>, k: int, v: int)
    requires k !in f
    ensures f[k := v].Values == f.Values + {v}
  {
    var g := f[k := v];
    forall x | x in f.Values ensures x in g.Values {
      var m := KeyOf(f, x);
      assert g[m] == x;
    }
    assert g[k] == v;
  }

  // ---- The nodes table ----

  /** Node `m` has been copied: its parent too unless it is the root, and its row is right. */
  ghost predicate NodeCopied(before: NodeTable, now: NodeTable, root: int, dest: int, parent: Option<int>,
                             userId: int, f: map<int, int>, m: int)
    requires m in f
  {
    && m in before
    && (m != root ==> before[m].parentId.Some? && before[m].parentId.value in f)
    && f[m] in now
    && now[f[m]] == CopyOfNode(before[m], dest, CopyParent(before, root, parent, f, m), userId)
  }

  ghost predicate NodesCopied(before: NodeTable, now: NodeTable, root: int, dest: int, parent: Option<int>,
                              userId: int, f: map<int, int>)
  {
    && now.Keys == before.Keys + f.Values
    && (forall n :: n in before ==> now[n] == before[n])
    && (forall m {:trigger NodeCopied(before, now, root, dest, parent, userId, f, m)} :: m in f ==>
          NodeCopied(before, now, root, dest, parent, userId, f, m))
  }

  lemma CopyNodeStep(before: NodeTable, now: NodeTable, root: int, dest: int, parent: Option<int>, userId: int,
                     f: map<int, int>, src: int, newParent: Option<int>, newId: int)
    requires NodesCopied(before, now, root, dest, parent, userId, f)
    requires src in before && src !in f && newId !in before && newId !in f.Values
    requires src == root ==> newParent == parent
    requires src != root ==>
               && before[src].parentId.Some? && before[src].parentId.value in f
               && newParent == Some(f[before[src].parentId.value])
    ensures NodesCopied(before, now[newId := CopyOfNode(before[src], dest, newParent, userId)],
                        root, dest, parent, userId, f[src := newId])
  {
    var g := f[src := newId];
    var now' := now[newId := CopyOfNode(before[src], dest, newParent, userId)];
    ValuesAdd(f, src, newId);
    assert now'.Keys == before.Keys + g.Values;
    forall m | m in g ensures NodeCopied(before, now', root, dest, parent, userId, g, m) {
      if m != src {
        assert f[m] in f.Values;
        assert NodeCopied(before, now, root, dest, parent, userId, f, m);
        assert CopyParent(before, root, parent, g, m) == CopyParent(before, root, parent, f, m);
      }
    }
  }

  // ---- The notes table ----

  /** The notes attached to the listed nodes. */
  function NotesIn(notes: map<int, NoteRow>, rows: seq<int>): set<int> {
    set t | t in notes && notes[t].nodeId in rows
  }

  ghost predicate NoteCopied(before: map<int, NoteRow>, now: map<int, NoteRow>, userId: int,
                             idMap: map<int, int>, f: map<int, int>, t: int)
    requires t in f
  {
    && t in before && before[t].nodeId in idMap
    && f[t] in now
    && now[f[t]] == CopyOfNote(before[t], idMap[before[t].nodeId], userId)
  }

  ghost predicate NotesCopied(before: map<int, NoteRow>, now: map<int, NoteRow>, userId: int,
                              idMap: map<int, int>, f: map<int, int>)
  {
    && now.Keys == before.Keys + f.Values
    && (forall t :: t in before ==> now[t] == before[t])
    && (forall t {:trigger NoteCopied(before, now, userId, idMap, f, t)} :: t in f ==>
          NoteCopied(before, now, userId, idMap, f, t))
  }

  lemma CopyNoteStep(before: map<int, NoteRow>, now: map<int, NoteRow>, userId: int, idMap: map<int, int>,
                     f: map<int, int>, src: int, newId: int)
    requires NotesCopied(before, now, userId, idMap, f)
    requires src in before && before[src].nodeId in idMap && src !in f
    requires newId !in before && newId !in f.Values
    ensures NotesCopied(before, now[newId := CopyOfNote(before[src], idMap[before[src].nodeId], userId)],
                        userId, idMap, f[src := newId])
  {
    var g := f[src := newId];
    var now' := now[newId := CopyOfNote(before[src], idMap[before[src].nodeId], userId)];
    ValuesAdd(f, src, newId);
    assert now'.Keys == before.Keys + g.Values;
    forall t | t in g ensures NoteCopied(before, now', userId, idMap, g, t) {
      if t != src {
        assert f[t] in f.Values;
        assert NoteCopied(before, now, userId, idMap, f, t);
      }
    }
  }
}
