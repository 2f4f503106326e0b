/** A worked example: one root folder followed through an import of two
    files, a resize and a delete. */
module Scenario {
  import opened Nodes
  import opened Propagation
  import opened Router
  import opened Consistency

  /** Creating a node directly under a stored root folder `a` grows `a` by
      the node's size and leaves every other row alone. */
  lemma CreateUnderRoot(rows: map<Id, Row>, v: Row, a: Id)
    requires v.id !in rows && a in rows && rows[a].parentId.None? && v.parentId == Some(a)
    ensures var r := Create(rows, v);
      && r.1 == Done && r.0.Keys == rows.Keys + {v.id} && r.0[v.id] == v
      && r.0[a].parentId.None? && r.0[a].size == Some(SizeOr0(rows[a].size) + SizeOr0(v.size))
      && forall k :: k in rows && k != a ==> r.0[k] == rows[k]
  {
    RootChain(rows[v.id := v], a);
  }

  /** Re-importing a file under the same root folder `a` with a new size
      grows `a` by the difference and rewrites the file's row. */
  lemma ResizeUnderRoot(rows: map<Id, Row>, v: Row, a: Id)
    requires v.id in rows && a in rows && v.id != a && rows[a].parentId.None?
    requires v.parentId == Some(a) && rows[v.id].parentId == Some(a)
    requires v.size.Some? && rows[v.id].size.Some?
    ensures var r := FileUpdate(rows, v, rows[v.id]);
      && r.1 == Done && r.0.Keys == rows.Keys
      && r.0[a].parentId.None? && r.0[a].size == Some(SizeOr0(rows[a].size) + v.size.value - rows[v.id].size.value)
      && r.0[v.id] == rows[v.id].(date := v.date, url := v.url, size := v.size, parentId := v.parentId)
      && forall k :: k in rows && k != a && k != v.id ==> r.0[k] == rows[k]
  {
    var r1 := Overwrite(rows, v.id, v.date, v.size, v.url, v.parentId);
    RootChain(r1, a);
  }

  /** Deleting a node directly under a root folder `a` shrinks `a` by the
      node's size. */
  lemma DeleteUnderRoot(rows: map<Id, Row>, id: Id, a: Id, date: int)
    requires id in rows && a in rows && id != a && rows[a].parentId.None? && rows[id].parentId == Some(a)
    ensures var r := Removal(rows, id, date);
      && r.1 == Done && r.0.Keys == rows.Keys - {id}
      && r.0[a].size == Some(SizeOr0(rows[a].size) - SizeOr0(rows[id].size))
  {
    RootChain(rows, a);
  }

  /** A write pass whose first item finishes goes on with the rest. */
  lemma ApplyAllStep(rows: map<Id, Row>, staged: seq<Row>, toUpdate: map<Id, Row>)
    requires |staged| > 0 && ApplyItem(rows, staged[0], toUpdate).1 == Done
    ensures ApplyAll(rows, staged, toUpdate) == ApplyAll(ApplyItem(rows, staged[0], toUpdate).0, staged[1..], toUpdate)
  {
  }

  /** A finished write that leaves `a` a root of the given size with `v1`
      and `v2` stored as given. */
  ghost predicate RootHolds(r: (map<Id, Row>, Outcome), a: Id, size: int, v1: Row, v2: Row)
  {
    && r.1 == Done
    && a in r.0 && r.0[a].parentId.None? && r.0[a].size == Some(size)
    && v1.id in r.0 && r.0[v1.id] == v1 && v2.id in r.0 && r.0[v2.id] == v2
  }

  /** Two new nodes written directly under a stored root folder `a`: `a`
      grows by both sizes. */
  lemma CreateTwoUnderRoot(rows: map<Id, Row>, v1: Row, v2: Row, a: Id)
    requires v1.id !in rows && v2.id !in rows && v1.id != v2.id
    requires a in rows && rows[a].parentId.None? && v1.parentId == Some(a) && v2.parentId == Some(a)
    ensures RootHolds(ApplyAll(rows, [v1, v2], map[]), a, SizeOr0(rows[a].size) + SizeOr0(v1.size) + SizeOr0(v2.size), v1, v2)
  {
    var none: map<Id, Row> := map[];
    var m1 := Create(rows, v1).0;
    var m2 := Create(m1, v2).0;
    CreateUnderRoot(rows, v1, a);
    CreateUnderRoot(m1, v2, a);
    ApplyTwo(rows, v1, v2, none);
  }

  /** A write pass of two items that both finish. */
  lemma ApplyTwo(rows: map<Id, Row>, v1: Row, v2: Row, toUpdate: map<Id, Row>)
    requires ApplyItem(rows, v1, toUpdate).1 == Done
    requires ApplyItem(ApplyItem(rows, v1, toUpdate).0, v2, toUpdate).1 == Done
    ensures ApplyAll(rows, [v1, v2], toUpdate) == ApplyItem(ApplyItem(rows, v1, toUpdate).0, v2, toUpdate)
  {
    var m1 := ApplyItem(rows, v1, toUpdate).0;
    assert ApplyAll(rows, [v1, v2], toUpdate) == ApplyAll(m1, [v2], toUpdate) by {
      ApplyAllStep(rows, [v1, v2], toUpdate);
      assert [v1, v2][1..] == [v2];
    }
    ApplyAllStep(m1, [v2], toUpdate);
    assert [v2][1..] == [];
  }

  /** One batch bringing a new root folder and two new files in it: the
      folder ends up holding the two files' sizes. */
  lemma ImportFolderWithTwoFiles(folder: Row, file1: Row, file2: Row)
    requires folder.id != file1.id && folder.id != file2.id && file1.id != file2.id
    requires folder.parentId.None? && folder.size.None?
    requires file1.parentId == Some(folder.id) && file2.parentId == Some(folder.id)
    ensures RootHolds(ApplyAll(map[], [folder, file1, file2], map[]), folder.id,
                      SizeOr0(file1.size) + SizeOr0(file2.size), file1, file2)
  {
    var none: map<Id, Row> := map[];
    var m1 := none[folder.id := folder];
    assert ApplyItem(none, folder, none) == (m1, Done) by {
      MissingParentChangesNothing(m1, None, None, folder.date, true);
    }
    var batch := [folder, file1, file2];
    assert ApplyAll(none, batch, none) == ApplyAll(m1, [file1, file2], none) by {
      ApplyAllStep(none, batch, none);
      assert batch[1..] == [file1, file2];
    }
    CreateTwoUnderRoot(m1, file1, file2, folder.id);
  }

  /** The size of `a` after a step that finished, or nothing. */
  function SizeAfter(r: (map<Id, Row>, Outcome), a: Id): Option<int>
  {
    if r.1 == Done && a in r.0 then r.0[a].size else None
  }

  /** Import a folder with files of 5 and 7 bytes in one batch: the folder
      holds 12. Re-import the first file as 9 bytes: 16. Delete the second
      file: 9. */
  lemma ImportResizeDeleteExample(folder: Row, file1: Row, file2: Row, t1: int, t2: int)
    requires folder.id != file1.id && folder.id != file2.id && file1.id != file2.id
    requires folder.parentId.None? && folder.size.None?
    requires file1.parentId == Some(folder.id) && file2.parentId == Some(folder.id)
    requires folder.kind == Folder && file1.kind == File && file2.kind == File
    requires file1.size == Some(5) && file2.size == Some(7)
    ensures var none: map<Id, Row> := map[];
      var first := ApplyAll(none, [folder, file1, file2], none);
      var second := ApplyAll(first.0, [file1.(size := Some(9), date := t1)], map[file1.id := file1]);
      var third := Removal(second.0, file2.id, t2);
      && SizeAfter(first, folder.id) == Some(12)
      && SizeAfter(second, folder.id) == Some(16)
      && SizeAfter(third, folder.id) == Some(9)
  {
    var a := folder.id;
    var none: map<Id, Row> := map[];
    var first := ApplyAll(none, [folder, file1, file2], none);
    assert RootHolds(first, a, 12, file1, file2) by {
      ImportFolderWithTwoFiles(folder, file1, file2);
    }
    var resized := file1.(size := Some(9), date := t1);
    var second := ApplyAll(first.0, [resized], map[file1.id := file1]);
    assert RootHolds(second, a, 16, resized, file2) by {
      ResizeInSecondBatch(first.0, a, 12, file1, 9, t1, file2);
    }
    DeleteInRoot(second.0, a, 16, resized, file2, t2);
  }

  /** Deleting the node `w` stored directly under a root folder `a` of the
      given size leaves `a` smaller by the node's size. */
  lemma DeleteInRoot(rows: map<Id, Row>, a: Id, size: int, u: Row, w: Row, t: int)
    requires RootHolds((rows, Done), a, size, u, w) && w.id != a && w.parentId == Some(a)
    ensures SizeAfter(Removal(rows, w.id, t), a) == Some(size - SizeOr0(w.size))
  {
    DeleteUnderRoot(rows, w.id, a, t);
  }

  /** A one-item batch re-importing the file `u` stored under a root folder
      `a`, with size `n` and date `t`: `a` grows by the difference and `w`
      stays stored. */
  lemma {:induction false} ResizeInSecondBatch(rows: map<Id, Row>, a: Id, size: int, u: Row, n: int, t: int, w: Row)
    requires RootHolds((rows, Done), a, size, u, w) && u.id != a && w.id != u.id && w.id != a
    requires u.kind == File && u.parentId == Some(a) && u.size.Some?
    ensures var v := u.(size := Some(n), date := t);
      RootHolds(ApplyAll(rows, [v], map[u.id := u]), a, size + n - u.size.value, v, w)
  {
    var v := u.(size := Some(n), date := t);
    var snapshot: map<Id, Row> := map[u.id := u];
    ResizeUnderRoot(rows, v, a);
    ApplyOne(rows, v, snapshot);
  }

  /** A write pass of one item that finishes. */
  lemma ApplyOne(rows: map<Id, Row>, v: Row, toUpdate: map<Id, Row>)
    requires ApplyItem(rows, v, toUpdate).1 == Done
    ensures ApplyAll(rows, [v], toUpdate) == ApplyItem(rows, v, toUpdate)
  {
    ApplyAllStep(rows, [v], toUpdate);
    assert [v][1..] == [];
  }

  // ---------------------------------------------------------------------------
  // A folder moved after a new child was written into it

  /** Root folders `a` and `b` and an empty folder `g` in `a`. */
  function StaleRows(a: Id, b: Id, g: Id): map<Id, Row>
  {
    map[a := Row(a, None, Folder, Some(0), 0, "/a", None),
        b := Row(b, None, Folder, Some(0), 0, "/b", None),
        g := Row(g, None, Folder, Some(0), 0, "/a/g", Some(a))]
  }

  /** One batch: a new 5-byte file `f` in `g`, then `g` moved to `b`. */
  function StaleItems(b: Id, g: Id, f: Id): seq<Item>
  {
    [Item(f, Some("u"), Some(g), File, Some(5)), Item(g, None, Some(b), Folder, None)]
  }

  lemma StaleStartsBalanced(a: Id, b: Id, g: Id)
    requires a != b && a != g && b != g
    ensures SizesAreSums(StaleRows(a, b, g)) && StaleBefore(StaleRows(a, b, g), a, b, g)
  {
    var rows := StaleRows(a, b, g);
    assert ChildIds(rows, a) == {g};
    assert ChildIds(rows, b) == {};
    assert ChildIds(rows, g) == {};
    TotalRemove(rows, {g}, g);
    assert {g} - {g} == {};
  }

  /** The chain from a node stored directly under a root is that node and
      the root. */
  lemma UnderRootChain(rows: map<Id, Row>, x: Id, a: Id)
    requires x in rows && a in rows && x != a && rows[x].parentId == Some(a) && rows[a].parentId.None?
    ensures Ancestors(rows, Some(x)) == Chain([x, a], false)
  {
    var par := Parents(rows);
    var none: set<Id> := {};
    assert none + {x} == {x};
    assert Walk(par, None, {x} + {a}) == Chain([], false);
    assert Walk(par, Some(a), {x}) == Chain([a], false);
  }

  /** The batch passes validation, and the write pass sees `g` as it was
      before the batch. */
  lemma StaleBatchValid(a: Id, b: Id, g: Id, f: Id)
    requires a != b && a != g && a != f && b != g && b != f && g != f
    ensures var rows := StaleRows(a, b, g);
      var items := StaleItems(b, g, f);
      var staged := Staged(rows, items, 1);
      && BatchValid(rows, items)
      && Existing(rows, items) == map[g := rows[g]]
      && staged[0].id == f && staged[0].kind == File && staged[0].size == Some(5) && staged[0].parentId == Some(g)
      && staged[1].id == g && staged[1].kind == Folder && staged[1].parentId == Some(b)
  {
    var rows := StaleRows(a, b, g);
    var items := StaleItems(b, g, f);
    assert IndexIn(items, 0, g) == -1;
    assert IndexIn(items, 1, b) == -1;
    assert ItemError(rows, items, 0).None?;
    assert ItemError(rows, items, 1).None?;
    assert Existing(rows, items).Keys == {g} by {
      assert IndexIn(items, 2, g) == 1;
      assert IndexIn(items, 2, a) == -1;
      assert IndexIn(items, 2, b) == -1;
    }
  }

  /** The store after the first write, as far as the move depends on it. */
  ghost predicate StaleMiddle(m: map<Id, Row>, a: Id, b: Id, g: Id, f: Id, vf: Row)
  {
    && m.Keys == {a, b, g, f}
    && m[a].parentId.None? && m[a].size == Some(5)
    && m[b].parentId.None? && m[b].kind == Folder
    && m[g].parentId == Some(a) && m[g].kind == Folder
    && m[f] == vf
  }

  /** The store before the batch, as far as the writes depend on it. */
  ghost predicate StaleBefore(rows: map<Id, Row>, a: Id, b: Id, g: Id)
  {
    && rows.Keys == {a, b, g}
    && rows[a].parentId.None? && rows[a].size == Some(0)
    && rows[b].parentId.None? && rows[b].kind == Folder
    && rows[g].id == g && rows[g].parentId == Some(a) && rows[g].kind == Folder && rows[g].size == Some(0)
  }

  /** Writing `f` grows `g` and `a` by 5. */
  lemma StaleFirstWrite(rows: map<Id, Row>, a: Id, b: Id, g: Id, f: Id, vf: Row, toUpdate: map<Id, Row>)
    requires a != b && a != g && a != f && b != g && b != f && g != f
    requires StaleBefore(rows, a, b, g) && f !in toUpdate
    requires vf.id == f && vf.size == Some(5) && vf.parentId == Some(g)
    ensures var m := ApplyItem(rows, vf, toUpdate);
      m.1 == Done && StaleMiddle(m.0, a, b, g, f, vf)
  {
    var m0 := rows[f := vf];
    var m1 := Propagated(m0, [g, a], 5, vf.date);
    assert Propagate(m0, vf.parentId, vf.size, vf.date, true) == (m1, false) by {
      UnderRootChain(m0, g, a);
    }
    assert ApplyItem(rows, vf, toUpdate) == (m1, Done);
    assert m1[a].size == Some(5) && m1[b] == rows[b] && m1[g].parentId == Some(a) && m1[f] == vf;
  }

  /** The store after the move. */
  ghost predicate StaleAfter(r: map<Id, Row>, a: Id, b: Id, g: Id, f: Id, vf: Row)
  {
    && r.Keys == {a, b, g, f}
    && r[a].size == Some(5) && r[a].parentId.None? && r[b].parentId.None?
    && r[g].size == Some(0) && r[g].kind == Folder && r[g].parentId == Some(b) && r[f] == vf
  }

  /** In that store `g` holds 5 bytes below it but says 0, and `a` says 5
      with nothing below it. */
  lemma StaleAfterUnbalanced(r: map<Id, Row>, a: Id, b: Id, g: Id, f: Id, vf: Row)
    requires a != b && a != g && a != f && b != g && b != f && g != f
    requires vf.id == f && vf.size == Some(5) && vf.parentId == Some(g)
    requires StaleAfter(r, a, b, g, f, vf)
    ensures ChildIds(r, g) == {f} && ChildIds(r, a) == {} && !SizesAreSums(r)
  {
    assert ChildIds(r, g) == {f};
    assert ChildIds(r, a) == {};
    TotalRemove(r, {f}, f);
    assert {f} - {f} == {};
    assert !Balanced(r, g);
  }

  /** Moving `g` to `b` from its validated row: `a` loses 0 and `g` is
      written back with size 0. */
  lemma StaleSecondWrite(m: map<Id, Row>, a: Id, b: Id, g: Id, f: Id, vf: Row, vg: Row, snap: Row)
    requires a != b && a != g && a != f && b != g && b != f && g != f
    requires StaleMiddle(m, a, b, g, f, vf)
    requires vg.id == g && vg.kind == Folder && vg.parentId == Some(b)
    requires snap.id == g && snap.parentId == Some(a) && snap.size == Some(0)
    ensures var r := ApplyItem(m, vg, map[g := snap]);
      r.1 == Done && StaleAfter(r.0, a, b, g, f, vf)
  {
    var r1 := Propagated(m, [a], -0, snap.date);
    var r2 := Overwrite(r1, g, snap.date, Some(0), snap.url, Some(b));
    var r3 := Propagated(r2, [b], 0, vg.date);
    assert Propagate(m, snap.parentId, snap.size, snap.date, false) == (r1, false) by {
      RootChain(m, a);
    }
    assert Propagate(r2, vg.parentId, snap.size, vg.date, true) == (r3, false) by {
      RootChain(r2, b);
    }
    assert FolderMove(m, vg, snap) == (r3, Done);
    assert r1[a].size == Some(5) && r1[b] == m[b] && r1[g] == m[g] && r1[f] == m[f];
    assert r3[a] == r2[a] && r3[g] == r2[g] && r3[f] == r2[f];
  }

  /** The two writes of the batch, from the store before it to the store
      after it, with `g` as validated in `snap`. */
  lemma StaleBatchWrites(rows: map<Id, Row>, a: Id, b: Id, g: Id, f: Id, staged: seq<Row>, snap: Row)
    requires a != b && a != g && a != f && b != g && b != f && g != f
    requires StaleBefore(rows, a, b, g) && |staged| == 2
    requires staged[0].id == f && staged[0].size == Some(5) && staged[0].parentId == Some(g)
    requires staged[1].id == g && staged[1].kind == Folder && staged[1].parentId == Some(b)
    requires snap.id == g && snap.parentId == Some(a) && snap.size == Some(0)
    ensures var r := ApplyAll(rows, staged, map[g := snap]);
      r.1 == Done && StaleAfter(r.0, a, b, g, f, staged[0])
  {
    var vf := staged[0];
    var vg := staged[1];
    var snapshot := map[g := snap];
    StaleFirstWrite(rows, a, b, g, f, vf, snapshot);
    var m1 := ApplyItem(rows, vf, snapshot).0;
    StaleSecondWrite(m1, a, b, g, f, vf, vg, snap);
    ApplyAllStep(rows, staged, snapshot);
    ApplyAllStep(m1, staged[1..], snapshot);
    assert staged[1..][1..] == [];
  }

  /** A batch that writes a new file into a stored folder and then moves
      that folder leaves the sizes wrong: the move works from the folder's
      row as it was validated, so `g` is written back as empty while `f`
      (5 bytes) is under it, and `a` keeps the 5 bytes it no longer holds. */
  lemma StaleSnapshotBreaksSums(a: Id, b: Id, g: Id, f: Id)
    requires a != b && a != g && a != f && b != g && b != f && g != f
    ensures var rows := StaleRows(a, b, g);
      var items := StaleItems(b, g, f);
      var r := ApplyAll(rows, Staged(rows, items, 1), Existing(rows, items));
      && SizesAreSums(rows) && BatchValid(rows, items)
      && r.1 == Done && g in r.0 && a in r.0 && r.0[g].size == Some(0) && r.0[a].size == Some(5)
      && ChildIds(r.0, g) == {f} && ChildIds(r.0, a) == {}
      && !SizesAreSums(r.0)
  {
    var rows := StaleRows(a, b, g);
    var items := StaleItems(b, g, f);
    StaleStartsBalanced(a, b, g);
    StaleBatchValid(a, b, g, f);
    var staged := Staged(rows, items, 1);
    StaleBatchWrites(rows, a, b, g, f, staged, rows[g]);
    StaleAfterUnbalanced(ApplyAll(rows, staged, Existing(rows, items)).0, a, b, g, f, staged[0]);
  }

  // ---------------------------------------------------------------------------
  // A folder deleted and imported again

  /** A root folder `g` holding a 5-byte file `f`. */
  function OrphanRows(g: Id, f: Id): map<Id, Row>
  {
    map[g := Row(g, None, Folder, Some(5), 0, "/g", None),
        f := Row(f, Some("u"), File, Some(5), 0, "/g/f", Some(g))]
  }

  lemma OrphanStart(g: Id, f: Id, t: int)
    requires g != f
    ensures var rows := OrphanRows(g, f);
      && SizesAreSums(rows)
      && Removal(rows, g, t) == (map[f := rows[f]], Done)
  {
    var rows := OrphanRows(g, f);
    assert ChildIds(rows, g) == {f};
    TotalRemove(rows, {f}, f);
    assert {f} - {f} == {};
    var left: map<Id, Row> := map[f := rows[f]];
    assert rows - {g} == left;
  }

  /** Importing the folder `g` again, into a store where `f` still names it. */
  lemma OrphanReimport(rows: map<Id, Row>, g: Id, f: Id, t: int)
    requires g != f && rows.Keys == {f} && rows[f].parentId == Some(g) && rows[f].size == Some(5)
    ensures var items := [Item(g, None, None, Folder, None)];
      var r := ApplyAll(rows, Staged(rows, items, t), Existing(rows, items));
      && BatchValid(rows, items)
      && r.1 == Done && g in r.0 && r.0[g].size.None? && ChildIds(r.0, g) == {f}
      && !SizesAreSums(r.0)
  {
    var items := [Item(g, None, None, Folder, None)];
    assert ItemError(rows, items, 0).None?;
    var staged := Staged(rows, items, t);
    var v := staged[0];
    assert Existing(rows, items) == map[] by {
      assert IndexIn(items, 1, f) == -1;
    }
    var r := rows[g := v];
    assert Create(rows, v) == (r, Done) by {
      MissingParentChangesNothing(r, None, None, t, true);
    }
    ApplyOne(rows, v, map[]);
    ApplyAllStep(rows, staged, map[]);
    assert staged[1..] == [];
    assert ChildIds(r, g) == {f};
    TotalRemove(r, {f}, f);
    assert {f} - {f} == {};
    assert !Balanced(r, g);
  }

  /** Deleting a folder leaves its children naming it as their parent, so a
      later batch that imports a folder of the same id takes them back: the
      new folder starts with no size while the 5-byte file `f` is under it.
      Deleting is sound on its own; it is the reuse of the id that breaks
      the sums. */
  lemma RecreatedFolderAdoptsOrphans(g: Id, f: Id, t1: int, t2: int)
    requires g != f
    ensures var rows := OrphanRows(g, f);
      var deleted := Removal(rows, g, t1);
      var items := [Item(g, None, None, Folder, None)];
      var r := ApplyAll(deleted.0, Staged(deleted.0, items, t2), Existing(deleted.0, items));
      && SizesAreSums(rows)
      && deleted.1 == Done && SizesAreSums(deleted.0) && deleted.0.Keys == {f} && deleted.0[f].parentId == Some(g)
      && BatchValid(deleted.0, items)
      && r.1 == Done && g in r.0 && r.0[g].size.None? && ChildIds(r.0, g) == {f} && !SizesAreSums(r.0)
  {
    var rows := OrphanRows(g, f);
    OrphanStart(g, f, t1);
    var left: map<Id, Row> := map[f := rows[f]];
    assert SizesAreSums(left);
    OrphanReimport(left, g, f, t2);
  }
}
