/** The invariant the size bookkeeping exists for: every folder's size is
    the sum of its children's sizes, a missing size counting as 0. */
module Consistency {
  import opened Nodes
  import opened Propagation
  import opened Router

  /** The size a row contributes to its parent. */
  function Weight(rows: map<Id, Row>, k: Id): int
    requires k in rows
  {
    SizeOr0(rows[k].size)
  }

  /** The summed weight of the rows in `s`. */
  ghost function Total(rows: map<Id, Row>, s: set<Id>): int
    requires s <= rows.Keys
    decreases s
  {
    if s == {} then 0
    else
      var k :| k in s;
      Weight(rows, k) + Total(rows, s - {k})
  }

  /** A folder whose size is the total of its children. */
  ghost predicate Balanced(rows: map<Id, Row>, f: Id)
    requires f in rows
  {
    Weight(rows, f) == Total(rows, ChildIds(rows, f))
  }

  /** Every folder is balanced. */
  ghost predicate SizesAreSums(rows: map<Id, Row>)
  {
    forall f :: f in rows && rows[f].kind == Folder ==> Balanced(rows, f)
  }

  // ---------------------------------------------------------------------------
  // Sums

  /** Any member can be taken out of a total first. */
  lemma {:induction false} TotalRemove(rows: map<Id, Row>, s: set<Id>, x: Id)
    requires s <= rows.Keys && x in s
    ensures Total(rows, s) == Weight(rows, x) + Total(rows, s - {x})
    decreases s
  {
    var y :| y in s && Total(rows, s) == Weight(rows, y) + Total(rows, s - {y});
    if y != x {
      TotalRemove(rows, s - {y}, x);
      TotalRemove(rows, s - {x}, y);
      assert s - {y} - {x} == s - {x} - {y};
    }
  }

  /** Totals only depend on the weights of their members. */
  lemma {:induction false} TotalSame(rows: map<Id, Row>, rows': map<Id, Row>, s: set<Id>)
    requires s <= rows.Keys && s <= rows'.Keys
    requires forall k :: k in s ==> Weight(rows', k) == Weight(rows, k)
    ensures Total(rows', s) == Total(rows, s)
    decreases s
  {
    if s != {} {
      var x :| x in s;
      TotalRemove(rows, s, x);
      TotalRemove(rows', s, x);
      TotalSame(rows, rows', s - {x});
    }
  }

  /** Shifting one member's weight shifts the total by as much. */
  lemma TotalShift(rows: map<Id, Row>, rows': map<Id, Row>, s: set<Id>, x: Id, delta: int)
    requires s <= rows.Keys && s <= rows'.Keys && x in s
    requires forall k :: k in s && k != x ==> Weight(rows', k) == Weight(rows, k)
    requires Weight(rows', x) == Weight(rows, x) + delta
    ensures Total(rows', s) == Total(rows, s) + delta
  {
    TotalRemove(rows, s, x);
    TotalRemove(rows', s, x);
    TotalSame(rows, rows', s - {x});
  }

  // ---------------------------------------------------------------------------
  // Walks that do not see a changed row

  /** A walk that neither reaches `z` nor passes a node linking to it is the
      same in any map of links that differs from `par` only at `z`. */
  lemma {:induction false} WalkFrame(par: map<Id, Option<Id>>, par': map<Id, Option<Id>>, cur: Option<Id>,
                                     visited: set<Id>, z: Id)
    requires forall k :: k != z ==> (k in par <==> k in par')
    requires forall k :: k != z && k in par ==> par'[k] == par[k]
    requires cur != Some(z)
    requires forall k :: k in Walk(par, cur, visited).ids ==> par[k] != Some(z)
    ensures Walk(par', cur, visited) == Walk(par, cur, visited)
    decreases par.Keys - visited
  {
    if cur.Some? && cur.value in par && cur.value !in visited {
      var x := cur.value;
      assert x in Walk(par, cur, visited).ids;
      WalkFrame(par, par', par[x], visited + {x}, z);
    }
  }

  /** On a walk that stops, a node whose parent is a stored row `f` is
      followed by `f`; so the only chain member among `f`'s children is the
      one just before `f`. */
  lemma ChainChildren(rows: map<Id, Row>, p: Id, f: Id)
    requires p in rows && f in rows
    requires !Ancestors(rows, Some(p)).cyclic
    ensures var ids := Ancestors(rows, Some(p)).ids;
      && |ids| > 0 && ids[0] == p
      && forall m :: 0 <= m < |ids| && rows[ids[m]].parentId == Some(f) ==> m + 1 < |ids| && ids[m + 1] == f
  {
    var par := Parents(rows);
    WalkLinks(par, Some(p), {});
    ChainClosed(par, Some(p));
  }

  // ---------------------------------------------------------------------------
  // Propagation repairs one parent

  /** The only chain member among the children of `f` is the one just
      before `f` on the chain, so `f` is on the chain past its start. */
  lemma ChainChild(rows: map<Id, Row>, p: Id, f: Id, k: Id)
    requires p in rows && f in rows
    requires !Ancestors(rows, Some(p)).cyclic
    requires k in ChildIds(rows, f) && k in Ancestors(rows, Some(p)).ids
    ensures var ids := Ancestors(rows, Some(p)).ids;
      exists j :: 1 <= j < |ids| && ids[j] == f && ids[j - 1] == k
  {
    var ids := Ancestors(rows, Some(p)).ids;
    ChainChildren(rows, p, f);
    var m :| 0 <= m < |ids| && ids[m] == k;
    assert ids[m + 1] == f;
  }

  /** The preconditions of `Repair`. */
  ghost predicate ShortBy(rows: map<Id, Row>, p: Id, delta: int)
  {
    && p in rows
    && !Ancestors(rows, Some(p)).cyclic
    && (forall f :: f in rows && rows[f].kind == Folder && f != p ==> Balanced(rows, f))
    && (rows[p].kind == Folder ==> Total(rows, ChildIds(rows, p)) == Weight(rows, p) + delta)
  }

  /** A folder that is not on the chain past `p` keeps its size and the
      weights of all its children. */
  lemma RepairOff(rows: map<Id, Row>, p: Id, delta: int, date: int, f: Id)
    requires ShortBy(rows, p, delta)
    requires f in rows && rows[f].kind == Folder
    requires f !in Ancestors(rows, Some(p)).ids || f == p
    ensures Balanced(Propagated(rows, Ancestors(rows, Some(p)).ids, delta, date), f)
  {
    var ids := Ancestors(rows, Some(p)).ids;
    var r := Propagated(rows, ids, delta, date);
    ChainChildren(rows, p, f);
    var s := ChildIds(rows, f);
    assert ChildIds(r, f) == s;
    forall k | k in s ensures Weight(r, k) == Weight(rows, k) {
      assert k !in ids by {
        if k in ids {
          ChainChild(rows, p, f, k);
          assert false;
        }
      }
    }
    TotalSame(rows, r, s);
  }

  /** Of the children of the chain member `ids[j]`, only `ids[j - 1]` is on
      the chain. */
  lemma OneChainChild(rows: map<Id, Row>, p: Id, j: nat)
    requires p in rows && !Ancestors(rows, Some(p)).cyclic
    requires 0 < j < |Ancestors(rows, Some(p)).ids|
    ensures var ids := Ancestors(rows, Some(p)).ids;
      && ids[j - 1] in ChildIds(rows, ids[j])
      && forall k :: k in ChildIds(rows, ids[j]) && k != ids[j - 1] ==> k !in ids
  {
    var ids := Ancestors(rows, Some(p)).ids;
    AncestorsFollowLinks(rows, Some(p));
    forall k | k in ChildIds(rows, ids[j]) && k != ids[j - 1] ensures k !in ids {
      if k in ids {
        ChainChild(rows, p, ids[j], k);
        assert false;
      }
    }
  }

  /** A folder on the chain past `p` grows by `delta`, as does exactly one
      of its children: the chain member before it. */
  lemma RepairOn(rows: map<Id, Row>, p: Id, delta: int, date: int, f: Id)
    requires ShortBy(rows, p, delta)
    requires f in rows && rows[f].kind == Folder
    requires f in Ancestors(rows, Some(p)).ids && f != p
    ensures Balanced(Propagated(rows, Ancestors(rows, Some(p)).ids, delta, date), f)
  {
    var ids := Ancestors(rows, Some(p)).ids;
    var r := Propagated(rows, ids, delta, date);
    ChainChildren(rows, p, f);
    var s := ChildIds(rows, f);
    assert ChildIds(r, f) == s;
    var j :| 0 <= j < |ids| && ids[j] == f;
    OneChainChild(rows, p, j);
    TotalShift(rows, r, s, ids[j - 1], delta);
  }

  /** If every folder but `p` is balanced and `p` is short of its children's
      total by exactly `delta`, shifting `p` and all its ancestors by `delta`
      balances every folder. */
  lemma Repair(rows: map<Id, Row>, p: Id, delta: int, date: int)
    requires ShortBy(rows, p, delta)
    ensures SizesAreSums(Propagated(rows, Ancestors(rows, Some(p)).ids, delta, date))
  {
    var ids := Ancestors(rows, Some(p)).ids;
    var r := Propagated(rows, ids, delta, date);
    forall f | f in r && r[f].kind == Folder
      ensures Balanced(r, f)
    {
      if f in ids && f != p {
        RepairOn(rows, p, delta, date, f);
      } else {
        RepairOff(rows, p, delta, date, f);
      }
    }
  }

  // ---------------------------------------------------------------------------
  // The write operations keep folder sizes equal to their children's totals

  /** Inserting a row leaves alone every other row's children and their
      total, except at the inserted row's parent. */
  lemma InsertElsewhere(rows: map<Id, Row>, v: Row, f: Id)
    requires v.id !in rows && f in rows && Some(f) != v.parentId
    ensures ChildIds(rows[v.id := v], f) == ChildIds(rows, f)
    ensures Total(rows[v.id := v], ChildIds(rows, f)) == Total(rows, ChildIds(rows, f))
  {
    TotalSame(rows, rows[v.id := v], ChildIds(rows, f));
  }

  /** After a row is inserted, every folder is balanced except the row's
      parent, which is short by the row's size. The row may already have
      children (rows left behind by a delete, or the row's own children when
      it is moved); as a folder it must weigh what they total. */
  lemma InsertShort(rows: map<Id, Row>, v: Row)
    requires SizesAreSums(rows)
    requires v.id !in rows && v.parentId != Some(v.id)
    requires v.kind == Folder ==> Total(rows, ChildIds(rows, v.id)) == SizeOr0(v.size)
    ensures forall f :: f in rows[v.id := v] && rows[v.id := v][f].kind == Folder && Some(f) != v.parentId ==>
      Balanced(rows[v.id := v], f)
    ensures v.parentId.Some? && v.parentId.value in rows && rows[v.parentId.value].kind == Folder ==>
      Total(rows[v.id := v], ChildIds(rows[v.id := v], v.parentId.value))
        == Weight(rows[v.id := v], v.parentId.value) + SizeOr0(v.size)
  {
    var rows1 := rows[v.id := v];
    forall f | f in rows1 && rows1[f].kind == Folder && Some(f) != v.parentId
      ensures Balanced(rows1, f)
    {
      if f == v.id {
        assert ChildIds(rows1, f) == ChildIds(rows, f);
        TotalSame(rows, rows1, ChildIds(rows, f));
      } else {
        InsertElsewhere(rows, v, f);
      }
    }
    if v.parentId.Some? && v.parentId.value in rows && rows[v.parentId.value].kind == Folder {
      var p := v.parentId.value;
      assert ChildIds(rows1, p) == ChildIds(rows, p) + {v.id};
      TotalRemove(rows1, ChildIds(rows1, p), v.id);
      assert ChildIds(rows1, p) - {v.id} == ChildIds(rows, p);
      TotalSame(rows, rows1, ChildIds(rows, p));
    }
  }

  /** Inserting a row and growing its parent's chain by its size keeps every
      folder balanced, provided the chain from the parent stops once the row
      is in place. */
  lemma AttachKeepsSums(rows: map<Id, Row>, v: Row, date: int)
    requires SizesAreSums(rows)
    requires v.id !in rows && v.parentId != Some(v.id)
    requires v.kind == Folder ==> Total(rows, ChildIds(rows, v.id)) == SizeOr0(v.size)
    requires v.parentId.Some? ==> v.parentId.value in rows
    requires !Ancestors(rows[v.id := v], v.parentId).cyclic
    ensures !Propagate(rows[v.id := v], v.parentId, v.size, date, true).1
    ensures SizesAreSums(Propagate(rows[v.id := v], v.parentId, v.size, date, true).0)
  {
    var rows1 := rows[v.id := v];
    if v.parentId.None? {
      InsertShort(rows, v);
      MissingParentChangesNothing(rows1, v.parentId, v.size, date, true);
    } else {
      var p := v.parentId.value;
      var w := SizeOr0(v.size);
      assert SizesAreSums(Propagated(rows1, Ancestors(rows1, Some(p)).ids, w, date)) by {
        InsertShort(rows, v);
        assert ShortBy(rows1, p, w);
        Repair(rows1, p, w, date);
      }
    }
  }

  /** Creating a node under a stored parent keeps every folder balanced,
      provided no row already names the new id as its parent, a new folder
      starts empty, and the parent's chain stops. */
  lemma CreateKeepsSums(rows: map<Id, Row>, v: Row)
    requires SizesAreSums(rows)
    requires v.id !in rows
    requires forall k :: k in rows ==> rows[k].parentId != Some(v.id)
    requires v.kind == Folder ==> SizeOr0(v.size) == 0
    requires v.parentId.Some? ==> v.parentId.value in rows
    requires !Ancestors(rows, v.parentId).cyclic
    ensures Create(rows, v).1 == Done
    ensures SizesAreSums(Create(rows, v).0)
  {
    assert ChildIds(rows, v.id) == {};
    WalkFrame(Parents(rows), Parents(rows[v.id := v]), v.parentId, {}, v.id);
    AttachKeepsSums(rows, v, v.date);
  }

  /** Removing a row leaves alone every other row's children and their
      total, except at the removed row's parent. */
  lemma RemoveElsewhere(rows: map<Id, Row>, id: Id, f: Id)
    requires id in rows && f in rows && f != id && Some(f) != rows[id].parentId
    ensures ChildIds(rows - {id}, f) == ChildIds(rows, f)
    ensures Total(rows - {id}, ChildIds(rows, f)) == Total(rows, ChildIds(rows, f))
  {
    TotalSame(rows, rows - {id}, ChildIds(rows, f));
  }

  /** After a row is removed, every remaining folder is balanced except its
      parent, which is over its children's total by the removed size. */
  lemma RemoveShort(rows: map<Id, Row>, id: Id)
    requires SizesAreSums(rows)
    requires id in rows
    ensures forall f :: f in rows - {id} && rows[f].kind == Folder && Some(f) != rows[id].parentId ==>
      Balanced(rows - {id}, f)
    ensures var p := rows[id].parentId;
      p.Some? && p.value in rows - {id} && rows[p.value].kind == Folder ==>
        Total(rows - {id}, ChildIds(rows - {id}, p.value)) == Weight(rows - {id}, p.value) - Weight(rows, id)
  {
    var rows0 := rows - {id};
    forall f | f in rows0 && rows[f].kind == Folder && Some(f) != rows[id].parentId
      ensures Balanced(rows0, f)
    {
      RemoveElsewhere(rows, id, f);
    }
    var p := rows[id].parentId;
    if p.Some? && p.value in rows0 && rows[p.value].kind == Folder {
      assert ChildIds(rows0, p.value) == ChildIds(rows, p.value) - {id};
      TotalRemove(rows, ChildIds(rows, p.value), id);
      TotalSame(rows, rows0, ChildIds(rows0, p.value));
    }
  }

  /** Shifting the chain commutes with removing a row. */
  lemma PropagatedWithout(rows: map<Id, Row>, ids: seq<Id>, delta: int, date: int, id: Id)
    ensures Propagated(rows, ids, delta, date) - {id} == Propagated(rows - {id}, ids, delta, date)
  {
    var a := Propagated(rows, ids, delta, date) - {id};
    var b := Propagated(rows - {id}, ids, delta, date);
    assert a.Keys == b.Keys by {
      assert Parents(a).Keys == a.Keys && Parents(b).Keys == b.Keys;
    }
    assert forall k :: k in a ==> a[k] == b[k];
  }

  /** The walk from a node's parent is the same once the node is removed. */
  lemma RemoveKeepsParentChain(rows: map<Id, Row>, id: Id)
    requires id in rows && rows[id].parentId.Some?
    requires !Ancestors(rows, rows[id].parentId).cyclic
    ensures id !in Ancestors(rows, rows[id].parentId).ids
    ensures Ancestors(rows - {id}, rows[id].parentId) == Ancestors(rows, rows[id].parentId)
  {
    var par := Parents(rows);
    var ids := Ancestors(rows, rows[id].parentId).ids;
    NotOnOwnChain(par, id);
    forall k | k in ids ensures par[k] != Some(id) {
      var j :| 0 <= j < |ids| && ids[j] == k;
      ChainClosed(par, rows[id].parentId);
      if j + 1 < |ids| {
        assert ids[j + 1] in ids;
      }
    }
    WalkLinks(par, rows[id].parentId, {});
    WalkFrame(par, Parents(rows - {id}), rows[id].parentId, {}, id);
  }

  /** Once a node with a stored parent is removed, the parent is over its
      children's total by the node's size and every other folder is
      balanced. */
  lemma RemoveUnderParentShort(rows: map<Id, Row>, id: Id, p: Id, delta: int)
    requires SizesAreSums(rows)
    requires id in rows && rows[id].parentId == Some(p) && p in rows
    requires !Ancestors(rows, Some(p)).cyclic
    requires delta == -Weight(rows, id)
    ensures ShortBy(rows - {id}, p, delta)
  {
    RemoveShort(rows, id);
    RemoveKeepsParentChain(rows, id);
    AncestorsFollowLinks(rows, Some(p));
  }

  /** Deleting a node keeps every remaining folder balanced, provided its
      parent's chain stops. Its children lose their parent and count
      nowhere. */
  lemma DeleteKeepsSums(rows: map<Id, Row>, id: Id, date: int)
    requires SizesAreSums(rows)
    requires id in rows
    requires !Ancestors(rows, rows[id].parentId).cyclic
    ensures Removal(rows, id, date).1 == Done
    ensures SizesAreSums(Removal(rows, id, date).0)
  {
    var n := rows[id];
    if n.parentId.None? || n.parentId.value !in rows {
      RemoveShort(rows, id);
      MissingParentChangesNothing(rows, n.parentId, n.size, date, false);
      assert Removal(rows, id, date) == (rows - {id}, Done);
    } else {
      var p := n.parentId.value;
      var delta := -Weight(rows, id);
      var ids := Ancestors(rows, n.parentId).ids;
      var r := Propagated(rows, ids, delta, date);
      assert SizesAreSums(r - {id}) by {
        RemoveUnderParentShort(rows, id, p, delta);
        Repair(rows - {id}, p, delta, date);
        RemoveKeepsParentChain(rows, id);
        PropagatedWithout(rows, ids, delta, date, id);
      }
      assert Propagate(rows, n.parentId, n.size, date, false) == (r, false);
      assert Removal(rows, id, date) == (r - {id}, Done);
    }
  }

  /** Taking a node out: the old parent's chain shrinks by the node's size
      (as `update_parent` does when subtracting it) and the row goes. Every
      remaining folder is balanced, the node was not on that chain, and its
      children keep their parent link and their weight. */
  lemma DetachKeepsSums(rows: map<Id, Row>, x: Id, date: int)
    requires SizesAreSums(rows)
    requires x in rows
    requires !Ancestors(rows, rows[x].parentId).cyclic
    ensures var r1 := Propagate(rows, rows[x].parentId, rows[x].size, date, false);
      && !r1.1
      && SizesAreSums(r1.0 - {x})
      && x !in Ancestors(rows, rows[x].parentId).ids
      && r1.0[x] == rows[x]
      && ChildIds(r1.0 - {x}, x) == ChildIds(rows, x)
      && forall k :: k in ChildIds(rows, x) ==> Weight(r1.0 - {x}, k) == Weight(rows, k)
  {
    var n := rows[x];
    var par := Parents(rows);
    var r1 := Propagate(rows, n.parentId, n.size, date, false);
    assert SizesAreSums(r1.0 - {x}) by {
      DeleteKeepsSums(rows, x, date);
      if n.parentId.None? || n.parentId.value !in rows {
        MissingParentChangesNothing(rows, n.parentId, n.size, date, false);
      }
      assert Removal(rows, x, date).0 == r1.0 - {x};
    }
    if n.parentId.Some? {
      NotOnOwnChain(par, x);
      forall k | k in ChildIds(rows, x) ensures k !in Ancestors(rows, n.parentId).ids {
        ChildNotOnParentChain(par, x, k);
      }
    }
    assert x !in ChildIds(rows, x) by {
      if n.parentId == Some(x) {
        assert false;
      }
    }
  }

  /** Overwriting a row is removing it and inserting the rewritten row. */
  lemma OverwriteIsReinsert(rows: map<Id, Row>, x: Id, date: int, size: Option<int>, url: Option<string>,
                            parentId: Option<Id>)
    requires x in rows
    ensures Overwrite(rows, x, date, size, url, parentId)
      == (rows - {x})[x := rows[x].(date := date, size := size, url := url, parentId := parentId)]
  {
  }

  /** Two maps with the same links still have the same links after the same
      row is put in both. */
  lemma ReinsertParents(a: map<Id, Row>, b: map<Id, Row>, x: Id, row: Row)
    requires Parents(a) == Parents(b)
    ensures Parents((a - {x})[x := row]) == Parents(b[x := row])
  {
    assert a.Keys == b.Keys by {
      assert Parents(a).Keys == a.Keys && Parents(b).Keys == b.Keys;
    }
    assert forall k :: k in a ==> a[k].parentId == b[k].parentId by {
      forall k | k in a ensures a[k].parentId == b[k].parentId {
        assert Parents(a)[k] == Parents(b)[k];
      }
    }
  }

  /** Detaching a node on the way to a new parent leaves what
      `AttachKeepsSums` needs for the rewritten row `w`: every other folder
      balanced, a folder's children still summing to its stored size, and
      the same links as rewriting the row in place. */
  lemma DetachForMove(rows: map<Id, Row>, x: Id, date: int, w: Row)
    requires SizesAreSums(rows)
    requires x in rows
    requires w.parentId.Some? ==> w.parentId.value in rows
    requires !Ancestors(rows, rows[x].parentId).cyclic
    ensures var r := Propagate(rows, rows[x].parentId, rows[x].size, date, false);
      && !r.1
      && SizesAreSums(r.0 - {x})
      && (rows[x].kind == Folder ==> Total(r.0 - {x}, ChildIds(r.0 - {x}, x)) == SizeOr0(rows[x].size))
      && (w.parentId.Some? ==> w.parentId.value in r.0 - {x} || w.parentId.value == x)
      && Ancestors((r.0 - {x})[x := w], w.parentId) == Ancestors(rows[x := w], w.parentId)
  {
    var n := rows[x];
    var delta := -SizeOr0(n.size);
    var r1: map<Id, Row> := Propagate(rows, n.parentId, n.size, date, false).0;
    DetachKeepsSums(rows, x, date);
    if n.kind == Folder {
      assert Total(r1 - {x}, ChildIds(r1 - {x}, x)) == SizeOr0(n.size) by {
        TotalSame(rows, r1 - {x}, ChildIds(rows, x));
      }
    }
    assert Parents((r1 - {x})[x := w]) == Parents(rows[x := w]) by {
      PropagatedKeepsParents(rows, Ancestors(rows, n.parentId).ids, delta, date);
      ReinsertParents(r1, rows, x, w);
    }
  }

  /** Moving a stored folder under a new parent, as the write pass does with
      the row read during validation, keeps every folder balanced, provided
      the folder is not put under itself or one of its descendants and its
      old parent's chain stops. */
  lemma FolderMoveKeepsSums(rows: map<Id, Row>, v: Row)
    requires ValidRows(rows) && SizesAreSums(rows)
    requires v.id in rows && rows[v.id].kind == Folder
    requires v.parentId != Some(v.id)
    requires v.parentId.Some? ==> v.parentId.value in rows
    requires !Ancestors(rows, rows[v.id].parentId).cyclic
    requires !Ancestors(rows[v.id := rows[v.id].(parentId := v.parentId)], v.parentId).cyclic
    ensures FolderMove(rows, v, rows[v.id]).1 == Done
    ensures SizesAreSums(FolderMove(rows, v, rows[v.id]).0)
  {
    var x := v.id;
    var snap := rows[x];
    var r1 := Propagate(rows, snap.parentId, snap.size, snap.date, false).0;
    var moved := snap.(parentId := v.parentId);
    DetachForMove(rows, x, snap.date, moved);
    assert FolderMove(rows, v, snap) == Settle(Propagate((r1 - {x})[x := moved], v.parentId, snap.size, v.date, true)) by {
      OverwriteIsReinsert(r1, x, snap.date, snap.size, snap.url, v.parentId);
    }
    AttachKeepsSums(r1 - {x}, moved, v.date);
  }

  /** After a file's row is rewritten with a new size, every folder is
      balanced except its parent, which is short by the change in size. */
  lemma OverwriteShort(rows: map<Id, Row>, v: Row)
    requires SizesAreSums(rows)
    requires v.id in rows && rows[v.id].kind == File
    requires v.parentId == rows[v.id].parentId
    ensures var rows1 := Overwrite(rows, v.id, v.date, v.size, v.url, v.parentId);
      && Parents(rows1) == Parents(rows)
      && (forall f :: f in rows1 && rows1[f].kind == Folder && Some(f) != v.parentId ==> Balanced(rows1, f))
      && (v.parentId.Some? && v.parentId.value in rows && rows[v.parentId.value].kind == Folder ==>
            Total(rows1, ChildIds(rows1, v.parentId.value))
              == Weight(rows1, v.parentId.value) + SizeOr0(v.size) - Weight(rows, v.id))
  {
    var rows1 := Overwrite(rows, v.id, v.date, v.size, v.url, v.parentId);
    assert Parents(rows1) == Parents(rows);
    forall f | f in rows1 && rows1[f].kind == Folder && Some(f) != v.parentId
      ensures Balanced(rows1, f)
    {
      assert ChildIds(rows1, f) == ChildIds(rows, f);
      TotalSame(rows, rows1, ChildIds(rows, f));
    }
    if v.parentId.Some? && v.parentId.value in rows && rows[v.parentId.value].kind == Folder {
      var p := v.parentId.value;
      assert ChildIds(rows1, p) == ChildIds(rows, p);
      TotalShift(rows, rows1, ChildIds(rows, p), v.id, SizeOr0(v.size) - Weight(rows, v.id));
    }
  }

  /** Re-importing a stored file with a new size under the same parent keeps
      every folder balanced, provided the parent's chain stops. */
  lemma ResizeKeepsSums(rows: map<Id, Row>, v: Row)
    requires SizesAreSums(rows)
    requires v.id in rows && rows[v.id].kind == File && v.kind == File
    requires v.parentId == rows[v.id].parentId
    requires v.size.Some? && rows[v.id].size.Some?
    requires !Ancestors(rows, v.parentId).cyclic
    ensures FileUpdate(rows, v, rows[v.id]).1 == Done
    ensures SizesAreSums(FileUpdate(rows, v, rows[v.id]).0)
  {
    var delta := v.size.value - rows[v.id].size.value;
    var rows1 := Overwrite(rows, v.id, v.date, v.size, v.url, v.parentId);
    assert FileUpdate(rows, v, rows[v.id]) == Settle(Propagate(rows1, v.parentId, Some(delta), v.date, true));
    if v.parentId.None? || v.parentId.value !in rows {
      OverwriteShort(rows, v);
      MissingParentChangesNothing(rows1, v.parentId, Some(delta), v.date, true);
    } else {
      var p := v.parentId.value;
      assert Parents(rows1) == Parents(rows);
      var r := Propagated(rows1, Ancestors(rows1, Some(p)).ids, delta, v.date);
      assert SizesAreSums(r) by {
        OverwriteShort(rows, v);
        assert ShortBy(rows1, p, delta);
        Repair(rows1, p, delta, v.date);
      }
      assert Propagate(rows1, v.parentId, Some(delta), v.date, true) == (r, false);
    }
  }

  // ---------------------------------------------------------------------------
  // File move

  /** The walk from a node's parent is the same once the node's row is
      replaced, and the node is not on it. */
  lemma ReplaceKeepsParentChain(rows: map<Id, Row>, x: Id, w: Row)
    requires x in rows
    requires !Ancestors(rows, rows[x].parentId).cyclic
    ensures x !in Ancestors(rows, rows[x].parentId).ids
    ensures Ancestors(rows[x := w], rows[x].parentId) == Ancestors(rows, rows[x].parentId)
  {
    var par := Parents(rows);
    var q := rows[x].parentId;
    var ids := Ancestors(rows, q).ids;
    NotOnOwnChain(par, x);
    forall k | k in ids ensures par[k] != Some(x) {
      var j :| 0 <= j < |ids| && ids[j] == k;
      ChainClosed(par, q);
      if j + 1 < |ids| {
        assert ids[j + 1] in ids;
      }
    }
    WalkLinks(par, q, {});
    WalkFrame(par, Parents(rows[x := w]), q, {}, x);
  }

  /** Shifting a chain that avoids `x` commutes with replacing `x`'s row. */
  lemma PropagatedReplace(rows: map<Id, Row>, ids: seq<Id>, delta: int, date: int, x: Id, w: Row)
    requires x !in ids
    ensures Propagated(rows[x := w], ids, delta, date) == Propagated(rows, ids, delta, date)[x := w]
  {
    var a := Propagated(rows[x := w], ids, delta, date);
    var b := Propagated(rows, ids, delta, date)[x := w];
    assert a.Keys == b.Keys by {
      assert Parents(a).Keys == a.Keys && Parents(b).Keys == b.Keys;
    }
    assert forall k :: k in a ==> a[k] == b[k];
  }

  /** The first half of a file move: once the row is rewritten, shrinking
      the old parent's chain by the file's unchanged size is the same as
      detaching the old row and putting the rewritten row back. */
  lemma FileMoveDetaches(rows: map<Id, Row>, v: Row)
    requires v.id in rows && v.size == rows[v.id].size
    requires !Ancestors(rows, rows[v.id].parentId).cyclic
    ensures var x := v.id;
      var w := rows[x].(date := v.date, url := v.url, size := v.size, parentId := v.parentId);
      Propagate(Overwrite(rows, x, v.date, v.size, v.url, v.parentId), rows[x].parentId, v.size, v.date, false)
        == ((Propagate(rows, rows[x].parentId, rows[x].size, v.date, false).0 - {x})[x := w], false)
  {
    var x := v.id;
    var q := rows[x].parentId;
    var w := rows[x].(date := v.date, url := v.url, size := v.size, parentId := v.parentId);
    var c := Ancestors(rows, q);
    var child := SizeOr0(v.size);
    var delta := -child;
    var ow := Overwrite(rows, x, v.date, v.size, v.url, v.parentId);
    var r := Propagated(rows, c.ids, delta, v.date);
    assert ow == rows[x := w];
    assert Ancestors(ow, q) == c by {
      ReplaceKeepsParentChain(rows, x, w);
    }
    assert Propagate(ow, q, v.size, v.date, false) == (Propagated(ow, c.ids, delta, v.date), false);
    assert Propagate(rows, q, rows[x].size, v.date, false).0 == r;
    assert Propagated(ow, c.ids, delta, v.date) == (r - {x})[x := w] by {
      ReplaceKeepsParentChain(rows, x, w);
      PropagatedReplace(rows, c.ids, delta, v.date, x, w);
      assert r[x := w] == (r - {x})[x := w];
    }
  }

  /** Moving a stored file to a new parent without changing its size keeps
      every folder balanced, provided both parent chains stop. */
  lemma FileMoveKeepsSums(rows: map<Id, Row>, v: Row)
    requires ValidRows(rows) && SizesAreSums(rows)
    requires v.id in rows && rows[v.id].kind == File
    requires v.parentId != rows[v.id].parentId && v.parentId != Some(v.id)
    requires v.size == rows[v.id].size
    requires v.parentId.Some? ==> v.parentId.value in rows
    requires !Ancestors(rows, rows[v.id].parentId).cyclic
    requires !Ancestors(Overwrite(rows, v.id, v.date, v.size, v.url, v.parentId), v.parentId).cyclic
    ensures FileUpdate(rows, v, rows[v.id]).1 == Done
    ensures SizesAreSums(FileUpdate(rows, v, rows[v.id]).0)
  {
    var x := v.id;
    var snap := rows[x];
    var w := snap.(date := v.date, url := v.url, size := v.size, parentId := v.parentId);
    var r1: map<Id, Row> := Propagate(rows, snap.parentId, snap.size, v.date, false).0;
    assert FileUpdate(rows, v, snap) == Settle(Propagate((r1 - {x})[x := w], v.parentId, v.size, v.date, true)) by {
      FileMoveDetaches(rows, v);
    }
    assert Overwrite(rows, x, v.date, v.size, v.url, v.parentId) == rows[x := w];
    DetachForMove(rows, x, v.date, w);
    AttachKeepsSums(r1 - {x}, w, v.date);
  }

  /** A store with folders `a` and `b` and a 5-byte file `f` in `a`. */
  function DriftRows(a: Id, b: Id, f: Id): map<Id, Row>
  {
    map[a := Row(a, None, Folder, Some(5), 0, "/a", None),
        b := Row(b, None, Folder, Some(0), 0, "/b", None),
        f := Row(f, Some("u"), File, Some(5), 0, "/a/f", Some(a))]
  }

  /** `f` re-imported into `b` as a 9-byte file. */
  function DriftItem(a: Id, b: Id, f: Id): Row
  {
    Row(f, Some("u"), File, Some(9), 1, "/a/f", Some(b))
  }

  lemma DriftStartsBalanced(a: Id, b: Id, f: Id)
    requires a != b && a != f && b != f
    ensures SizesAreSums(DriftRows(a, b, f))
  {
    var rows := DriftRows(a, b, f);
    assert ChildIds(rows, a) == {f};
    assert ChildIds(rows, b) == {};
    TotalRemove(rows, {f}, f);
    assert {f} - {f} == {};
  }

  /** The chain from a stored root is the root alone. */
  lemma RootChain(rows: map<Id, Row>, x: Id)
    requires x in rows && rows[x].parentId.None?
    ensures Ancestors(rows, Some(x)) == Chain([x], false)
  {
    var par := Parents(rows);
    var none: set<Id> := {};
    assert none + {x} == {x};
    assert Walk(par, None, {x}) == Chain([], false);
  }

  lemma DriftMove(a: Id, b: Id, f: Id)
    requires a != b && a != f && b != f
    ensures var r := FileUpdate(DriftRows(a, b, f), DriftItem(a, b, f), DriftRows(a, b, f)[f]);
      && r.1 == Done && a in r.0 && r.0[a].kind == Folder
      && r.0[a].size == Some(-4) && ChildIds(r.0, a) == {} && !Balanced(r.0, a)
  {
    var rows := DriftRows(a, b, f);
    var r1 := Overwrite(rows, f, 1, Some(9), Some("u"), Some(b));
    var r2 := Propagated(r1, [a], -9, 1);
    var r3 := Propagated(r2, [b], 9, 1);
    assert Propagate(r1, Some(a), Some(9), 1, false) == (r2, false) by {
      RootChain(r1, a);
    }
    assert Propagate(r2, Some(b), Some(9), 1, true) == (r3, false) by {
      RootChain(r2, b);
    }
    assert FileUpdate(rows, DriftItem(a, b, f), rows[f]) == (r3, Done);
    assert ChildIds(r3, a) == {};
  }

  /** A file move that also changes the size: the old parent loses the NEW
      size, so a folder `a` holding one 5-byte file `f` that moves to folder
      `b` as a 9-byte file is left at -4 with no children. */
  lemma FileMoveWithResizeDrifts(a: Id, b: Id, f: Id)
    requires a != b && a != f && b != f
    ensures var r := FileUpdate(DriftRows(a, b, f), DriftItem(a, b, f), DriftRows(a, b, f)[f]);
      && SizesAreSums(DriftRows(a, b, f))
      && r.1 == Done
      && a in r.0 && r.0[a].size == Some(-4) && ChildIds(r.0, a) == {}
      && !SizesAreSums(r.0)
  {
    DriftStartsBalanced(a, b, f);
    DriftMove(a, b, f);
  }

  // ---------------------------------------------------------------------------
  // Whole batches of new nodes

  /** No parent chain in the store goes round a cycle. */
  ghost predicate NoCycles(rows: map<Id, Row>)
  {
    forall p :: p in rows ==> !Ancestors(rows, Some(p)).cyclic
  }

  /** An extra visited node changes nothing for a walk that never links
      to it. */
  lemma {:induction false} WalkExtraVisited(par: map<Id, Option<Id>>, cur: Option<Id>, visited: set<Id>, z: Id)
    requires z !in visited && cur != Some(z)
    requires forall k :: k in Walk(par, cur, visited).ids ==> par[k] != Some(z)
    ensures Walk(par, cur, visited + {z}) == Walk(par, cur, visited)
    decreases par.Keys - visited
  {
    if cur.Some? && cur.value in par && cur.value !in visited {
      var x := cur.value;
      var rest := Walk(par, par[x], visited + {x});
      assert Walk(par, cur, visited).ids == [x] + rest.ids;
      WalkExtraVisited(par, par[x], visited + {x}, z);
      assert visited + {z} + {x} == visited + {x} + {z};
    }
  }

  /** Creating a node that no stored row names as its parent, under a
      stored parent or none, keeps every chain free of cycles. */
  lemma CreateKeepsNoCycles(rows: map<Id, Row>, v: Row)
    requires NoCycles(rows) && v.id !in rows
    requires forall k :: k in rows ==> rows[k].parentId != Some(v.id)
    requires v.parentId.Some? ==> v.parentId.value in rows
    ensures NoCycles(Create(rows, v).0)
  {
    var rows1 := rows[v.id := v];
    var par := Parents(rows);
    var par1 := Parents(rows1);
    forall p | p in rows1 ensures !Ancestors(rows1, Some(p)).cyclic {
      if p == v.id {
        var none: set<Id> := {};
        assert par1[v.id] == v.parentId;
        assert Walk(par1, Some(v.id), none).cyclic == Walk(par1, v.parentId, none + {v.id}).cyclic;
        if v.parentId.Some? {
          var q := v.parentId.value;
          WalkFrame(par, par1, Some(q), none, v.id);
          WalkExtraVisited(par1, Some(q), none, v.id);
          assert !Ancestors(rows, Some(q)).cyclic;
        }
      } else {
        WalkFrame(par, par1, Some(p), {}, v.id);
      }
    }
    var delta := SizeOr0(v.size);
    var ids := Ancestors(rows1, v.parentId).ids;
    forall p | p in Create(rows, v).0 ensures !Ancestors(Create(rows, v).0, Some(p)).cyclic {
      PropagatedKeepsAncestors(rows1, ids, delta, v.date, Some(p));
    }
  }

  /** Rows that can be created in this order: fresh distinct ids, no
      stored row naming one of them as its parent, each parent stored or
      created earlier in the list, and every new folder empty. */
  ghost predicate NewRows(rows: map<Id, Row>, staged: seq<Row>)
  {
    && (forall i :: 0 <= i < |staged| ==> staged[i].id !in rows)
    && (forall i, j :: 0 <= i < j < |staged| ==> staged[i].id != staged[j].id)
    && (forall k, i :: k in rows && 0 <= i < |staged| ==> rows[k].parentId != Some(staged[i].id))
    && (forall i :: 0 <= i < |staged| && staged[i].parentId.Some? ==>
          staged[i].parentId.value in rows || exists j :: 0 <= j < i && staged[j].id == staged[i].parentId.value)
    && (forall i :: 0 <= i < |staged| && staged[i].kind == Folder ==> SizeOr0(staged[i].size) == 0)
  }

  /** A create adds the new id and keeps every parent link. */
  lemma CreateLinks(rows: map<Id, Row>, v: Row)
    requires v.id !in rows
    ensures var r := Create(rows, v).0;
      && r.Keys == rows.Keys + {v.id} && r[v.id].parentId == v.parentId
      && forall k :: k in rows ==> r[k].parentId == rows[k].parentId
  {
    var rows1 := rows[v.id := v];
    PropagatedKeepsParents(rows1, Ancestors(rows1, v.parentId).ids, SizeOr0(v.size), v.date);
    var r := Create(rows, v).0;
    assert Parents(r) == Parents(rows1);
    forall k | k in r ensures r[k].parentId == rows1[k].parentId {
      assert Parents(r)[k] == Parents(rows1)[k];
    }
  }

  /** After the first row is created, the rest can still be created. */
  lemma NewRowsStep(rows: map<Id, Row>, staged: seq<Row>)
    requires NewRows(rows, staged) && |staged| > 0
    ensures NewRows(Create(rows, staged[0]).0, staged[1..])
  {
    var v := staged[0];
    var r := Create(rows, v).0;
    var rest := staged[1..];
    CreateLinks(rows, v);
    forall i | 0 <= i < |rest| && rest[i].parentId.Some?
      ensures rest[i].parentId.value in r || exists j :: 0 <= j < i && rest[j].id == rest[i].parentId.value
    {
      assert rest[i] == staged[i + 1];
      if rest[i].parentId.value !in rows {
        var j :| 0 <= j < i + 1 && staged[j].id == rest[i].parentId.value;
        if j > 0 {
          assert rest[j - 1] == staged[j];
        }
      }
    }
  }

  /** A write pass that only creates: every item finishes, and every folder
      stays balanced and every chain free of cycles. */
  lemma {:induction false} NewRowsKeepSums(rows: map<Id, Row>, staged: seq<Row>, toUpdate: map<Id, Row>)
    requires SizesAreSums(rows) && NoCycles(rows) && NewRows(rows, staged)
    requires forall i :: 0 <= i < |staged| ==> staged[i].id !in toUpdate
    ensures ApplyAll(rows, staged, toUpdate).1 == Done
    ensures SizesAreSums(ApplyAll(rows, staged, toUpdate).0) && NoCycles(ApplyAll(rows, staged, toUpdate).0)
    decreases |staged|
  {
    if staged != [] {
      var v := staged[0];
      assert ApplyItem(rows, v, toUpdate) == Create(rows, v);
      assert !Ancestors(rows, v.parentId).cyclic;
      CreateKeepsSums(rows, v);
      CreateKeepsNoCycles(rows, v);
      NewRowsStep(rows, staged);
      NewRowsKeepSums(Create(rows, v).0, staged[1..], toUpdate);
    }
  }

  /** What the validation pass guarantees of an accepted item: a folder
      carries no size, and a parent is an earlier folder of the batch or a
      stored folder. */
  lemma ItemAccepted(rows: map<Id, Row>, items: seq<Item>, i: nat)
    requires i < |items| && ItemError(rows, items, i).None?
    ensures items[i].kind == Folder ==> items[i].size.None?
    ensures items[i].parentId.Some? ==>
      var k := IndexIn(items, i, items[i].parentId.value);
      if k >= 0 then items[k].kind == Folder
      else items[i].parentId.value in rows && rows[items[i].parentId.value].kind == Folder
  {
  }

  /** A valid import whose ids are all new, into a store without cycles in
      which no row names one of those ids as its parent, finishes and keeps
      every folder's size the total of its children's sizes. */
  lemma NewBatchKeepsSums(rows: map<Id, Row>, items: seq<Item>, date: int)
    requires SizesAreSums(rows) && NoCycles(rows) && BatchValid(rows, items)
    requires forall i :: 0 <= i < |items| ==> items[i].id !in rows
    requires forall k, i :: k in rows && 0 <= i < |items| ==> rows[k].parentId != Some(items[i].id)
    ensures var r := ApplyAll(rows, Staged(rows, items, date), Existing(rows, items));
      r.1 == Done && SizesAreSums(r.0) && NoCycles(r.0)
  {
    var staged := Staged(rows, items, date);
    assert Existing(rows, items) == map[] by {
      forall k | k in rows ensures IndexIn(items, |items|, k) < 0 {
      }
    }
    forall i | 0 <= i < |staged| && staged[i].parentId.Some?
      ensures staged[i].parentId.value in rows || exists j :: 0 <= j < i && staged[j].id == staged[i].parentId.value
    {
      ItemAccepted(rows, items, i);
      var k := IndexIn(items, i, items[i].parentId.value);
      if k >= 0 {
        assert staged[k].id == items[k].id;
      }
    }
    forall i | 0 <= i < |staged| && staged[i].kind == Folder ensures SizeOr0(staged[i].size) == 0 {
      ItemAccepted(rows, items, i);
    }
    assert NewRows(rows, staged);
    NewRowsKeepSums(rows, staged, map[]);
  }
}
