/** Ancestor size propagation: `update_parent` walks from a parent up the
    chain of parent links, adding or subtracting a child's size at each
    ancestor and stamping it with the change's date. */
module Propagation {
  import opened Nodes

  /** A missing size counts as 0. */
  function SizeOr0(s: Option<int>): int
  {
    if s.Some? then s.value else 0
  }

  /** The parent link of every row. */
  function Parents(rows: map<Id, Row>): map<Id, Option<Id>>
  {
    map k | k in rows :: rows[k].parentId
  }

  predicate Distinct(ids: seq<Id>)
  {
    forall i, j :: 0 <= i < j < |ids| ==> ids[i] != ids[j]
  }

  /** The ancestors a walk visits, in order, and whether it would come back
      to a node it has already visited (and so never stop). */
  datatype Chain = Chain(ids: seq<Id>, cyclic: bool)

  /** The walk from `cur` through the parent links `par`, having already
      visited `visited`. It stops at a missing link or a missing row. */
  function Walk(par: map<Id, Option<Id>>, cur: Option<Id>, visited: set<Id>): (c: Chain)
    decreases par.Keys - visited
    ensures Distinct(c.ids)
    ensures forall x :: x in c.ids ==> x in par && x !in visited
  {
    if cur.None? || cur.value !in par then Chain([], false)
    else if cur.value in visited then Chain([], true)
    else
      var x := cur.value;
      var rest := Walk(par, par[x], visited + {x});
      Chain([x] + rest.ids, rest.cyclic)
  }

  /** The chain `update_parent` walks from `parentId`. */
  function Ancestors(rows: map<Id, Row>, parentId: Option<Id>): (c: Chain)
    ensures forall x :: x in c.ids ==> x in rows
  {
    Walk(Parents(rows), parentId, {})
  }

  /** Where the walk goes after its last node. */
  function Exit(par: map<Id, Option<Id>>, cur: Option<Id>, ids: seq<Id>): Option<Id>
    requires forall x :: x in ids ==> x in par
  {
    if ids == [] then cur else par[ids[|ids| - 1]]
  }

  /** The walk follows parent links, starts at `cur`, and stops exactly when
      the next link is missing, leads to no row, or returns to a visited node. */
  lemma {:induction false} WalkLinks(par: map<Id, Option<Id>>, cur: Option<Id>, visited: set<Id>)
    ensures var c := Walk(par, cur, visited);
      && (|c.ids| > 0 ==> cur == Some(c.ids[0]))
      && (forall j :: 0 <= j < |c.ids| - 1 ==> par[c.ids[j]] == Some(c.ids[j + 1]))
      && var e := Exit(par, cur, c.ids);
      && (c.cyclic <==> e.Some? && e.value in par)
      && (c.cyclic ==> e.value in visited || e.value in c.ids)
    decreases par.Keys - visited
  {
    if cur.None? || cur.value !in par {
    } else if cur.value in visited {
    } else {
      var x := cur.value;
      WalkLinks(par, par[x], visited + {x});
    }
  }

  /** In a walk that stops, every node whose parent has a row is followed
      by that parent. */
  lemma ChainClosed(par: map<Id, Option<Id>>, cur: Option<Id>)
    requires !Walk(par, cur, {}).cyclic
    ensures var ids := Walk(par, cur, {}).ids;
      forall j :: 0 <= j < |ids| && par[ids[j]].Some? && par[ids[j]].value in par ==>
        j + 1 < |ids| && ids[j + 1] == par[ids[j]].value
  {
    WalkLinks(par, cur, {});
  }

  /** A node is never on the walk that starts at its own parent, unless that
      walk never stops. */
  lemma NotOnOwnChain(par: map<Id, Option<Id>>, x: Id)
    requires x in par
    requires !Walk(par, par[x], {}).cyclic
    ensures x !in Walk(par, par[x], {}).ids
  {
    var ids := Walk(par, par[x], {}).ids;
    WalkLinks(par, par[x], {});
    ChainClosed(par, par[x]);
    forall j | 0 <= j < |ids| ensures ids[j] != x {
      if j + 1 < |ids| {
        assert ids[j + 1] != ids[0];
      }
    }
  }

  /** Nor is any child of that node. */
  lemma ChildNotOnParentChain(par: map<Id, Option<Id>>, x: Id, y: Id)
    requires x in par && y in par && par[y] == Some(x)
    requires !Walk(par, par[x], {}).cyclic
    ensures y !in Walk(par, par[x], {}).ids
  {
    var ids := Walk(par, par[x], {}).ids;
    WalkLinks(par, par[x], {});
    ChainClosed(par, par[x]);
    NotOnOwnChain(par, x);
    forall j | 0 <= j < |ids| ensures ids[j] != y {
      if j + 1 < |ids| {
        assert ids[j + 1] in ids;
      }
    }
  }

  /** One ancestor after the walk has passed it: size shifted by `delta`
      (a missing size counting as 0), date stamped, url cleared because
      `update_node` is called without one. */
  function Bumped(r: Row, delta: int, date: int): (b: Row)
    ensures b.id == r.id && b.kind == r.kind && b.fullRoute == r.fullRoute && b.parentId == r.parentId
    ensures b.size == Some(SizeOr0(r.size) + delta) && b.date == date && b.url == None
  {
    r.(size := Some(SizeOr0(r.size) + delta), date := date, url := None)
  }

  /** Every row on `ids` bumped once, all other rows as they were. */
  function Propagated(rows: map<Id, Row>, ids: seq<Id>, delta: int, date: int): (r: map<Id, Row>)
    ensures r.Keys == rows.Keys
  {
    map k | k in rows :: if k in ids then Bumped(rows[k], delta, date) else rows[k]
  }

  /** The change `update_parent` makes: the new rows and whether the walk
      never stops. */
  function Propagate(rows: map<Id, Row>, parentId: Option<Id>, size: Option<int>, date: int, adding: bool)
    : (map<Id, Row>, bool)
  {
    var c := Ancestors(rows, parentId);
    var child := SizeOr0(size);
    (Propagated(rows, c.ids, if adding then child else -child, date), c.cyclic)
  }

  /** A parent id naming no row leaves every row as it was. */
  lemma MissingParentChangesNothing(rows: map<Id, Row>, parentId: Option<Id>, size: Option<int>, date: int,
                                    adding: bool)
    requires parentId.None? || parentId.value !in rows
    ensures Propagate(rows, parentId, size, date, adding) == (rows, false)
  {
    var child := SizeOr0(size);
    var r := Propagated(rows, [], if adding then child else -child, date);
    assert Ancestors(rows, parentId).ids == [];
    assert forall k :: k in rows ==> r[k] == rows[k];
    assert r == rows;
    assert Ancestors(rows, parentId) == Chain([], false);
  }

  /** The walk of `update_parent` starts at the given parent, follows parent
      links, and ends at the first ancestor without a stored parent; it never
      ends exactly when it comes back to an ancestor it has passed. */
  lemma AncestorsFollowLinks(rows: map<Id, Row>, parentId: Option<Id>)
    ensures var c := Ancestors(rows, parentId);
      && (forall x :: x in c.ids ==> x in rows)
      && (|c.ids| > 0 ==> parentId == Some(c.ids[0]))
      && (forall j :: 0 <= j < |c.ids| - 1 ==> rows[c.ids[j]].parentId == Some(c.ids[j + 1]))
      && (!c.cyclic && |c.ids| > 0 ==>
            var last := rows[c.ids[|c.ids| - 1]];
            last.parentId.None? || last.parentId.value !in rows)
      && (c.cyclic ==>
            && |c.ids| > 0
            && var last := rows[c.ids[|c.ids| - 1]];
            last.parentId.Some? && last.parentId.value in c.ids)
  {
    WalkLinks(Parents(rows), parentId, {});
  }

  /** Propagation changes no parent link, so a second walk from the same
      parent follows the same chain. */
  lemma PropagatedKeepsAncestors(rows: map<Id, Row>, ids: seq<Id>, delta: int, date: int, parentId: Option<Id>)
    ensures Ancestors(Propagated(rows, ids, delta, date), parentId) == Ancestors(rows, parentId)
  {
    PropagatedKeepsParents(rows, ids, delta, date);
  }

  lemma PropagatedKeepsParents(rows: map<Id, Row>, ids: seq<Id>, delta: int, date: int)
    ensures Parents(Propagated(rows, ids, delta, date)) == Parents(rows)
  {
    assert Parents(Propagated(rows, ids, delta, date)) == Parents(rows);
  }

  /** Adding a child's size and then subtracting it again restores every
      size (a missing size reads as 0) and leaves links, kinds and routes as
      they were; only the visited ancestors' date and url change. */
  lemma AddThenSubtractRestores(rows: map<Id, Row>, parentId: Option<Id>, size: Option<int>, d1: int, d2: int)
    ensures var r1 := Propagate(rows, parentId, size, d1, true).0;
      var r2 := Propagate(r1, parentId, size, d2, false).0;
      && r2.Keys == rows.Keys
      && forall k :: k in rows ==>
        && SizeOr0(r2[k].size) == SizeOr0(rows[k].size)
        && r2[k].parentId == rows[k].parentId && r2[k].kind == rows[k].kind && r2[k].fullRoute == rows[k].fullRoute
        && (k !in Ancestors(rows, parentId).ids ==> r2[k] == rows[k])
  {
    var c := Ancestors(rows, parentId);
    PropagatedKeepsAncestors(rows, c.ids, SizeOr0(size), d1, parentId);
  }

  /** The rows on `visited` are bumped, every other row is as in `rows0`. */
  ghost predicate BumpedExactly(rows0: map<Id, Row>, rows: map<Id, Row>, visited: set<Id>, delta: int, date: int)
  {
    && rows.Keys == rows0.Keys
    && forall k :: k in rows ==> rows[k] == if k in visited then Bumped(rows0[k], delta, date) else rows0[k]
  }

  /** The ids of a chain, as a set (`RowIds` and `TreeIds` do the same for
      rows and trees). */
  function Elems(ids: seq<Id>): set<Id>
  {
    set x | x in ids
  }

  /** Where the loop of `update_parent` stands: the rows on `visited` have been
      bumped, `node` is the row stored at `cur`, and the rest of the walk from
      `cur` completes the chain `c` the loop follows. */
  ghost predicate Progress(rows0: map<Id, Row>, c: Chain, delta: int, date: int,
                           rows: map<Id, Row>, visited: set<Id>, cur: Option<Id>, node: Option<Row>)
  {
    && BumpedExactly(rows0, rows, visited, delta, date)
    && var rest := Walk(Parents(rows0), cur, visited);
    && Elems(c.ids) == visited + Elems(rest.ids)
    && c.cyclic == rest.cyclic
    && (node.Some? <==> cur.Some? && cur.value in rows)
    && (node.Some? ==> node.value == rows[cur.value])
  }

  /** The walk starts in `Progress`. */
  lemma ProgressStart(rows0: map<Id, Row>, parentId: Option<Id>, delta: int, date: int, node: Option<Row>)
    requires node.Some? <==> parentId.Some? && parentId.value in rows0
    requires node.Some? ==> node.value == rows0[parentId.value]
    ensures Progress(rows0, Ancestors(rows0, parentId), delta, date, rows0, {}, parentId, node)
  {
  }

  /** Bumping one more node, not visited before, keeps the rows in step. */
  lemma BumpStep(rows0: map<Id, Row>, rows: map<Id, Row>, visited: set<Id>, delta: int, date: int, r: Row)
    requires BumpedExactly(rows0, rows, visited, delta, date)
    requires r.id in rows0 && r.id !in visited && r == rows0[r.id]
    ensures BumpedExactly(rows0, Overwrite(rows, r.id, date, Some(SizeOr0(r.size) + delta), None, r.parentId),
                          visited + {r.id}, delta, date)
  {
  }

  /** The walk from an unvisited node goes on from its parent. */
  lemma WalkStep(par: map<Id, Option<Id>>, x: Id, visited: set<Id>)
    requires x in par && x !in visited
    ensures var c := Walk(par, Some(x), visited);
      var rest := Walk(par, par[x], visited + {x});
      Elems(c.ids) == {x} + Elems(rest.ids) && c.cyclic == rest.cyclic
  {
    var rest := Walk(par, par[x], visited + {x});
    assert Walk(par, Some(x), visited).ids == [x] + rest.ids;
    assert Elems([x] + rest.ids) == {x} + Elems(rest.ids);
  }

  /** Visiting one more node, not visited before, keeps the loop in `Progress`. */
  lemma ProgressStep(rows0: map<Id, Row>, c: Chain, delta: int, date: int,
                     rows: map<Id, Row>, visited: set<Id>, cur: Option<Id>, r: Row,
                     rows': map<Id, Row>, node': Option<Row>)
    requires ValidRows(rows0)
    requires Progress(rows0, c, delta, date, rows, visited, cur, Some(r)) && r.id !in visited
    requires rows' == Overwrite(rows, r.id, date, Some(SizeOr0(r.size) + delta), None, r.parentId)
    requires node'.Some? <==> r.parentId.Some? && r.parentId.value in rows'
    requires node'.Some? ==> node'.value == rows'[r.parentId.value]
    ensures r.id in rows0
    ensures Progress(rows0, c, delta, date, rows', visited + {r.id}, r.parentId, node')
  {
    assert cur == Some(r.id) && r == rows0[r.id];
    BumpStep(rows0, rows, visited, delta, date, r);
    WalkStep(Parents(rows0), r.id, visited);
  }

  /** When the loop stops, the rows are those `update_parent` leaves, and it
      stopped early exactly when the walk never ends. */
  lemma ProgressDone(rows0: map<Id, Row>, parentId: Option<Id>, size: Option<int>, date: int, adding: bool,
                     rows: map<Id, Row>, visited: set<Id>, cur: Option<Id>, node: Option<Row>)
    requires ValidRows(rows0)
    requires Progress(rows0, Ancestors(rows0, parentId), if adding then SizeOr0(size) else -SizeOr0(size), date,
                      rows, visited, cur, node)
    requires node.None? || node.value.id in visited
    ensures rows == Propagate(rows0, parentId, size, date, adding).0
    ensures Ancestors(rows0, parentId).cyclic == node.Some?
  {
  }

  /** One turn of the loop of `update_parent`: write the ancestor back with
      the child's size added or subtracted, then read its parent. */
  method VisitAncestor(store: NodeStore, r: Row, child: int, date: int, adding: bool, ghost delta: int)
    returns (next: Option<Row>)
    requires store.Valid()
    requires delta == if adding then child else -child
    modifies store
    ensures store.Valid()
    ensures store.rows == Overwrite(old(store.rows), r.id, date, Some(SizeOr0(r.size) + delta), None, r.parentId)
    ensures next.Some? <==> r.parentId.Some? && r.parentId.value in store.rows
    ensures next.Some? ==> next.value == store.rows[r.parentId.value]
  {
    var parentSize := SizeOr0(r.size);
    if adding {
      parentSize := parentSize + child;
    } else {
      parentSize := parentSize - child;
    }
    store.UpdateNode(r.id, date, Some(parentSize), None, r.parentId);
    if r.parentId.Some? {
      next := store.ReadNode(r.parentId.value);
    } else {
      next := None;
    }
  }

  /** `update_parent`. The walk keeps the set of nodes it has visited: coming
      back to one of them means the source's loop would run forever, which is
      reported as `diverges` instead. */
  method UpdateParent(store: NodeStore, parentId: Option<Id>, size: Option<int>, date: int, adding: bool)
    returns (diverges: bool)
    requires store.Valid()
    modifies store
    ensures store.Valid()
    ensures (store.rows, diverges) == Propagate(old(store.rows), parentId, size, date, adding)
  {
    ghost var rows0 := store.rows;
    ghost var c := Ancestors(rows0, parentId);
    var child := SizeOr0(size);
    ghost var delta := if adding then child else -child;
    var node: Option<Row> := None;
    if parentId.Some? {
      node := store.ReadNode(parentId.value);
    }
    ProgressStart(rows0, parentId, delta, date, node);
    ghost var cur := parentId;
    var visited: set<Id> := {};
    diverges := false;
    while node.Some?
      invariant store.Valid()
      invariant Progress(rows0, c, delta, date, store.rows, visited, cur, node)
      invariant !diverges
      decreases rows0.Keys - visited
    {
      var r := node.value;
      if r.id in visited {
        diverges := true;
        break;
      }
      ghost var rows := store.rows;
      node := VisitAncestor(store, r, child, date, adding, delta);
      ProgressStep(rows0, c, delta, date, rows, visited, cur, r, store.rows, node);
      visited := visited + {r.id};
      cur := r.parentId;
    }
    ProgressDone(rows0, parentId, size, date, adding, store.rows, visited, cur, node);
  }
}
