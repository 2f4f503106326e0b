/** The request handlers: batch import (a validation pass, then a write
    pass), delete, the tree read and the 24-hour updates list. */
module Router {
  import opened Nodes
  import opened Propagation

  /** One item of an import request. */
  datatype Item = Item(id: Id, url: Option<string>, parentId: Option<Id>, kind: Kind, size: Option<int>)

  datatype Error =
    | DuplicateIds     // "Can't have duplicate ids"
    | SelfParent       // "Parent id can't be the same as id"
    | FolderFields     // "Folder can't have url or size"
    | FileFields       // "Item must have url and size"
    | TypeFault        // a Python TypeError: a size of None compared or subtracted
    | BadParent        // "Parent must exist and be a folder"
    | TypeChange       // "Can't change type"
    | NothingToUpdate  // "Nothing to update"
    | Conflict         // the store refuses to insert an id it already holds
    | NotFound         // 404 "Item not found"
    | Cyclic           // the tree read met a cycle of parent links

  datatype Result<T> = Ok(value: T) | Err(error: Error)

  /** How a request that changes the store ends: done; rejected before any
      write; failed after writes began; or never returning, because a walk up
      the parent links went round a cycle. */
  datatype Outcome = Done | Rejected(error: Error) | Failed(error: Error) | Diverged

  // ---------------------------------------------------------------------------
  // Validation pass of `post_imports`

  /** The ids of a batch, as Python's `set(request_ids)`. */
  function ItemIds(items: seq<Item>): set<Id>
  {
    if items == [] then {} else ItemIds(items[..|items| - 1]) + {items[|items| - 1].id}
  }

  predicate DistinctIds(items: seq<Item>)
  {
    forall i, j :: 0 <= i < j < |items| ==> items[i].id != items[j].id
  }

  lemma {:induction false} InItemIds(items: seq<Item>, x: Id)
    ensures x in ItemIds(items) <==> exists i :: 0 <= i < |items| && items[i].id == x
  {
    if items != [] {
      var init := items[..|items| - 1];
      InItemIds(init, x);
      if x in ItemIds(init) {
        var i :| 0 <= i < |init| && init[i].id == x;
        assert items[i].id == x;
      }
      if exists i :: 0 <= i < |items| && items[i].id == x {
        var i :| 0 <= i < |items| && items[i].id == x;
        if i < |items| - 1 {
          assert init[i].id == x;
        }
      }
    }
  }

  /** Python's duplicate test: the set of ids is as large as the batch
      exactly when no id occurs twice. */
  lemma {:induction false} DistinctIff(items: seq<Item>)
    ensures |ItemIds(items)| <= |items|
    ensures |ItemIds(items)| == |items| <==> DistinctIds(items)
  {
    if items != [] {
      var init := items[..|items| - 1];
      var last := items[|items| - 1];
      DistinctIff(init);
      InItemIds(init, last.id);
      if DistinctIds(items) {
        DistinctSplit(items);
      }
      if |ItemIds(items)| == |items| {
        assert last.id !in ItemIds(init);
        DistinctJoin(items);
      }
    }
  }

  /** A batch without repeats splits into a shorter one and a new last id. */
  lemma DistinctSplit(items: seq<Item>)
    requires items != [] && DistinctIds(items)
    ensures DistinctIds(items[..|items| - 1])
    ensures forall i :: 0 <= i < |items| - 1 ==> items[i].id != items[|items| - 1].id
  {
    var init := items[..|items| - 1];
    forall i, j | 0 <= i < j < |init| ensures init[i].id != init[j].id {
      assert init[i] == items[i] && init[j] == items[j];
    }
  }

  /** A batch without repeats followed by a new id has no repeats. */
  lemma DistinctJoin(items: seq<Item>)
    requires items != [] && DistinctIds(items[..|items| - 1])
    requires forall i :: 0 <= i < |items| - 1 ==> items[i].id != items[|items| - 1].id
    ensures DistinctIds(items)
  {
    var init := items[..|items| - 1];
    forall i, j | 0 <= i < j < |items| ensures items[i].id != items[j].id {
      if j < |items| - 1 {
        assert init[i] == items[i] && init[j] == items[j];
      } else {
        assert init[i] == items[i];
      }
    }
  }

  /** The last position before `n` holding id `p`, or -1: where the batch-local
      map built so far finds `p`. */
  function IndexIn(items: seq<Item>, n: nat, p: Id): (k: int)
    requires n <= |items|
    ensures -1 <= k < n
    ensures k >= 0 ==> items[k].id == p && forall j :: k < j < n ==> items[j].id != p
    ensures k < 0 ==> forall j :: 0 <= j < n ==> items[j].id != p
  {
    if n == 0 then -1 else if items[n - 1].id == p then n - 1 else IndexIn(items, n - 1, p)
  }

  /** The route stored for item `i`: its parent's route (an earlier item of
      the batch first, the store otherwise) followed by `/id`. */
  function Route(rows: map<Id, Row>, items: seq<Item>, i: nat): string
    requires i < |items|
    decreases i
  {
    var it := items[i];
    var own := "/" + it.id;
    if it.parentId.None? then own
    else
      var p := it.parentId.value;
      var k := IndexIn(items, i, p);
      if k >= 0 then Route(rows, items, k) + own
      else if p in rows then rows[p].fullRoute + own
      else own
  }

  /** Whether the parent of item `i` is acceptable: an earlier item of the
      batch that is a folder, or else a stored folder. */
  predicate ParentOk(rows: map<Id, Row>, items: seq<Item>, i: nat, p: Id)
    requires i < |items|
  {
    var k := IndexIn(items, i, p);
    if k >= 0 then items[k].kind == Folder else p in rows && rows[p].kind == Folder
  }

  /** The first rule item `i` breaks, checked in the order of the source. */
  function ItemError(rows: map<Id, Row>, items: seq<Item>, i: nat): Option<Error>
    requires i < |items|
  {
    var it := items[i];
    if it.parentId == Some(it.id) then Some(SelfParent)
    else if it.kind == Folder && (it.url.Some? || it.size.Some?) then Some(FolderFields)
    else if it.kind == File && it.url.None? then Some(FileFields)
    else if it.kind == File && it.size.None? then Some(TypeFault)
    else if it.kind == File && it.size.value <= 0 then Some(FileFields)
    else if it.parentId.Some? && !ParentOk(rows, items, i, it.parentId.value) then Some(BadParent)
    else if it.id in rows && rows[it.id].kind != it.kind then Some(TypeChange)
    else if it.id in rows && rows[it.id].kind == Folder && rows[it.id].parentId == it.parentId
    then Some(NothingToUpdate)
    else None
  }

  /** A batch the validation pass accepts. */
  predicate BatchValid(rows: map<Id, Row>, items: seq<Item>)
  {
    DistinctIds(items) && forall i :: 0 <= i < |items| ==> ItemError(rows, items, i).None?
  }

  /** The row staged for item `i` (an entry of `values_dict`). */
  function StageRow(rows: map<Id, Row>, items: seq<Item>, i: nat, date: int): Row
    requires i < |items|
  {
    var it := items[i];
    Row(it.id, it.url, it.kind, it.size, date, Route(rows, items, i), it.parentId)
  }

  function Staged(rows: map<Id, Row>, items: seq<Item>, date: int): (s: seq<Row>)
    ensures |s| == |items|
  {
    seq(|items|, i requires 0 <= i < |items| => StageRow(rows, items, i, date))
  }

  /** The stored rows of the ids the batch names (`to_update`), as they were
      when the batch was validated. */
  function Existing(rows: map<Id, Row>, items: seq<Item>): map<Id, Row>
  {
    ExistingSoFar(rows, items, |items|)
  }

  /** The stored rows of the ids among the first `n` items. */
  function ExistingSoFar(rows: map<Id, Row>, items: seq<Item>, n: nat): map<Id, Row>
    requires n <= |items|
  {
    map k | k in rows && IndexIn(items, n, k) >= 0 :: rows[k]
  }

  /** What the validation pass hands to the write pass. */
  datatype Plan = Plan(staged: seq<Row>, toUpdate: map<Id, Row>)

  /** What the batch-local map (`values_dict`) holds after `i` items: each id
      seen so far, with the row staged for its last occurrence. */
  ghost predicate BatchSoFar(rows: map<Id, Row>, items: seq<Item>, i: nat, date: int, batch: map<Id, Row>)
    requires i <= |items|
  {
    && (forall k :: k in batch <==> IndexIn(items, i, k) >= 0)
    && forall k :: k in batch ==> batch[k] == StageRow(rows, items, IndexIn(items, i, k), date)
  }

  /** The state of the validation loop after `i` accepted items. */
  ghost predicate Scanned(rows: map<Id, Row>, items: seq<Item>, date: int, i: nat,
                          batch: map<Id, Row>, staged: seq<Row>, toUpdate: map<Id, Row>)
    requires i <= |items|
  {
    && BatchSoFar(rows, items, i, date, batch)
    && |staged| == i
    && (forall j :: 0 <= j < i ==> staged[j] == StageRow(rows, items, j, date))
    && (forall j :: 0 <= j < i ==> ItemError(rows, items, j).None?)
    && toUpdate == ExistingSoFar(rows, items, i)
  }

  lemma ScanStep(rows: map<Id, Row>, items: seq<Item>, date: int, i: nat,
                 batch: map<Id, Row>, staged: seq<Row>, toUpdate: map<Id, Row>, r: Row)
    requires i < |items| && Scanned(rows, items, date, i, batch, staged, toUpdate)
    requires ItemError(rows, items, i).None? && r == StageRow(rows, items, i, date)
    ensures Scanned(rows, items, date, i + 1, batch[items[i].id := r], staged + [r],
                    if items[i].id in rows then toUpdate[items[i].id := rows[items[i].id]] else toUpdate)
  {
    BatchStep(rows, items, date, i, batch, r);
    ExistingStep(rows, items, i);
  }

  lemma BatchStep(rows: map<Id, Row>, items: seq<Item>, date: int, i: nat, batch: map<Id, Row>, r: Row)
    requires i < |items| && BatchSoFar(rows, items, i, date, batch)
    requires r == StageRow(rows, items, i, date)
    ensures BatchSoFar(rows, items, i + 1, date, batch[items[i].id := r])
  {
  }

  lemma ExistingStep(rows: map<Id, Row>, items: seq<Item>, i: nat)
    requires i < |items|
    ensures ExistingSoFar(rows, items, i + 1)
      == if items[i].id in rows then ExistingSoFar(rows, items, i)[items[i].id := rows[items[i].id]]
         else ExistingSoFar(rows, items, i)
  {
  }

  lemma ScanDone(rows: map<Id, Row>, items: seq<Item>, date: int,
                 batch: map<Id, Row>, staged: seq<Row>, toUpdate: map<Id, Row>)
    requires Scanned(rows, items, date, |items|, batch, staged, toUpdate)
    ensures staged == Staged(rows, items, date) && toUpdate == Existing(rows, items)
    ensures DistinctIds(items) ==> BatchValid(rows, items)
  {
  }

  /** The loop stops at the first item that breaks a rule. */
  lemma ScanFails(rows: map<Id, Row>, items: seq<Item>, i: nat, e: Error)
    requires i < |items| && ItemError(rows, items, i) == Some(e)
    requires forall j :: 0 <= j < i ==> ItemError(rows, items, j).None?
    ensures !BatchValid(rows, items)
    ensures
      exists k :: 0 <= k < |items| && ItemError(rows, items, k) == Some(e)
        && forall j :: 0 <= j < k ==> ItemError(rows, items, j).None?
  {
  }

  /** The checks of one item of the validation loop. On success it yields
      the staged row and the stored row of the same id, if there is one. */
  method CheckItem(store: NodeStore, items: seq<Item>, i: nat, date: int, batch: map<Id, Row>)
    returns (res: Result<Row>, existing: Option<Row>)
    requires store.Valid() && i < |items|
    requires BatchSoFar(store.rows, items, i, date, batch)
    ensures res.Err? <==> ItemError(store.rows, items, i).Some?
    ensures res.Err? ==> ItemError(store.rows, items, i) == Some(res.error)
    ensures res.Ok? ==> res.value == StageRow(store.rows, items, i, date)
    ensures existing.Some? <==> items[i].id in store.rows
    ensures existing.Some? ==> existing.value == store.rows[items[i].id]
  {
    var item := items[i];
    existing := store.ReadNode(item.id);
    if item.parentId == Some(item.id) {
      return Err(SelfParent), existing;
    }
    if item.kind == Folder {
      if item.url.Some? || item.size.Some? {
        return Err(FolderFields), existing;
      }
    } else if item.url.None? {
      return Err(FileFields), existing;
    } else if item.size.None? {
      // `None <= 0` raises before anything is written
      return Err(TypeFault), existing;
    } else if item.size.value <= 0 {
      return Err(FileFields), existing;
    }
    var route := "/" + item.id;
    if item.parentId.Some? {
      var p := item.parentId.value;
      if p in batch {
        if batch[p].kind != Folder {
          return Err(BadParent), existing;
        }
        route := batch[p].fullRoute + route;
      } else {
        var parent := store.ReadNode(p);
        if parent.None? || parent.value.kind != Folder {
          return Err(BadParent), existing;
        }
        route := parent.value.fullRoute + route;
      }
    }
    if existing.Some? {
      if existing.value.kind != item.kind {
        return Err(TypeChange), existing;
      }
      if existing.value.kind == Folder && existing.value.parentId == item.parentId {
        return Err(NothingToUpdate), existing;
      }
    }
    res := Ok(Row(item.id, item.url, item.kind, item.size, date, route, item.parentId));
  }

  /** The validation loop of `post_imports`. It only reads the store. */
  method Validate(store: NodeStore, items: seq<Item>, date: int) returns (res: Result<Plan>)
    requires store.Valid()
    ensures !DistinctIds(items) ==> res == Err(DuplicateIds)
    ensures res.Ok? <==> BatchValid(store.rows, items)
    ensures DistinctIds(items) && res.Err? ==>
      exists i :: 0 <= i < |items| && ItemError(store.rows, items, i) == Some(res.error)
        && forall j :: 0 <= j < i ==> ItemError(store.rows, items, j).None?
    ensures res.Ok? ==> res.value == Plan(Staged(store.rows, items, date), Existing(store.rows, items))
  {
    DistinctIff(items);
    if |ItemIds(items)| != |items| {
      return Err(DuplicateIds);
    }
    ghost var rows := store.rows;
    var batch: map<Id, Row> := map[];
    var staged: seq<Row> := [];
    var toUpdate: map<Id, Row> := map[];
    for i := 0 to |items|
      invariant Scanned(rows, items, date, i, batch, staged, toUpdate)
    {
      var r, existing := CheckItem(store, items, i, date, batch);
      if r.Err? {
        ScanFails(rows, items, i, r.error);
        return Err(r.error);
      }
      ScanStep(rows, items, date, i, batch, staged, toUpdate, r.value);
      if existing.Some? {
        toUpdate := toUpdate[items[i].id := existing.value];
      }
      batch := batch[items[i].id := r.value];
      staged := staged + [r.value];
    }
    ScanDone(rows, items, date, batch, staged, toUpdate);
    return Ok(Plan(staged, toUpdate));
  }

  // ---------------------------------------------------------------------------
  // Write pass of `post_imports`

  function Settle(p: (map<Id, Row>, bool)): (map<Id, Row>, Outcome)
  {
    (p.0, if p.1 then Diverged else Done)
  }

  /** A new node: insert the staged row, then grow its ancestors by its size. */
  function Create(rows: map<Id, Row>, v: Row): (map<Id, Row>, Outcome)
  {
    if v.id in rows then (rows, Failed(Conflict))
    else Settle(Propagate(rows[v.id := v], v.parentId, v.size, v.date, true))
  }

  /** A stored folder under a new parent, driven by its validation-time row
      `snap`: the old ancestors lose `snap`'s size (stamped with `snap`'s own
      date), the row is rewritten from `snap` with only the parent replaced,
      then the new ancestors gain `snap`'s size. */
  function FolderMove(rows: map<Id, Row>, v: Row, snap: Row): (map<Id, Row>, Outcome)
  {
    var (r1, d1) := Propagate(rows, snap.parentId, snap.size, snap.date, false);
    if d1 then (r1, Diverged)
    else
      var r2 := Overwrite(r1, snap.id, snap.date, snap.size, snap.url, v.parentId);
      Settle(Propagate(r2, v.parentId, snap.size, v.date, true))
  }

  /** A stored file re-imported: the row is rewritten from the item; under the
      same parent the ancestors change by new minus old size; under a new
      parent the old ancestors lose the NEW size and the new ones gain it. */
  function FileUpdate(rows: map<Id, Row>, v: Row, snap: Row): (map<Id, Row>, Outcome)
  {
    var r1 := Overwrite(rows, v.id, v.date, v.size, v.url, v.parentId);
    if v.parentId == snap.parentId then
      if v.size.None? || snap.size.None? then (r1, Failed(TypeFault))
      else Settle(Propagate(r1, v.parentId, Some(v.size.value - snap.size.value), v.date, true))
    else
      var (r2, d2) := Propagate(r1, snap.parentId, v.size, v.date, false);
      if d2 then (r2, Diverged)
      else Settle(Propagate(r2, v.parentId, v.size, v.date, true))
  }

  /** One turn of the write loop. */
  function ApplyItem(rows: map<Id, Row>, v: Row, toUpdate: map<Id, Row>): (map<Id, Row>, Outcome)
  {
    if v.id in toUpdate then
      if v.kind == Folder then FolderMove(rows, v, toUpdate[v.id]) else FileUpdate(rows, v, toUpdate[v.id])
    else Create(rows, v)
  }

  /** The whole write loop, stopping at the first item that does not finish. */
  function ApplyAll(rows: map<Id, Row>, staged: seq<Row>, toUpdate: map<Id, Row>): (r: (map<Id, Row>, Outcome))
    ensures !r.1.Rejected?
    decreases |staged|
  {
    if staged == [] then (rows, Done)
    else
      var (r1, o) := ApplyItem(rows, staged[0], toUpdate);
      if o != Done then (r1, o) else ApplyAll(r1, staged[1..], toUpdate)
  }

  method WriteItem(store: NodeStore, v: Row, toUpdate: map<Id, Row>) returns (o: Outcome)
    requires store.Valid() && ValidRows(toUpdate)
    modifies store
    ensures store.Valid()
    ensures (store.rows, o) == ApplyItem(old(store.rows), v, toUpdate)
  {
    if v.id in toUpdate {
      var snap := toUpdate[v.id];
      if v.kind == Folder {
        var d := UpdateParent(store, snap.parentId, snap.size, snap.date, false);
        if d {
          return Diverged;
        }
        store.UpdateNode(snap.id, snap.date, snap.size, snap.url, v.parentId);
        d := UpdateParent(store, v.parentId, snap.size, v.date, true);
        return if d then Diverged else Done;
      } else {
        store.UpdateNode(v.id, v.date, v.size, v.url, v.parentId);
        if v.parentId == snap.parentId {
          if v.size.None? || snap.size.None? {
            return Failed(TypeFault);
          }
          var d := UpdateParent(store, v.parentId, Some(v.size.value - snap.size.value), v.date, true);
          return if d then Diverged else Done;
        } else {
          var d := UpdateParent(store, snap.parentId, v.size, v.date, false);
          if d {
            return Diverged;
          }
          d := UpdateParent(store, v.parentId, v.size, v.date, true);
          return if d then Diverged else Done;
        }
      }
    } else {
      var ok := store.CreateNode(v);
      if !ok {
        return Failed(Conflict);
      }
      var d := UpdateParent(store, v.parentId, v.size, v.date, true);
      return if d then Diverged else Done;
    }
  }

  /** `post_imports`: a rejected batch writes nothing; an accepted one is
      written item by item, in order. */
  method PostImports(store: NodeStore, items: seq<Item>, date: int) returns (res: Outcome)
    requires store.Valid()
    modifies store
    ensures store.Valid()
    ensures res.Rejected? <==> !BatchValid(old(store.rows), items)
    ensures res.Rejected? ==> store.rows == old(store.rows)
    ensures !res.Rejected? ==>
      (store.rows, res) == ApplyAll(old(store.rows), Staged(old(store.rows), items, date), Existing(old(store.rows), items))
  {
    var v := Validate(store, items, date);
    if v.Err? {
      return Rejected(v.error);
    }
    var plan := v.value;
    ghost var target := ApplyAll(store.rows, plan.staged, plan.toUpdate);
    assert ValidRows(plan.toUpdate);
    res := Done;
    for i := 0 to |plan.staged|
      invariant store.Valid()
      invariant ApplyAll(store.rows, plan.staged[i..], plan.toUpdate) == target
    {
      var o := WriteItem(store, plan.staged[i], plan.toUpdate);
      assert plan.staged[i..][1..] == plan.staged[i + 1..];
      if o != Done {
        return o;
      }
    }
  }

  // ---------------------------------------------------------------------------
  // `delete_delete_id`

  /** The effect of deleting `id` at `date`: a missing id is a 404; otherwise
      the ancestors lose the node's size and only that row goes. */
  function Removal(rows: map<Id, Row>, id: Id, date: int): (map<Id, Row>, Outcome)
  {
    if id !in rows then (rows, Rejected(NotFound))
    else
      var n := rows[id];
      if n.parentId.Some? then
        var (r1, d) := Propagate(rows, n.parentId, n.size, date, false);
        if d then (r1, Diverged) else (r1 - {id}, Done)
      else (rows - {id}, Done)
  }

  method DeleteById(store: NodeStore, id: Id, date: int) returns (res: Outcome)
    requires store.Valid()
    modifies store
    ensures store.Valid()
    ensures (store.rows, res) == Removal(old(store.rows), id, date)
  {
    var node := store.ReadNode(id);
    if node.None? {
      return Rejected(NotFound);
    }
    if node.value.parentId.Some? {
      var d := UpdateParent(store, node.value.parentId, node.value.size, date, false);
      if d {
        return Diverged;
      }
    }
    ghost var before := store.rows;
    store.DeleteNode(id);
    assert store.rows == before - {id};
    res := Done;
  }

  // ---------------------------------------------------------------------------
  // `get_nodes_id` and `get_updates`

  /** A node of the returned tree with its children. */
  datatype Tree = Tree(view: View, children: seq<Tree>)

  /** The ids of a list of trees, as `RowIds` is for rows. */
  function TreeIds(ts: seq<Tree>): set<Id>
  {
    set t | t in ts :: t.view.id
  }

  /** The ids of the rows whose parent is `id`. */
  function ChildIds(rows: map<Id, Row>, id: Id): set<Id>
  {
    set k | k in rows && rows[k].parentId == Some(id)
  }

  /** `t` shows a stored row, its children are exactly that row's children,
      each once, and each child is such a tree too. */
  ghost predicate IsTreeOf(rows: map<Id, Row>, t: Tree)
    decreases t
  {
    && t.view.id in rows
    && t.view == ViewOf(rows[t.view.id])
    && TreeIds(t.children) == ChildIds(rows, t.view.id)
    && (forall i, j :: 0 <= i < j < |t.children| ==> t.children[i].view.id != t.children[j].view.id)
    && forall c :: c in t.children ==> IsTreeOf(rows, c)
  }

  /** A cycle of parent links: every node is stored, each one's parent is
      the node before it, and the first one's parent is the last. */
  ghost predicate IsCycle(rows: map<Id, Row>, cyc: seq<Id>)
  {
    && |cyc| > 0
    && (forall i :: 0 <= i < |cyc| ==> cyc[i] in rows)
    && (forall i :: 0 <= i < |cyc| - 1 ==> rows[cyc[i + 1]].parentId == Some(cyc[i]))
    && rows[cyc[0]].parentId == Some(cyc[|cyc| - 1])
  }

  /** `x` lies on a cycle of parent links. */
  ghost predicate OnCycle(rows: map<Id, Row>, x: Id)
  {
    exists cyc :: IsCycle(rows, cyc) && x in cyc
  }

  /** A finite tree of stored rows never reaches a node of a cycle: that
      node's successor on the cycle would be one of its children again. */
  lemma {:induction false} TreeOffCycles(rows: map<Id, Row>, t: Tree, cyc: seq<Id>)
    requires IsTreeOf(rows, t) && IsCycle(rows, cyc)
    ensures t.view.id !in cyc
    decreases t
  {
    if t.view.id in cyc {
      var k :| 0 <= k < |cyc| && cyc[k] == t.view.id;
      var next := if k + 1 < |cyc| then cyc[k + 1] else cyc[0];
      assert next in ChildIds(rows, t.view.id);
      var c :| c in t.children && c.view.id == next;
      TreeOffCycles(rows, c, cyc);
      assert false;
    }
  }

  /** A walk that starts inside a set of stored nodes whose parents all lie
      in that set never stops. */
  lemma {:induction false} ClosedWalkEndless(par: map<Id, Option<Id>>, s: set<Id>, cur: Option<Id>, visited: set<Id>)
    requires s <= par.Keys
    requires forall x :: x in s ==> par[x].Some? && par[x].value in s
    requires cur.Some? && cur.value in s
    ensures Walk(par, cur, visited).cyclic
    decreases par.Keys - visited
  {
    var x := cur.value;
    if x !in visited {
      ClosedWalkEndless(par, s, par[x], visited + {x});
    }
  }

  /** On a cycle, the walk of `update_parent` from any of its nodes never
      stops. */
  lemma CycleMeansEndlessWalk(rows: map<Id, Row>, cyc: seq<Id>, i: nat)
    requires IsCycle(rows, cyc) && i < |cyc|
    ensures Ancestors(rows, Some(cyc[i])).cyclic
  {
    var s := set x | x in cyc;
    forall x | x in s ensures Parents(rows)[x].Some? && Parents(rows)[x].value in s {
      var k :| 0 <= k < |cyc| && cyc[k] == x;
      if k == 0 {
        assert cyc[|cyc| - 1] in s;
      } else {
        assert rows[cyc[k]].parentId == Some(cyc[k - 1]);
        assert cyc[k - 1] in s;
      }
    }
    ClosedWalkEndless(Parents(rows), s, Some(cyc[i]), {});
  }

  /** `path` runs down the parent links from its first node to the parent
      of `r`. */
  ghost predicate DescendsTo(rows: map<Id, Row>, path: seq<Id>, r: Row)
  {
    && (forall i :: 0 <= i < |path| ==> path[i] in rows)
    && (forall i :: 0 <= i < |path| - 1 ==> rows[path[i + 1]].parentId == Some(path[i]))
    && (|path| > 0 ==> r.parentId == Some(path[|path| - 1]))
  }

  /** A child of the last node of `below` that is already on it closes a
      cycle. Each row has one parent, so on a path without repeats that
      child can only be the first node, and the cycle is the whole path. */
  lemma CycleFound(rows: map<Id, Row>, below: seq<Id>, c: Row, m: nat)
    requires |below| > 0 && Distinct(below) && forall i :: 0 <= i < |below| ==> below[i] in rows
    requires forall i :: 0 < i < |below| ==> rows[below[i]].parentId == Some(below[i - 1])
    requires m < |below| && below[m] == c.id && rows[c.id] == c
    requires c.parentId == Some(below[|below| - 1])
    ensures m == 0 && IsCycle(rows, below)
  {
    var last := below[|below| - 1];
    forall j | 0 < j < |below| ensures rows[below[j]].parentId != Some(last) {
      assert below[j - 1] != last;
    }
  }

  /** Going one level down: the path extended by `r` is still made of
      distinct stored nodes, each the parent of the next, and starts where
      `path` starts. */
  lemma PathBelow(rows: map<Id, Row>, path: seq<Id>, r: Row)
    requires r.id in rows && rows[r.id] == r && r.id !in path && DescendsTo(rows, path, r) && Distinct(path)
    ensures var below := path + [r.id];
      && Distinct(below) && (forall i :: 0 <= i < |below| ==> below[i] in rows)
      && (forall i :: 0 <= i < |below| - 1 ==> rows[below[i + 1]].parentId == Some(below[i]))
      && (forall i :: 0 < i < |below| ==> rows[below[i]].parentId == Some(below[i - 1]))
      && below[0] == (if path == [] then r.id else path[0])
      && (set x | x in below) == (set x | x in path) + {r.id}
  {
    var below := path + [r.id];
    forall i | 0 < i < |below| ensures rows[below[i]].parentId == Some(below[i - 1]) {
      if i < |path| {
        assert below[i] == path[(i - 1) + 1] && below[i - 1] == path[i - 1];
      } else {
        assert below[i] == r.id && below[i - 1] == path[|path| - 1];
      }
    }
  }

  /** Trees made one for one from rows show the same ids. */
  lemma SameIds(kids: seq<Tree>, cs: seq<Row>)
    requires |kids| == |cs| && forall m :: 0 <= m < |cs| ==> kids[m].view.id == cs[m].id
    ensures TreeIds(kids) == RowIds(cs)
  {
    forall x ensures x in TreeIds(kids) <==> x in RowIds(cs) {
      if x in RowIds(cs) {
        var c :| c in cs && c.id == x;
        var m :| 0 <= m < |cs| && cs[m] == c;
        assert kids[m] in kids;
      }
    }
  }

  /** `check_children`: fill in the children of `r`, recursively. `path`
      holds the ids above `r`; meeting one of them again means the parent
      links form a cycle, reported as `Cyclic`. */
  method CheckChildren(store: NodeStore, r: Row, path: seq<Id>) returns (res: Result<Tree>)
    requires store.Valid() && r.id in store.rows && store.rows[r.id] == r && r.id !in path
    requires DescendsTo(store.rows, path, r) && Distinct(path)
    ensures res.Ok? ==> IsTreeOf(store.rows, res.value) && res.value.view == ViewOf(r)
    ensures res.Err? ==> res.error == Cyclic && OnCycle(store.rows, if path == [] then r.id else path[0])
    decreases store.rows.Keys - (set x | x in path)
  {
    var cs := store.ReadChildren(r.id);
    var kids: seq<Tree> := [];
    var below := path + [r.id];
    PathBelow(store.rows, path, r);
    for j := 0 to |cs|
      invariant |kids| == j
      invariant forall m :: 0 <= m < j ==> kids[m].view.id == cs[m].id && IsTreeOf(store.rows, kids[m])
    {
      var c := cs[j];
      if c.id in below {
        ghost var m :| 0 <= m < |below| && below[m] == c.id;
        CycleFound(store.rows, below, c, m);
        assert below[0] in below;
        return Err(Cyclic);
      }
      var sub := CheckChildren(store, c, below);
      if sub.Err? {
        return sub;
      }
      kids := kids + [sub.value];
    }
    SameIds(kids, cs);
    res := Ok(Tree(ViewOf(r), kids));
  }

  /** `get_nodes_id`: the tree under `id`, or 404. The read of a stored id
      fails exactly when the id lies on a cycle of parent links. */
  method GetNode(store: NodeStore, id: Id) returns (res: Result<Tree>)
    requires store.Valid()
    ensures id !in store.rows ==> res == Err(NotFound)
    ensures res.Ok? ==> IsTreeOf(store.rows, res.value) && res.value.view == ViewOf(store.rows[id])
    ensures res.Err? ==> (res.error == NotFound && id !in store.rows) || (res.error == Cyclic && OnCycle(store.rows, id))
    ensures res.Ok? ==> !OnCycle(store.rows, id)
  {
    var node := store.ReadNode(id);
    if node.None? {
      return Err(NotFound);
    }
    res := CheckChildren(store, node.value, []);
    if res.Ok? {
      forall cyc | IsCycle(store.rows, cyc) ensures id !in cyc {
        TreeOffCycles(store.rows, res.value, cyc);
      }
    }
  }

  /** `get_updates`: every node dated in the 24 hours up to `d`, each once. */
  method GetUpdates(store: NodeStore, d: int) returns (items: seq<View>)
    requires store.Valid()
    ensures forall j :: 0 <= j < |items| ==>
      items[j].id in store.rows && items[j] == ViewOf(store.rows[items[j].id]) && InWindow(items[j].date, d)
    ensures forall k :: k in store.rows && InWindow(store.rows[k].date, d) ==>
      exists j :: 0 <= j < |items| && items[j].id == k
    ensures forall i, j :: 0 <= i < j < |items| ==> items[i].id != items[j].id
  {
    var nodes := store.UpdatesTillDate(d);
    items := seq(|nodes|, j requires 0 <= j < |nodes| => ViewOf(nodes[j]));
    forall k | k in store.rows && InWindow(store.rows[k].date, d)
      ensures exists j :: 0 <= j < |items| && items[j].id == k
    {
      assert k in RowIds(nodes);
      var n :| n in nodes && n.id == k;
      var j :| 0 <= j < |nodes| && nodes[j] == n;
      assert items[j].id == k;
    }
  }
}
