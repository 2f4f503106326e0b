/** The node store: the `disk_tree` table kept as a map from id to row,
    with the operations the rest of the system performs on it. */
module Nodes {

  datatype Option<T> = None | Some(value: T)

  /** Node ids. Python treats an empty id as "no parent", so ids are non-empty here. */
  type Id = s: string | s != "" witness "n"

  datatype Kind = File | Folder

  /** One row of the table; `date` is a timestamp in seconds. */
  datatype Row = Row(
    id: Id,
    url: Option<string>,
    kind: Kind,
    size: Option<int>,
    date: int,
    fullRoute: string,
    parentId: Option<Id>)

  /** What is shown to clients of a row: everything except the route. */
  datatype View = View(
    id: Id,
    url: Option<string>,
    kind: Kind,
    size: Option<int>,
    date: int,
    parentId: Option<Id>)

  function ViewOf(r: Row): View
  {
    View(r.id, r.url, r.kind, r.size, r.date, r.parentId)
  }

  /** 24 hours, in seconds. */
  const Day: int := 86400

  /** The window of `updates_till_date`: both ends inclusive. */
  predicate InWindow(t: int, d: int)
  {
    d - Day <= t <= d
  }

  /** Every row is stored under its own id. */
  ghost predicate ValidRows(rows: map<Id, Row>)
  {
    forall k :: k in rows ==> rows[k].id == k
  }

  /** The ids of a list of rows. */
  function RowIds(rs: seq<Row>): set<Id>
  {
    set r | r in rs :: r.id
  }

  /** No id occurs twice in a list of rows. */
  predicate DistinctRows(rs: seq<Row>)
  {
    forall i, j :: 0 <= i < j < |rs| ==> rs[i].id != rs[j].id
  }

  /** The effect of `update_node`: only date, url, size and parent change,
      and nothing happens when no row has the id. */
  function Overwrite(rows: map<Id, Row>, id: Id, date: int, size: Option<int>,
                     url: Option<string>, parentId: Option<Id>): (r: map<Id, Row>)
    ensures r.Keys == rows.Keys
    ensures forall k :: k in rows && k != id ==> r[k] == rows[k]
    ensures id in rows ==>
      && r[id].id == rows[id].id && r[id].kind == rows[id].kind && r[id].fullRoute == rows[id].fullRoute
      && r[id].date == date && r[id].size == size && r[id].url == url && r[id].parentId == parentId
  {
    if id in rows then rows[id := rows[id].(date := date, url := url, size := size, parentId := parentId)]
    else rows
  }

  class NodeStore {
    var rows: map<Id, Row>

    ghost predicate Valid()
      reads this
    {
      ValidRows(rows)
    }

    constructor ()
      ensures Valid() && rows == map[]
    {
      rows := map[];
    }

    /** `create_node`: inserts the row; an id already present is a store failure. */
    method CreateNode(r: Row) returns (ok: bool)
      requires Valid()
      modifies this
      ensures Valid()
      ensures ok <==> r.id !in old(rows)
      ensures ok ==> rows == old(rows)[r.id := r]
      ensures !ok ==> rows == old(rows)
    {
      ok := r.id !in rows;
      if ok {
        rows := rows[r.id := r];
      }
    }

    /** `read_node`: the row with the requested id, if any. */
    method ReadNode(id: Id) returns (r: Option<Row>)
      requires Valid()
      ensures r.Some? <==> id in rows
      ensures r.Some? ==> r.value.id == id && r.value == rows[id]
    {
      if id in rows {
        r := Some(rows[id]);
      } else {
        r := None;
      }
    }

    /** `read_children`: every row whose parent is `id`, each once, in no
        particular order. */
    method ReadChildren(id: Id) returns (cs: seq<Row>)
      requires Valid()
      ensures DistinctRows(cs)
      ensures forall j :: 0 <= j < |cs| ==>
        cs[j].id in rows && rows[cs[j].id] == cs[j] && cs[j].parentId == Some(id)
      ensures forall k :: k in rows && rows[k].parentId == Some(id) ==> k in RowIds(cs)
    {
      var keys := rows.Keys;
      cs := [];
      while keys != {}
        invariant keys <= rows.Keys
        invariant DistinctRows(cs)
        invariant forall j :: 0 <= j < |cs| ==>
          cs[j].id in rows && rows[cs[j].id] == cs[j] && cs[j].parentId == Some(id) && cs[j].id !in keys
        invariant forall k :: k in rows && k !in keys && rows[k].parentId == Some(id) ==> k in RowIds(cs)
        decreases keys
      {
        var k :| k in keys;
        if rows[k].parentId == Some(id) {
          cs := cs + [rows[k]];
        }
        keys := keys - {k};
      }
    }

    /** `update_node`: overwrites date, url, size and parent of the row with
        that id; a caller that passes no url stores none (`url` is `None`). */
    method UpdateNode(id: Id, date: int, size: Option<int>, url: Option<string>, parentId: Option<Id>)
      requires Valid()
      modifies this
      ensures Valid()
      ensures rows == Overwrite(old(rows), id, date, size, url, parentId)
    {
      if id in rows {
        rows := rows[id := rows[id].(date := date, url := url, size := size, parentId := parentId)];
      }
    }

    /** `delete_node`: removes that row only. */
    method DeleteNode(id: Id)
      requires Valid()
      modifies this
      ensures Valid()
      ensures rows.Keys == old(rows).Keys - {id}
      ensures forall k :: k in rows ==> rows[k] == old(rows)[k]
    {
      rows := rows - {id};
    }

    /** `updates_till_date`: every row dated within the 24 hours up to `d`. */
    method UpdatesTillDate(d: int) returns (rs: seq<Row>)
      requires Valid()
      ensures DistinctRows(rs)
      ensures forall j :: 0 <= j < |rs| ==>
        rs[j].id in rows && rows[rs[j].id] == rs[j] && InWindow(rs[j].date, d)
      ensures forall k :: k in rows && InWindow(rows[k].date, d) ==> k in RowIds(rs)
    {
      var keys := rows.Keys;
      rs := [];
      while keys != {}
        invariant keys <= rows.Keys
        invariant DistinctRows(rs)
        invariant forall j :: 0 <= j < |rs| ==>
          rs[j].id in rows && rows[rs[j].id] == rs[j] && InWindow(rs[j].date, d) && rs[j].id !in keys
        invariant forall k :: k in rows && k !in keys && InWindow(rows[k].date, d) ==> k in RowIds(rs)
        decreases keys
      {
        var k :| k in keys;
        if InWindow(rows[k].date, d) {
          rs := rs + [rows[k]];
        }
        keys := keys - {k};
      }
    }
  }
}
