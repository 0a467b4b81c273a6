/**
 * The bookmarks table behind `BookmarksService`: rows in storage order, each
 * with an id that the table assigns on insert. The service's knex queries
 * become operations on a sequence of rows.
 */
module Store {
  import opened Wrappers
  import opened JsValue

  /** A row of the bookmarks table. A column that an insert did not set holds `Null`. */
  datatype Bookmark = Bookmark(id: nat, title: Value, url: Value, description: Value, rating: Value)

  /** The columns an insert or update may set, by name. */
  type Columns = map<string, Value>

  predicate IdsDistinct(rows: seq<Bookmark>)
  {
    forall i, j :: 0 <= i < j < |rows| ==> rows[i].id != rows[j].id
  }

  /** `select ... where { id } .first()`: the first row with that id. */
  function FindById(rows: seq<Bookmark>, id: int): (r: Option<Bookmark>)
    ensures r.None? <==> forall i :: 0 <= i < |rows| ==> rows[i].id != id
    ensures r.Some? ==> r.value in rows && r.value.id == id
  {
    if rows == [] then None
    else if rows[0].id == id then Some(rows[0])
    else
      var r := FindById(rows[1..], id);
      assert forall i :: 1 <= i < |rows| ==> rows[i] == rows[1..][i - 1];
      r
  }

  /** With distinct ids, the row found is the one at the id's position. */
  lemma FindByIdAt(rows: seq<Bookmark>, k: nat)
    requires IdsDistinct(rows) && k < |rows|
    ensures FindById(rows, rows[k].id) == Some(rows[k])
  {
  }

  /** The value an insert stores in a column. */
  function Column(fields: Columns, name: string): Value
  {
    if name in fields then fields[name] else Null
  }

  /** The row `insert(fields).returning('*')` creates under a fresh id. */
  function NewRow(id: nat, fields: Columns): Bookmark
  {
    Bookmark(id, Column(fields, "title"), Column(fields, "url"), Column(fields, "description"), Column(fields, "rating"))
  }

  /** A row after `update(fields)`: the given columns overwritten, the id and
      every other column kept. */
  function Patched(b: Bookmark, fields: Columns): Bookmark
  {
    Bookmark(b.id,
      if "title" in fields then fields["title"] else b.title,
      if "url" in fields then fields["url"] else b.url,
      if "description" in fields then fields["description"] else b.description,
      if "rating" in fields then fields["rating"] else b.rating)
  }

  /** `where({ id }).update(fields)` over the whole table. */
  function UpdateRows(rows: seq<Bookmark>, id: int, fields: Columns): seq<Bookmark>
  {
    if rows == [] then []
    else [if rows[0].id == id then Patched(rows[0], fields) else rows[0]] + UpdateRows(rows[1..], id, fields)
  }

  /** `where({ id }).delete()` over the whole table. */
  function DeleteRows(rows: seq<Bookmark>, id: int): seq<Bookmark>
  {
    if rows == [] then []
    else (if rows[0].id == id then [] else [rows[0]]) + DeleteRows(rows[1..], id)
  }

  /** An update rewrites the rows with that id in place and keeps every other
      row, the order and every id. */
  lemma {:induction false} UpdateRowsAt(rows: seq<Bookmark>, id: int, fields: Columns)
    ensures var r := UpdateRows(rows, id, fields);
      && |r| == |rows|
      && forall i :: 0 <= i < |rows| ==>
           r[i] == (if rows[i].id == id then Patched(rows[i], fields) else rows[i]) && r[i].id == rows[i].id
  {
    if rows != [] {
      UpdateRowsAt(rows[1..], id, fields);
      var r := UpdateRows(rows, id, fields);
      forall i | 1 <= i < |rows|
        ensures r[i] == (if rows[i].id == id then Patched(rows[i], fields) else rows[i])
      {
        assert r[i] == UpdateRows(rows[1..], id, fields)[i - 1];
        assert rows[1..][i - 1] == rows[i];
      }
    }
  }

  /** An update keeps the ids distinct. */
  lemma UpdateRowsDistinct(rows: seq<Bookmark>, id: int, fields: Columns)
    requires IdsDistinct(rows)
    ensures IdsDistinct(UpdateRows(rows, id, fields))
  {
    var r := UpdateRows(rows, id, fields);
    UpdateRowsAt(rows, id, fields);
    forall i, j | 0 <= i < j < |r| ensures r[i].id != r[j].id {
      assert r[i].id == rows[i].id && r[j].id == rows[j].id;
    }
  }

  /** After an update the row with that id is patched and every other id
      finds the same row as before. */
  lemma UpdateRowsFind(rows: seq<Bookmark>, id: int, fields: Columns, other: int)
    requires IdsDistinct(rows)
    ensures var r := UpdateRows(rows, id, fields);
      && IdsDistinct(r)
      && (FindById(rows, id).None? ==> r == rows)
      && (FindById(rows, id).Some? ==> FindById(r, id) == Some(Patched(FindById(rows, id).value, fields)))
      && (other != id ==> FindById(r, other) == FindById(rows, other))
  {
    var r := UpdateRows(rows, id, fields);
    UpdateRowsAt(rows, id, fields);
    UpdateRowsDistinct(rows, id, fields);
    if FindById(rows, id).None? {
      assert forall i :: 0 <= i < |rows| ==> r[i] == rows[i];
    } else {
      var k :| 0 <= k < |rows| && rows[k] == FindById(rows, id).value;
      FindByIdAt(rows, k);
      FindByIdAt(r, k);
    }
    if other != id {
      var before := FindById(rows, other);
      if before.Some? {
        var k :| 0 <= k < |rows| && rows[k] == before.value;
        FindByIdAt(rows, k);
        FindByIdAt(r, k);
      }
    }
  }

  /** A delete keeps exactly the rows whose id differs. */
  lemma {:induction false} DeleteRowsMembers(rows: seq<Bookmark>, id: int)
    ensures forall b :: b in DeleteRows(rows, id) <==> b in rows && b.id != id
  {
    if rows != [] {
      DeleteRowsMembers(rows[1..], id);
      assert forall b :: b in rows <==> b == rows[0] || b in rows[1..];
    }
  }

  /** A delete keeps the ids distinct. */
  lemma {:induction false} DeleteRowsDistinct(rows: seq<Bookmark>, id: int)
    requires IdsDistinct(rows)
    ensures IdsDistinct(DeleteRows(rows, id))
  {
    if rows != [] {
      var tail := DeleteRows(rows[1..], id);
      DeleteRowsDistinct(rows[1..], id);
      DeleteRowsMembers(rows[1..], id);
      if rows[0].id != id {
        var r := [rows[0]] + tail;
        forall i, j | 0 <= i < j < |r| ensures r[i].id != r[j].id {
          if i == 0 {
            assert r[j] in rows[1..];
            var k :| 0 <= k < |rows[1..]| && rows[1..][k] == r[j];
            assert rows[k + 1] == r[j];
          } else {
            assert r[i] == tail[i - 1] && r[j] == tail[j - 1];
          }
        }
      }
    }
  }

  /** A delete of an id that is absent changes nothing; of an id that is
      present, with distinct ids, removes one row. */
  lemma {:induction false} DeleteRowsLength(rows: seq<Bookmark>, id: int)
    ensures FindById(rows, id).None? ==> DeleteRows(rows, id) == rows
    ensures IdsDistinct(rows) && FindById(rows, id).Some? ==> |DeleteRows(rows, id)| == |rows| - 1
  {
    if rows != [] {
      DeleteRowsLength(rows[1..], id);
      if rows[0].id == id && IdsDistinct(rows) {
        assert FindById(rows[1..], id).None? by {
          forall i | 0 <= i < |rows[1..]| ensures rows[1..][i].id != id {
            assert rows[1..][i] == rows[i + 1];
          }
        }
      }
      if IdsDistinct(rows) {
        assert IdsDistinct(rows[1..]) by {
          forall i, j | 0 <= i < j < |rows[1..]| ensures rows[1..][i].id != rows[1..][j].id {
            assert rows[1..][i] == rows[i + 1] && rows[1..][j] == rows[j + 1];
          }
        }
      }
    }
  }

  /** After a delete no row has that id and every other id finds the same row. */
  lemma DeleteRowsFind(rows: seq<Bookmark>, id: int, other: int)
    requires IdsDistinct(rows)
    ensures FindById(DeleteRows(rows, id), id).None?
    ensures other != id ==> FindById(DeleteRows(rows, id), other) == FindById(rows, other)
  {
    var r := DeleteRows(rows, id);
    DeleteRowsMembers(rows, id);
    DeleteRowsDistinct(rows, id);
    assert forall i :: 0 <= i < |r| ==> r[i] in r;
    if other != id {
      var before := FindById(rows, other);
      if before.Some? {
        var k :| 0 <= k < |rows| && rows[k] == before.value;
        FindByIdAt(rows, k);
        var j :| 0 <= j < |r| && r[j] == before.value;
        FindByIdAt(r, j);
      } else {
        assert forall i :: 0 <= i < |rows| ==> rows[i] in rows;
      }
    }
  }

  /** The table that `BookmarksService` reads and writes. */
  class BookmarksTable {
    var rows: seq<Bookmark>
    var nextId: nat

    /** Ids are distinct and below the next id the table will assign. */
    ghost predicate Valid()
      reads this
    {
      IdsDistinct(rows) && forall i :: 0 <= i < |rows| ==> rows[i].id < nextId
    }

    constructor ()
      ensures Valid() && rows == [] && nextId == 1
    {
      rows := [];
      nextId := 1;
    }

    /** `getAllBookmarks`: every row, in storage order. */
    method GetAllBookmarks() returns (all: seq<Bookmark>)
      ensures |all| == |rows| && forall i :: 0 <= i < |all| ==> all[i] == rows[i]
    {
      all := rows;
    }

    /** `getBookmarkByID`: the row with that id, or none. */
    method GetBookmarkById(id: int) returns (b: Option<Bookmark>)
      ensures b == FindById(rows, id)
      ensures b.None? <==> forall i :: 0 <= i < |rows| ==> rows[i].id != id
      ensures b.Some? ==> b.value in rows && b.value.id == id
    {
      b := FindById(rows, id);
    }

    /** `addBookmark`: insert a row under a fresh id and return it. */
    method AddBookmark(fields: Columns) returns (b: Bookmark)
      requires Valid()
      modifies this
      ensures Valid()
      ensures b == NewRow(old(nextId), fields) && rows == old(rows) + [b] && nextId == old(nextId) + 1
      ensures forall i :: 0 <= i < |old(rows)| ==> old(rows)[i].id != b.id
    {
      b := NewRow(nextId, fields);
      rows := rows + [b];
      nextId := nextId + 1;
    }

    /** `updateBookmark`: overwrite the given columns of the row with that id. */
    method UpdateBookmark(id: int, fields: Columns)
      requires Valid()
      modifies this
      ensures Valid()
      ensures rows == UpdateRows(old(rows), id, fields) && nextId == old(nextId)
    {
      UpdateRowsAt(rows, id, fields);
      rows := UpdateRows(rows, id, fields);
    }

    /** `deleteBookmark`: remove the row with that id. */
    method DeleteBookmark(id: int)
      requires Valid()
      modifies this
      ensures Valid()
      ensures rows == DeleteRows(old(rows), id) && nextId == old(nextId)
    {
      DeleteRowsMembers(rows, id);
      DeleteRowsDistinct(rows, id);
      rows := DeleteRows(rows, id);
      assert forall i :: 0 <= i < |rows| ==> rows[i] in old(rows);
    }
  }
}
