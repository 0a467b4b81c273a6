/**
 * The create-then-read and delete-then-read sequences of the endpoint tests,
 * and the same sequence for PATCH, proved from the handlers' contracts alone:
 * what a client sees when it reads back after a write.
 */
module Scenarios {
  import opened Wrappers
  import opened JsValue
  import opened Validation
  import opened Store
  import opened Serialize
  import opened Router

  /** POST a body, then GET the id the response names: a created bookmark
      reads back as the same record. */
  method CreateThenRead(db: BookmarksTable, body: Body, originalUrl: string, isWebUri: Value -> bool, xss: Value -> string)
    returns (created: Response, fetched: Option<Response>)
    requires db.Valid()
    modifies db
    ensures db.Valid()
    ensures created.status == 201 <==> Validate(body, true, isWebUri).Success?
    ensures created.status != 201 ==> created.status == 400 && fetched == None
    ensures created.status == 201 ==>
      && created.body.Record?
      && created.location == Some(LocationOf(originalUrl, created.body.bookmark.id))
      && fetched == Some(Response(200, None, created.body))
  {
    created := PostBookmark(db, body, originalUrl, isWebUri, xss);
    if created.status != 201 {
      return created, None;
    }
    var id := created.body.bookmark.id;
    FindByIdAt(db.rows, |db.rows| - 1);
    var again := GetBookmark(db, id, xss);
    fetched := Some(again);
  }

  /** PATCH an id, then GET it: after a 204 the row reads back with the
      given fields overwritten and the rest unchanged; after a 400 it reads
      back unchanged; after a 404 it is still not found. */
  method UpdateThenRead(db: BookmarksTable, id: int, body: Body, isWebUri: Value -> bool, xss: Value -> string)
    returns (updated: Response, fetched: Response)
    requires db.Valid()
    modifies db
    ensures updated == NotFound <==> FindById(old(db.rows), id).None?
    ensures updated == NotFound ==> fetched == NotFound
    ensures updated.status == 400 ==>
      fetched == Response(200, None, Record(SerializeBookmark(FindById(old(db.rows), id).value, xss)))
    ensures updated.status == 204 ==>
      && Validate(body, false, isWebUri).Success?
      && fetched == Response(200, None, Record(SerializeBookmark(
           Patched(FindById(old(db.rows), id).value, Validate(body, false, isWebUri).value), xss)))
  {
    ghost var before := db.rows;
    updated := PatchBookmark(db, id, body, isWebUri);
    if updated.status == 204 {
      var v := Validate(body, false, isWebUri);
      assert v.Success?;
      UpdateRowsFind(before, id, v.value, id);
    }
    fetched := GetBookmark(db, id, xss);
  }

  /** DELETE an id, then GET it: the second request is a 404 whether or not
      the first found the row. */
  method DeleteThenRead(db: BookmarksTable, id: int, xss: Value -> string)
    returns (deleted: Response, fetched: Response)
    requires db.Valid()
    modifies db
    ensures deleted == NotFound <==> FindById(old(db.rows), id).None?
    ensures deleted != NotFound ==> deleted == Response(204, None, NoContent)
    ensures fetched == NotFound
  {
    deleted := DeleteBookmark(db, id);
    fetched := GetBookmark(db, id, xss);
  }
}
