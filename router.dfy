/**
 * The bookmarks router: one handler per verb and route. Each is a short
 * pipeline over the table (`req.app.get('db')`): an existence check and
 * validation that may end the request early, at most one write, and a
 * status with a body.
 */
module Router {
  import opened Wrappers
  import opened JsValue
  import opened Validation
  import opened ValidationProperties
  import opened Store
  import opened Serialize

  datatype ResponseBody =
    | NoContent
    | Text(text: string)
    | Record(bookmark: PublicBookmark)
    | List(bookmarks: seq<PublicBookmark>)

  datatype Response = Response(status: nat, location: Option<string>, body: ResponseBody)

  /** The answer to GET, PATCH or DELETE on an id the table does not hold. */
  const NotFound: Response := Response(404, None, Text("Bookmark Not Found"))

  /** The answer to a body that fails validation. */
  function BadRequest(e: ValidationError): Response
  {
    Response(400, None, Text(Message(e)))
  }

  /** `s` without its trailing slashes. */
  function TrimTrailingSlashes(s: string): (t: string)
    ensures t == [] || t[|t| - 1] != '/'
    ensures t <= s
  {
    if s != [] && s[|s| - 1] == '/' then TrimTrailingSlashes(s[..|s| - 1]) else s
  }

  /** `path.posix.join(req.originalUrl, '/' + bookmark.id)` */
  function LocationOf(originalUrl: string, id: nat): string
  {
    TrimTrailingSlashes(originalUrl) + "/" + DecimalString(id)
  }

  /** The last segment of a path: what the `/:id` route reads as the id. */
  function LastSegment(path: string): string
  {
    if path == [] || path[|path| - 1] == '/' then [] else LastSegment(path[..|path| - 1]) + [path[|path| - 1]]
  }

  lemma {:induction false} LastSegmentAfterSlash(prefix: string, segment: string)
    requires forall i :: 0 <= i < |segment| ==> segment[i] != '/'
    ensures LastSegment(prefix + "/" + segment) == segment
  {
    if segment != [] {
      var init := segment[..|segment| - 1];
      assert (prefix + "/" + segment)[..|prefix + "/" + segment| - 1] == prefix + "/" + init;
      LastSegmentAfterSlash(prefix, init);
    } else {
      assert prefix + "/" + segment == prefix + "/";
    }
  }

  /** The Location of a created bookmark names it: its last segment is the
      decimal id, which reads back as the id. */
  lemma LocationNamesId(originalUrl: string, id: nat)
    ensures LastSegment(LocationOf(originalUrl, id)) == DecimalString(id)
    ensures DecimalValue(LastSegment(LocationOf(originalUrl, id))) == id
  {
    var digits := DecimalString(id);
    assert forall i :: 0 <= i < |digits| ==> digits[i] != '/' by {
      assert AllDigits(digits);
    }
    LastSegmentAfterSlash(TrimTrailingSlashes(originalUrl), digits);
    DecimalRoundTrip(id);
  }

  /** Posting to the collection, with or without a trailing slash, answers
      with the collection path followed by the id. */
  lemma CollectionLocation(id: nat)
    ensures LocationOf("/bookmarks", id) == "/bookmarks/" + DecimalString(id)
    ensures LocationOf("/bookmarks/", id) == "/bookmarks/" + DecimalString(id)
  {
  }

  /** A row as the handlers keep it: title and url truthy, url a web URI,
      rating an integer from 1 to 5. */
  predicate Conforms(b: Bookmark, isWebUri: Value -> bool)
  {
    Truthy(b.title) && Truthy(b.url) && isWebUri(b.url) && IsRating(b.rating)
  }

  predicate AllConform(rows: seq<Bookmark>, isWebUri: Value -> bool)
  {
    forall i :: 0 <= i < |rows| ==> Conforms(rows[i], isWebUri)
  }

  /** A row inserted from a valid insert body conforms. */
  lemma InsertedRowConforms(body: Body, isWebUri: Value -> bool, id: nat)
    requires Validate(body, true, isWebUri).Success?
    ensures Conforms(NewRow(id, Validate(body, true, isWebUri).value), isWebUri)
  {
    InsertSuccessIsComplete(body, isWebUri);
  }

  /** A conforming row patched from a valid update body still conforms: an
      update never removes a required field. */
  lemma PatchedRowConforms(b: Bookmark, body: Body, isWebUri: Value -> bool)
    requires Conforms(b, isWebUri) && Validate(body, false, isWebUri).Success?
    ensures Conforms(Patched(b, Validate(body, false, isWebUri).value), isWebUri)
  {
  }

  /** POST /: validate as an insert; 400 with the message on error; else
      insert and answer 201 with the Location and the sanitised row. */
  method PostBookmark(db: BookmarksTable, body: Body, originalUrl: string, isWebUri: Value -> bool, xss: Value -> string)
    returns (res: Response)
    requires db.Valid()
    modifies db
    ensures db.Valid()
    ensures match Validate(body, true, isWebUri)
      case Failure(e) =>
        res == BadRequest(e) && db.rows == old(db.rows) && db.nextId == old(db.nextId)
      case Success(fields) =>
        var created := NewRow(old(db.nextId), fields);
        && db.rows == old(db.rows) + [created] && db.nextId == old(db.nextId) + 1
        && res == Response(201, Some(LocationOf(originalUrl, created.id)), Record(SerializeBookmark(created, xss)))
    ensures AllConform(old(db.rows), isWebUri) ==> AllConform(db.rows, isWebUri)
  {
    var bookmarkToAdd := ValidateBookmark(body, true, isWebUri);
    if bookmarkToAdd.Failure? {
      return BadRequest(bookmarkToAdd.error);
    }
    InsertedRowConforms(body, isWebUri, db.nextId);
    var bookmark := db.AddBookmark(bookmarkToAdd.value);
    res := Response(201, Some(LocationOf(originalUrl, bookmark.id)), Record(SerializeBookmark(bookmark, xss)));
  }

  /** GET /: 200 with every row sanitised, in storage order. */
  method GetBookmarks(db: BookmarksTable, xss: Value -> string) returns (res: Response)
    ensures res.status == 200 && res.location == None && res.body.List?
    ensures |res.body.bookmarks| == |db.rows|
    ensures forall i :: 0 <= i < |db.rows| ==> res.body.bookmarks[i] == SerializeBookmark(db.rows[i], xss)
  {
    var bookmarks := db.GetAllBookmarks();
    SerializeAllPointwise(bookmarks, xss);
    res := Response(200, None, List(SerializeAll(bookmarks, xss)));
  }

  /** GET /:id: 404 when no row has the id, else 200 with that row sanitised. */
  method GetBookmark(db: BookmarksTable, id: int, xss: Value -> string) returns (res: Response)
    ensures (forall i :: 0 <= i < |db.rows| ==> db.rows[i].id != id) <==> res == NotFound
    ensures FindById(db.rows, id).Some? ==>
      res == Response(200, None, Record(SerializeBookmark(FindById(db.rows, id).value, xss)))
      && res.body.bookmark.id == id
  {
    var bookmark := db.GetBookmarkById(id);
    if bookmark.None? {
      return NotFound;
    }
    res := Response(200, None, Record(SerializeBookmark(bookmark.value, xss)));
  }

  /** PATCH /:id: the existence check comes first, so an absent id is a 404
      whatever the body; then validate as an update; 400 on error; else
      update the row and answer 204. */
  method PatchBookmark(db: BookmarksTable, id: int, body: Body, isWebUri: Value -> bool) returns (res: Response)
    requires db.Valid()
    modifies db
    ensures db.Valid() && db.nextId == old(db.nextId)
    ensures FindById(old(db.rows), id).None? ==> res == NotFound && db.rows == old(db.rows)
    ensures FindById(old(db.rows), id).Some? ==>
      match Validate(body, false, isWebUri)
      case Failure(e) => res == BadRequest(e) && db.rows == old(db.rows)
      case Success(fields) =>
        res == Response(204, None, NoContent) && db.rows == UpdateRows(old(db.rows), id, fields)
    ensures AllConform(old(db.rows), isWebUri) ==> AllConform(db.rows, isWebUri)
  {
    var bookmark := db.GetBookmarkById(id);
    if bookmark.None? {
      return NotFound;
    }
    var bookmarkToUpdate := ValidateBookmark(body, false, isWebUri);
    if bookmarkToUpdate.Failure? {
      return BadRequest(bookmarkToUpdate.error);
    }
    UpdateRowsAt(db.rows, id, bookmarkToUpdate.value);
    if AllConform(db.rows, isWebUri) {
      forall i | 0 <= i < |db.rows| && db.rows[i].id == id
        ensures Conforms(Patched(db.rows[i], bookmarkToUpdate.value), isWebUri)
      {
        PatchedRowConforms(db.rows[i], body, isWebUri);
      }
    }
    db.UpdateBookmark(id, bookmarkToUpdate.value);
    res := Response(204, None, NoContent);
  }

  /** DELETE /:id: 404 when no row has the id; else remove it and answer 204. */
  method DeleteBookmark(db: BookmarksTable, id: int) returns (res: Response)
    requires db.Valid()
    modifies db
    ensures db.Valid() && db.nextId == old(db.nextId)
    ensures FindById(old(db.rows), id).None? ==> res == NotFound && db.rows == old(db.rows)
    ensures FindById(old(db.rows), id).Some? ==>
      res == Response(204, None, NoContent) && db.rows == DeleteRows(old(db.rows), id)
    ensures FindById(db.rows, id).None?
    ensures forall i :: 0 <= i < |db.rows| ==> db.rows[i] in old(db.rows)
  {
    var bookmark := db.GetBookmarkById(id);
    if bookmark.None? {
      return NotFound;
    }
    DeleteRowsFind(db.rows, id, id);
    DeleteRowsMembers(db.rows, id);
    db.DeleteBookmark(id);
    res := Response(204, None, NoContent);
  }
}
