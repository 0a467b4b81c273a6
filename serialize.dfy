/**
 * `serializeBookmark`: the record a handler sends for a stored row, with the
 * two free-text fields passed through the `xss` sanitiser.
 */
module Serialize {
  import opened JsValue
  import opened Store

  /** A bookmark as a response body carries it. */
  datatype PublicBookmark = PublicBookmark(id: nat, url: Value, title: string, description: string, rating: Value)

  /** Sanitises a row for output. `xss` is the foreign HTML sanitiser, given
      as a parameter; storage keeps the raw text. */
  function SerializeBookmark(b: Bookmark, xss: Value -> string): (p: PublicBookmark)
    ensures p.id == b.id && p.url == b.url && p.rating == b.rating
    ensures p.title == xss(b.title) && p.description == xss(b.description)
  {
    PublicBookmark(b.id, b.url, xss(b.title), xss(b.description), b.rating)
  }

  /** `bookmarks.map(serializeBookmark)` */
  function SerializeAll(rows: seq<Bookmark>, xss: Value -> string): seq<PublicBookmark>
  {
    if rows == [] then [] else [SerializeBookmark(rows[0], xss)] + SerializeAll(rows[1..], xss)
  }

  /** The list has one entry per row, in the rows' order. */
  lemma {:induction false} SerializeAllPointwise(rows: seq<Bookmark>, xss: Value -> string)
    ensures var out := SerializeAll(rows, xss);
      && |out| == |rows|
      && forall i :: 0 <= i < |rows| ==> out[i] == SerializeBookmark(rows[i], xss) && out[i].id == rows[i].id
  {
    if rows != [] {
      SerializeAllPointwise(rows[1..], xss);
      var out := SerializeAll(rows, xss);
      forall i | 1 <= i < |rows| ensures out[i] == SerializeBookmark(rows[i], xss) {
        assert out[i] == SerializeAll(rows[1..], xss)[i - 1];
        assert rows[1..][i - 1] == rows[i];
      }
    }
  }
}
