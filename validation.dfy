/**
 * `validateBookmark(requestBody, inserting)`: turns a request body into
 * either an error message or the bookmark fields to store.
 */
module Validation {
  import opened Wrappers
  import opened JsValue

  datatype ValidationError =
    | MissingField(field: string)
    | InvalidRating
    | InvalidUrl
    | EmptyUpdate

  /** The plain-text body the handlers send with status 400. */
  function Message(e: ValidationError): string
  {
    match e
    case MissingField(f) => "'" + f + "' is required"
    case InvalidRating => "Rating must be a number between 1 and 5"
    case InvalidUrl => "Url must be a valid HTTP/HTTPS link"
    case EmptyUpdate => "Must provide at least one of title, url, rating or description"
  }

  /** Only a missing-field message ends in 'd' ("... is required"). */
  lemma MessageEnding(e: ValidationError)
    ensures var m := Message(e); m != [] && (m[|m| - 1] == 'd' <==> e.MissingField?)
  {
  }

  /** Distinct errors have distinct messages, so a client can tell them apart. */
  lemma MessageInjective(e1: ValidationError, e2: ValidationError)
    requires Message(e1) == Message(e2)
    ensures e1 == e2
  {
    MessageEnding(e1);
    MessageEnding(e2);
    if e1.MissingField? && e2.MissingField? {
      var m, f1, f2 := Message(e1), e1.field, e2.field;
      assert |f1| == |f2|;
      assert f1 == m[1..1 + |f1|];
      assert f2 == m[1..1 + |f2|];
    }
  }

  /** The fields copied from a valid body, each with the value the body gave it. */
  type Fields = map<string, Value>

  /** The fields an insert must have, in the order they are checked. */
  const RequiredFields: seq<string> := ["title", "url", "rating"]

  /** The only fields copied from the body; every other key is dropped. */
  const BookmarkFields: seq<string> := ["title", "url", "rating", "description"]

  /** The rating condition as JavaScript parses it: `&&` binds tighter than
      `||`, so the range comparisons apply to every value, coerced to a number. */
  predicate RatingRejected(rating: Value)
  {
    (Truthy(rating) && !IsInteger(rating)) || LessThan(rating, 1.0) || GreaterThan(rating, 5.0)
  }

  /** A rating a bookmark may hold: an integer from 1 to 5. */
  predicate IsRating(v: Value)
  {
    IsInteger(v) && 1.0 <= v.n <= 5.0
  }

  /** The condition accepts exactly an absent rating or an integer from 1 to 5:
      `null`, `0`, `false`, `""`, strings, arrays, objects, fractions and
      integers out of range are all refused. */
  lemma RatingRule(rating: Value)
    ensures !RatingRejected(rating) <==> rating == Undefined || IsRating(rating)
  {
  }

  /** The first of `fields` that is falsy in the body, if any. */
  function FirstMissing(body: Body, fields: seq<string>): (r: Option<string>)
    ensures r.None? <==> forall i :: 0 <= i < |fields| ==> Truthy(Get(body, fields[i]))
    ensures r.Some? ==>
      (exists i :: 0 <= i < |fields| && fields[i] == r.value && !Truthy(Get(body, r.value))
         && forall j :: 0 <= j < i ==> Truthy(Get(body, fields[j])))
  {
    if fields == [] then None
    else if !Truthy(Get(body, fields[0])) then Some(fields[0])
    else
      var r := FirstMissing(body, fields[1..]);
      assert r.Some? ==> fields[1 + 0..] == fields[1..];
      r
  }

  /** The entries of the body under `fields` that are truthy. */
  function Picked(body: Body, fields: seq<string>): Fields
  {
    map f | f in fields && Truthy(Get(body, f)) :: Get(body, f)
  }

  /** Every recognised field in the body is falsy (or absent). */
  predicate NoFieldGiven(body: Body)
  {
    forall i :: 0 <= i < |BookmarkFields| ==> !Truthy(Get(body, BookmarkFields[i]))
  }

  /** What `validateBookmark` returns, check by check in the source's order. */
  function Validate(body: Body, inserting: bool, isWebUri: Value -> bool): Result<Fields, ValidationError>
  {
    var missing := if inserting then FirstMissing(body, RequiredFields) else None;
    var url, rating := Get(body, "url"), Get(body, "rating");
    if missing.Some? then Failure(MissingField(missing.value))
    else if RatingRejected(rating) then Failure(InvalidRating)
    else if Truthy(url) && !isWebUri(url) then Failure(InvalidUrl)
    else
      var bookmark := Picked(body, BookmarkFields);
      if !inserting && bookmark.Keys == {} then Failure(EmptyUpdate)
      else Success(bookmark)
  }

  /** `validateBookmark`: a loop over the required fields that returns at
      the first falsy one, then the rating and URL checks, then a loop that
      copies the truthy recognised fields. */
  method ValidateBookmark(body: Body, inserting: bool, isWebUri: Value -> bool)
    returns (r: Result<Fields, ValidationError>)
    ensures r == Validate(body, inserting, isWebUri)
  {
    var url, rating := Get(body, "url"), Get(body, "rating");
    if inserting {
      var requiredFields := RequiredFields;
      for i := 0 to |requiredFields|
        invariant forall j :: 0 <= j < i ==> Truthy(Get(body, requiredFields[j]))
      {
        if !Truthy(Get(body, requiredFields[i])) {
          return Failure(MissingField(requiredFields[i]));
        }
      }
    }
    if RatingRejected(rating) {
      return Failure(InvalidRating);
    }
    if Truthy(url) && !isWebUri(url) {
      return Failure(InvalidUrl);
    }
    var bookmark: Fields := map[];
    var fields := BookmarkFields;
    for i := 0 to |fields|
      invariant bookmark == Picked(body, fields[..i])
    {
      var field := fields[i];
      if Truthy(Get(body, field)) {
        bookmark := bookmark[field := Get(body, field)];
      }
      assert fields[..i + 1] == fields[..i] + [field];
    }
    assert fields[..|fields|] == fields;
    if !inserting && bookmark.Keys == {} {
      return Failure(EmptyUpdate);
    }
    return Success(bookmark);
  }
}

module ValidationProperties {
  import opened Wrappers
  import opened JsValue
  import opened Validation

  /** Every required field is truthy in the body. */
  predicate HasRequired(body: Body)
  {
    Truthy(Get(body, "title")) && Truthy(Get(body, "url")) && Truthy(Get(body, "rating"))
  }

  /** The URL check passes: the url is falsy or a web URI. */
  predicate UrlAccepted(body: Body, isWebUri: Value -> bool)
  {
    Truthy(Get(body, "url")) ==> isWebUri(Get(body, "url"))
  }

  /** In insert mode the first falsy field of title, url, rating is reported,
      and only those three are ever reported missing, and only on insert. */
  lemma MissingFieldIsFirstFalsy(body: Body, inserting: bool, isWebUri: Value -> bool)
    ensures var r := Validate(body, inserting, isWebUri);
      && (r == Failure(MissingField("title")) <==> inserting && !Truthy(Get(body, "title")))
      && (r == Failure(MissingField("url")) <==>
            inserting && Truthy(Get(body, "title")) && !Truthy(Get(body, "url")))
      && (r == Failure(MissingField("rating")) <==>
            inserting && Truthy(Get(body, "title")) && Truthy(Get(body, "url")) && !Truthy(Get(body, "rating")))
      && (r.Failure? && r.error.MissingField? <==> inserting && !HasRequired(body))
  {
    var missing := FirstMissing(body, RequiredFields);
    if inserting {
      if !Truthy(Get(body, "title")) {
        assert missing == Some("title");
      } else if !Truthy(Get(body, "url")) {
        assert RequiredFields[1..] == ["url", "rating"];
        assert missing == FirstMissing(body, ["url", "rating"]);
      } else if !Truthy(Get(body, "rating")) {
        assert RequiredFields[1..] == ["url", "rating"] && ["url", "rating"][1..] == ["rating"];
        assert missing == FirstMissing(body, ["url", "rating"]) == FirstMissing(body, ["rating"]);
      } else {
        assert missing == None;
      }
    }
  }

  /** The rating error is returned exactly when no field is missing and the
      rating condition holds; an insert with rating 21 gets it. */
  lemma RatingErrorExactly(body: Body, inserting: bool, isWebUri: Value -> bool)
    ensures Validate(body, inserting, isWebUri) == Failure(InvalidRating) <==>
      (!inserting || HasRequired(body)) && RatingRejected(Get(body, "rating"))
  {
    MissingFieldIsFirstFalsy(body, inserting, isWebUri);
  }

  /** The URL error is returned exactly when the earlier checks pass, the url
      is truthy and it is not a web URI. */
  lemma UrlErrorExactly(body: Body, inserting: bool, isWebUri: Value -> bool)
    ensures Validate(body, inserting, isWebUri) == Failure(InvalidUrl) <==>
      (!inserting || HasRequired(body)) && !RatingRejected(Get(body, "rating"))
      && !UrlAccepted(body, isWebUri)
  {
    MissingFieldIsFirstFalsy(body, inserting, isWebUri);
  }

  /** The picked fields are exactly the truthy recognised ones, with their values. */
  lemma PickedExactly(body: Body)
    ensures var p := Picked(body, BookmarkFields);
      && (forall k :: k in p <==> k in BookmarkFields && Truthy(Get(body, k)))
      && (forall k :: k in p ==> k in body && p[k] == body[k])
      && (p.Keys == {} <==> NoFieldGiven(body))
  {
  }

  /** The empty-update error is returned exactly for an update whose body
      passes the rating and URL checks and gives no truthy recognised field;
      an insert never gets it. */
  lemma EmptyUpdateExactly(body: Body, inserting: bool, isWebUri: Value -> bool)
    ensures Validate(body, inserting, isWebUri) == Failure(EmptyUpdate) <==>
      !inserting && !RatingRejected(Get(body, "rating")) && UrlAccepted(body, isWebUri)
      && NoFieldGiven(body)
    ensures inserting ==> Validate(body, inserting, isWebUri) != Failure(EmptyUpdate)
  {
    PickedExactly(body);
    MissingFieldIsFirstFalsy(body, inserting, isWebUri);
  }

  /** Success happens exactly when every check passes, and its fields are the
      truthy recognised fields of the body, each with its own value;
      unrecognised keys are dropped. */
  lemma SuccessExactly(body: Body, inserting: bool, isWebUri: Value -> bool)
    ensures var r := Validate(body, inserting, isWebUri);
      && (r.Success? <==>
            (!inserting || HasRequired(body)) && !RatingRejected(Get(body, "rating"))
            && UrlAccepted(body, isWebUri) && (inserting || !NoFieldGiven(body)))
      && (r.Success? ==>
            (forall k :: k in r.value <==> k in BookmarkFields && Truthy(Get(body, k)))
            && (forall k :: k in r.value ==> k in body && r.value[k] == body[k]))
  {
    PickedExactly(body);
    MissingFieldIsFirstFalsy(body, inserting, isWebUri);
  }

  /** A successful insert holds title, url and rating, and its rating is an
      integer from 1 to 5. */
  lemma InsertSuccessIsComplete(body: Body, isWebUri: Value -> bool)
    requires Validate(body, true, isWebUri).Success?
    ensures var f := Validate(body, true, isWebUri).value;
      && "title" in f && "url" in f && "rating" in f
      && Truthy(f["title"]) && Truthy(f["url"]) && isWebUri(f["url"]) && IsRating(f["rating"])
  {
    SuccessExactly(body, true, isWebUri);
    RatingRule(Get(body, "rating"));
  }

  /** Whatever an update copies is valid: a truthy title and description, a
      url that is a web URI, a rating that is an integer from 1 to 5. */
  lemma UpdateSuccessIsValid(body: Body, isWebUri: Value -> bool)
    requires Validate(body, false, isWebUri).Success?
    ensures var f := Validate(body, false, isWebUri).value;
      && f.Keys != {}
      && (forall k :: k in f ==> Truthy(f[k]))
      && ("url" in f ==> isWebUri(f["url"]))
      && ("rating" in f ==> IsRating(f["rating"]))
  {
  }

  /** Only the four recognised keys matter: two bodies that agree on them
      validate alike. */
  lemma IgnoresUnrecognisedKeys(b1: Body, b2: Body, inserting: bool, isWebUri: Value -> bool)
    requires forall i :: 0 <= i < |BookmarkFields| ==> Get(b1, BookmarkFields[i]) == Get(b2, BookmarkFields[i])
    ensures Validate(b1, inserting, isWebUri) == Validate(b2, inserting, isWebUri)
  {
    assert Get(b1, "title") == Get(b2, "title") && Get(b1, "url") == Get(b2, "url")
      && Get(b1, "rating") == Get(b2, "rating") && Get(b1, "description") == Get(b2, "description")
      by { assert BookmarkFields[0] == "title" && BookmarkFields[1] == "url"
             && BookmarkFields[2] == "rating" && BookmarkFields[3] == "description"; }
    MissingFieldIsFirstFalsy(b1, inserting, isWebUri);
    MissingFieldIsFirstFalsy(b2, inserting, isWebUri);
    assert Picked(b1, BookmarkFields) == Picked(b2, BookmarkFields);
  }

  /** An insert with every field but rating 21 is refused for its rating. */
  lemma RatingOfTwentyOneRefused(isWebUri: Value -> bool)
    ensures Validate(map["title" := Str("Google"), "url" := Str("https://google.com"),
                         "description" := Str("Search for stuff"), "rating" := Num(21.0)],
                     true, isWebUri) == Failure(InvalidRating)
  {
  }

  /** An update whose body holds only unrecognised keys is refused as empty. */
  lemma OnlyUnrecognisedKeysIsEmptyUpdate(body: Body, isWebUri: Value -> bool)
    requires forall i :: 0 <= i < |BookmarkFields| ==> BookmarkFields[i] !in body
    ensures Validate(body, false, isWebUri) == Failure(EmptyUpdate)
  {
    assert "url" !in body && "rating" !in body by {
      assert BookmarkFields[1] == "url" && BookmarkFields[2] == "rating";
    }
    EmptyUpdateExactly(body, false, isWebUri);
  }
}
