/**
 * The JSON helpers every handler answers through: the `JSONResponse`
 * envelope, `WriteJSON`, `ReadJSON` and `ErrorJSON`.  The copies in the
 * legacy `main` package behave the same and are modelled by these.
 */
module Utils {
  import opened Wrappers
  import opened Http
  import Text

  /** The `JSONResponse` envelope; `data` is omitted when nil. */
  function JsonResponse(error: bool, message: string, data: Option<Json>): (j: Json)
    ensures Member(j, "error") == Some(Bool(error))
    ensures Member(j, "message") == Some(Str(message))
    ensures Member(j, "data") == data
  {
    var tail := if data.Some? then [("data", data.value)] else [];
    var ms := [("error", Bool(error)), ("message", Str(message))] + tail;
    assert ms[1..] == [("message", Str(message))] + tail;
    assert ms[1..][1..] == tail;
    assert |"error"| != |"message"| && |"error"| != |"data"| && |"message"| != |"data"|;
    assert MemberIn(ms, "message") == MemberIn(ms[1..], "message");
    assert MemberIn(ms, "data") == MemberIn(ms[1..][1..], "data");
    Object(ms)
  }

  /** The envelope marshals whenever its data does. */
  lemma JsonResponseMarshalable(error: bool, message: string, data: Option<Json>)
    requires data.Some? ==> Marshalable(data.value)
    ensures Marshalable(JsonResponse(error, message, data))
  {
    var ms := JsonResponse(error, message, data).members;
    forall i | 0 <= i < |ms|
      ensures Marshalable(ms[i].1)
    {
      if i == 2 {
        assert ms[i].1 == data.value;
      }
    }
  }

  /** The body `ErrorJSON` writes for an error with the given text. */
  function ErrorBody(message: string): Json {
    JsonResponse(true, message, None)
  }

  /** A success envelope: `error` false, with a message and optional data. */
  function MessageBody(message: string, data: Option<Json>): Json {
    JsonResponse(false, message, data)
  }

  /** The header map after copying the optional extra headers over it. */
  function WithExtraHeaders(h: Header, headers: seq<Header>): Header {
    if |headers| > 0 then h + headers[0] else h
  }

  /**
   * `WriteJSON(w, status, payload, headers...)`: marshal first (an error
   * leaves the response untouched), copy the first extra header map, set the
   * content type, send the status, then the body.
   */
  method WriteJSON(w: ResponseWriter, status: int, payload: Json, headers: seq<Header>)
    returns (err: Option<string>)
    requires w.status != 0 || 100 <= status <= 999
    modifies w
    ensures !Marshalable(payload) ==> err.Some? && unchanged(w)
    ensures Marshalable(payload) ==>
      err.None?
      && w.header == WithExtraHeaders(old(w.header), headers)["Content-Type" := ["application/json"]]
      && w.setCookies == old(w.setCookies)
      && w.body == old(w.body) + [payload]
    ensures Marshalable(payload) && old(w.status) == 0 ==>
      w.status == status && w.sentHeader == w.header && w.sentCookies == w.setCookies
    ensures Marshalable(payload) && old(w.status) != 0 ==>
      w.status == old(w.status) && w.sentHeader == old(w.sentHeader) && w.sentCookies == old(w.sentCookies)
  {
    if !Marshalable(payload) {
      return Some("json: unsupported value");
    }
    if |headers| > 0 {
      CopyHeaders(w, headers[0]);
    }
    w.SetHeader("Content-Type", "application/json");
    w.WriteHeader(status);
    w.Write(payload);
    return None;
  }

  /** `for key, value := range extra { w.Header()[key] = value }`. */
  method CopyHeaders(w: ResponseWriter, extra: Header)
    modifies w`header
    ensures w.header == old(w.header) + extra
  {
    var todo := extra.Keys;
    ghost var copied: Header := map[];
    while todo != {}
      invariant todo <= extra.Keys
      invariant copied.Keys == extra.Keys - todo
      invariant forall k :: k in copied ==> copied[k] == extra[k]
      invariant w.header == old(w.header) + copied
      decreases |todo|
    {
      var key :| key in todo;
      w.AssignHeader(key, extra[key]);
      copied := copied[key := extra[key]];
      todo := todo - {key};
    }
    assert copied == extra;
  }

  /** The request body limit `ReadJSON` installs: one mebibyte. */
  const MaxBodyBytes: nat := 1024 * 1024

  /** The first member name of an object that is not a field of the target type. */
  function UnknownField(doc: Json, fields: set<string>): Option<string> {
    match doc
    case Object(ms) => FirstUnknown(ms, fields)
    case _ => None
  }

  function FirstUnknown(ms: seq<(string, Json)>, fields: set<string>): (r: Option<string>)
    ensures r.None? <==> forall i :: 0 <= i < |ms| ==> ms[i].0 in fields
    ensures r.Some? ==> r.value !in fields
  {
    if ms == [] then None
    else if ms[0].0 !in fields then Some(ms[0].0)
    else
      var r := FirstUnknown(ms[1..], fields);
      assert forall i :: 1 <= i < |ms| ==> ms[i] == ms[1..][i - 1];
      r
  }

  /**
   * What `ReadJSON` leaves in a payload declared as a pointer: the decoded
   * value, a nil pointer when the body is the JSON literal `null` (which
   * decodes without an error), or the decoding error.
   */
  datatype Payload<T> = Decoded(value: T) | NullBody | Undecodable(error: string)

  const ErrBodyTooLarge: string := "http: request body too large"
  const ErrNotSingleValue: string := "body must contain only a single JSON value"

  /**
   * `ReadJSON(w, r, &payload)` on a body of `bodyBytes` bytes holding the
   * documents `docs`, the first of which ends `firstDocBytes` bytes into the
   * body, decoding into a type whose JSON field names are `fields`.  The
   * decoder meets the failures in the order it reads: the size limit only
   * when it has to read past it, so before the first document is complete
   * the limit is the error, and after it the first document's unknown field
   * is; the second decode then expects the end of the body, and anything
   * else there, a second document or bytes past the limit, is the
   * single-value error.
   */
  function ReadJSON(bodyBytes: nat, firstDocBytes: nat, docs: seq<Json>, fields: set<string>): (r: Result<Json, string>)
    requires docs != [] ==> firstDocBytes <= bodyBytes
    ensures r.Success? <==>
      bodyBytes <= MaxBodyBytes && |docs| == 1 && UnknownField(docs[0], fields).None?
    ensures r.Success? ==> r.value == docs[0]
  {
    if docs == [] then
      if bodyBytes > MaxBodyBytes then Failure(ErrBodyTooLarge) else Failure("EOF")
    else if firstDocBytes > MaxBodyBytes then Failure(ErrBodyTooLarge)
    else if UnknownField(docs[0], fields).Some? then
      Failure("json: unknown field \"" + UnknownField(docs[0], fields).value + "\"")
    else if |docs| > 1 || bodyBytes > MaxBodyBytes then Failure(ErrNotSingleValue)
    else Success(docs[0])
  }

  /**
   * Which failure is reported: the size limit only for a first document
   * that does not end within it; an unknown field of a first document that
   * does, however large the body; and for a clean first document followed
   * by more than the limit allows, even blanks, the single-value error.
   */
  lemma ReadJSONFailureOrder(bodyBytes: nat, firstDocBytes: nat, docs: seq<Json>, fields: set<string>)
    requires docs != [] && firstDocBytes <= bodyBytes
    ensures firstDocBytes > MaxBodyBytes ==> ReadJSON(bodyBytes, firstDocBytes, docs, fields) == Failure(ErrBodyTooLarge)
    ensures firstDocBytes <= MaxBodyBytes && UnknownField(docs[0], fields).Some? ==>
      ReadJSON(bodyBytes, firstDocBytes, docs, fields).Failure?
      && Text.HasPrefix(ReadJSON(bodyBytes, firstDocBytes, docs, fields).error, "json: unknown field")
    ensures firstDocBytes <= MaxBodyBytes < bodyBytes && UnknownField(docs[0], fields).None? ==>
      ReadJSON(bodyBytes, firstDocBytes, docs, fields) == Failure(ErrNotSingleValue)
  {
    if firstDocBytes <= MaxBodyBytes && UnknownField(docs[0], fields).Some? {
      var e := "json: unknown field \"" + UnknownField(docs[0], fields).value + "\"";
      assert e[..|"json: unknown field"|] == "json: unknown field";
    }
  }

  /**
   * `ErrorJSON(w, err, status...)`: the envelope with `error` true and the
   * error's text (empty for a nil error), sent with the first optional
   * status or `400 Bad Request`.
   */
  method ErrorJSON(w: ResponseWriter, err: Option<string>, status: seq<int>) returns (e: Option<string>)
    requires w.status != 0 || |status| == 0 || 100 <= status[0] <= 999
    modifies w
    ensures var code := if |status| > 0 then status[0] else 400;
      var message := if err.Some? then err.value else "";
      e.None?
      && w.header == old(w.header)["Content-Type" := ["application/json"]]
      && w.setCookies == old(w.setCookies)
      && w.body == old(w.body) + [ErrorBody(message)]
      && (old(w.status) == 0 ==> w.status == code && w.sentHeader == w.header && w.sentCookies == w.setCookies)
      && (old(w.status) != 0 ==>
            w.status == old(w.status) && w.sentHeader == old(w.sentHeader) && w.sentCookies == old(w.sentCookies))
  {
    var statusCode := 400;
    if |status| > 0 {
      statusCode := status[0];
    }
    var message := "";
    if err.Some? {
      message := err.value;
    }
    JsonResponseMarshalable(true, message, None);
    e := WriteJSON(w, statusCode, ErrorBody(message), []);
  }
}
