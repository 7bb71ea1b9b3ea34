/**
 * The parts of Go's `net/http` and `encoding/json` the service touches: a
 * cookie record, JSON values, and a `ResponseWriter` whose status line and
 * headers are fixed by the first `WriteHeader` (or the first `Write`).
 */
module Http {
  import opened Wrappers

  /** `http.SameSite`. */
  datatype SameSite = SameSiteDefaultMode | SameSiteLaxMode | SameSiteStrictMode | SameSiteNoneMode

  /** `http.Cookie`; `Expires` is an instant in Unix nanoseconds. */
  datatype Cookie = Cookie(
    Name: string,
    Path: string,
    Value: string,
    Expires: int,
    MaxAge: int,
    SameSite: SameSite,
    Domain: string,
    HttpOnly: bool,
    Secure: bool)

  /** A request cookie as `r.Cookies()` yields it. */
  datatype RequestCookie = RequestCookie(name: string, value: string)

  /**
   * A JSON document.  `Unsupported` stands for a Go value `json.Marshal`
   * refuses (a channel, a function, a cyclic value).
   */
  datatype Json =
    | Null
    | Bool(b: bool)
    | Number(n: int)
    | Str(s: string)
    | Object(members: seq<(string, Json)>)
    | Unsupported(kind: string)

  /** `json.Marshal` succeeds exactly when no part of the value is unsupported. */
  predicate Marshalable(j: Json) {
    match j
    case Object(ms) => forall i :: 0 <= i < |ms| ==> Marshalable(ms[i].1)
    case Unsupported(_) => false
    case _ => true
  }

  /** The member `key` of an object, if present (the first one wins). */
  function Member(j: Json, key: string): Option<Json> {
    match j
    case Object(ms) => MemberIn(ms, key)
    case _ => None
  }

  function MemberIn(ms: seq<(string, Json)>, key: string): Option<Json> {
    if ms == [] then None
    else if ms[0].0 == key then Some(ms[0].1)
    else MemberIn(ms[1..], key)
  }

  /** `http.Header`: canonical key to its list of values. */
  type Header = map<string, seq<string>>

  function Values(h: Header, key: string): seq<string> {
    if key in h then h[key] else []
  }

  /**
   * An `http.ResponseWriter`.  `header` and `setCookies` are what the handler
   * has prepared; `sentHeader` and `sentCookies` are what went out with the
   * status line, which the first `WriteHeader` (or `Write`) fixes.  `status`
   * is 0 until then.  `body` holds the documents written, in order.
   */
  class ResponseWriter {
    var header: Header
    var setCookies: seq<Cookie>
    var status: int
    var sentHeader: Header
    var sentCookies: seq<Cookie>
    var body: seq<Json>

    constructor ()
      ensures header == map[] && setCookies == [] && status == 0
      ensures sentHeader == map[] && sentCookies == [] && body == []
    {
      header := map[];
      setCookies := [];
      status := 0;
      sentHeader := map[];
      sentCookies := [];
      body := [];
    }

    /** Nothing has been sent yet. */
    predicate Unwritten()
      reads this
    {
      status == 0 && body == []
    }

    /** The status line sent is `code` and the documents written are `docs`. */
    predicate Replied(code: int, docs: seq<Json>)
      reads this
    {
      status == code && body == docs
    }

    /** `w.Header().Add(key, value)`. */
    method AddHeader(key: string, value: string)
      modifies this`header
      ensures header == old(header)[key := Values(old(header), key) + [value]]
    {
      header := header[key := Values(header, key) + [value]];
    }

    /** `w.Header().Set(key, value)`. */
    method SetHeader(key: string, value: string)
      modifies this`header
      ensures header == old(header)[key := [value]]
    {
      header := header[key := [value]];
    }

    /** `w.Header()[key] = values`. */
    method AssignHeader(key: string, values: seq<string>)
      modifies this`header
      ensures header == old(header)[key := values]
    {
      header := header[key := values];
    }

    /** `http.SetCookie(w, c)`: one more `Set-Cookie` header line. */
    method SetCookie(c: Cookie)
      modifies this`setCookies
      ensures setCookies == old(setCookies) + [c]
    {
      setCookies := setCookies + [c];
    }

    /**
     * `w.WriteHeader(code)`: the first call sends the status line with the
     * headers and cookies prepared so far; a later call is superfluous and
     * changes nothing.  A first call with a code outside 100..999 panics.
     */
    method WriteHeader(code: int)
      requires status != 0 || 100 <= code <= 999
      modifies this`status, this`sentHeader, this`sentCookies
      ensures old(status) == 0 ==> status == code && sentHeader == header && sentCookies == setCookies
      ensures old(status) != 0 ==>
        status == old(status) && sentHeader == old(sentHeader) && sentCookies == old(sentCookies)
    {
      if status == 0 {
        status := code;
        sentHeader := header;
        sentCookies := setCookies;
      }
    }

    /** `w.Write(doc)`: sends `200 OK` first when no status was sent. */
    method Write(doc: Json)
      modifies this`status, this`sentHeader, this`sentCookies, this`body
      ensures body == old(body) + [doc]
      ensures old(status) == 0 ==> status == 200 && sentHeader == header && sentCookies == setCookies
      ensures old(status) != 0 ==>
        status == old(status) && sentHeader == old(sentHeader) && sentCookies == old(sentCookies)
    {
      WriteHeader(200);
      body := body + [doc];
    }
  }
}
