/**
 * The slice of golang-jwt (v4) the service uses: HS256 tokens built from a
 * map of claims, `SignedString` with a byte-string secret, and
 * `ParseWithClaims` into the registered claims of section 4.1 of RFC 7519.
 *
 * The compact serialisation (base64url JSON and an HMAC tag) is replaced by
 * a concrete text codec with the properties the service depends on: it is
 * decodable, it never contains a space (so a token survives the
 * `Bearer <token>` split) and it is never empty.  A signature is modelled by
 * the key that produced it, so a token verifies under exactly that key.
 */
module Jwt {
  import opened Wrappers
  import opened Text

  /** Nanoseconds per second: NumericDate values are whole seconds. */
  const NanosPerSecond: int := 1_000_000_000

  /** `time.Time.Unix()` of an instant given in Unix nanoseconds (rounds down). */
  function UnixSeconds(nowNano: int): int {
    nowNano / NanosPerSecond
  }

  /** The `alg` names of the HMAC signing methods. */
  const HmacAlgs: set<string> := {"HS256", "HS384", "HS512"}

  /** Every `alg` for which golang-jwt registers a signing method. */
  const KnownAlgs: set<string> := HmacAlgs + {
    "RS256", "RS384", "RS512", "PS256", "PS384", "PS512",
    "ES256", "ES384", "ES512", "EdDSA", "none"
  }

  /** A claim map as the service fills it; an absent key is `None`. */
  datatype MapClaims = MapClaims(
    jti: Option<string>,
    name: Option<string>,
    sub: Option<string>,
    aud: Option<string>,
    iss: Option<string>,
    iat: Option<int>,
    typ: Option<string>,
    exp: Option<int>)

  const NoClaims: MapClaims := MapClaims(None, None, None, None, None, None, None, None)

  /** A decoded token: its header algorithm, its claims, and the key that signed it. */
  datatype Token = Token(alg: string, claims: MapClaims, signedWith: string)

  /** `jwt.RegisteredClaims`, the fields the service's `Claims` struct embeds. */
  datatype RegisteredClaims = RegisteredClaims(
    Issuer: string,
    Subject: string,
    Audience: seq<string>,
    ExpiresAt: Option<int>,
    IssuedAt: Option<int>,
    ID: string)

  // ---------------------------------------------------------------------
  // The text codec
  // ---------------------------------------------------------------------

  /** Each field is escaped ('~' -> "~~", '.' -> "~d", ' ' -> "~s") and ends with '.'. */
  function EscapeChar(c: char): string {
    if c == '~' then "~~" else if c == '.' then "~d" else if c == ' ' then "~s" else [c]
  }

  function Escape(s: string): (r: string)
    ensures ' ' !in r
  {
    if s == [] then [] else EscapeChar(s[0]) + Escape(s[1..])
  }

  /** Reads one escaped field up to its terminating '.'; returns the field and the rest. */
  function ReadField(t: string): Option<(string, string)>
    decreases |t|
  {
    if t == [] then None
    else if t[0] == '.' then Some(("", t[1..]))
    else if t[0] == '~' then
      if |t| < 2 then None
      else if t[1] == '~' || t[1] == 'd' || t[1] == 's' then
        var c := if t[1] == '~' then '~' else if t[1] == 'd' then '.' else ' ';
        match ReadField(t[2..])
        case None => None
        case Some(p) => Some(([c] + p.0, p.1))
      else None
    else
      match ReadField(t[1..])
      case None => None
      case Some(p) => Some(([t[0]] + p.0, p.1))
  }

  lemma {:induction false} ReadEscaped(s: string, rest: string)
    ensures ReadField(Escape(s) + "." + rest) == Some((s, rest))
    decreases |s|
  {
    var t := Escape(s) + "." + rest;
    if s == [] {
      assert t == "." + rest;
    } else {
      ReadEscaped(s[1..], rest);
      var c := s[0];
      assert t == EscapeChar(c) + (Escape(s[1..]) + "." + rest);
      if c == '~' || c == '.' || c == ' ' {
        assert t[2..] == Escape(s[1..]) + "." + rest;
      } else {
        assert t[1..] == Escape(s[1..]) + "." + rest;
      }
      assert [c] + s[1..] == s;
    }
  }

  function EncodeFields(fs: seq<string>): (r: string)
    ensures ' ' !in r
    ensures fs != [] ==> r != []
  {
    if fs == [] then "" else Escape(fs[0]) + "." + EncodeFields(fs[1..])
  }

  function DecodeFields(t: string, n: nat): Option<seq<string>>
    decreases n
  {
    if n == 0 then (if t == "" then Some([]) else None)
    else
      match ReadField(t)
      case None => None
      case Some(p) =>
        match DecodeFields(p.1, n - 1)
        case None => None
        case Some(fs) => Some([p.0] + fs)
  }

  lemma {:induction false} DecodeEncodeFields(fs: seq<string>)
    ensures DecodeFields(EncodeFields(fs), |fs|) == Some(fs)
    decreases |fs|
  {
    if fs != [] {
      ReadEscaped(fs[0], EncodeFields(fs[1..]));
      DecodeEncodeFields(fs[1..]);
      assert [fs[0]] + fs[1..] == fs;
    }
  }

  function TextAtom(o: Option<string>): string {
    match o
    case None => "0"
    case Some(s) => "1" + s
  }

  function ReadTextAtom(a: string): Option<Option<string>> {
    if a == "0" then Some(None)
    else if a != [] && a[0] == '1' then Some(Some(a[1..]))
    else None
  }

  function NumberAtom(o: Option<int>): string {
    match o
    case None => "0"
    case Some(n) => "1" + IntToString(n)
  }

  function ReadNumberAtom(a: string): Option<Option<int>> {
    if a == "0" then Some(None)
    else if a != [] && a[0] == '1' then
      match ParseInt(a[1..])
      case None => None
      case Some(n) => Some(Some(n))
    else None
  }

  lemma ReadAtoms(s: Option<string>, n: Option<int>)
    ensures ReadTextAtom(TextAtom(s)) == Some(s)
    ensures ReadNumberAtom(NumberAtom(n)) == Some(n)
  {
    if s.Some? {
      assert TextAtom(s)[1..] == s.value;
    }
    if n.Some? {
      ParseIntToString(n.value);
      assert NumberAtom(n)[1..] == IntToString(n.value);
    }
  }

  function Atoms(t: Token): seq<string> {
    var c := t.claims;
    [t.alg, TextAtom(c.jti), TextAtom(c.name), TextAtom(c.sub), TextAtom(c.aud),
     TextAtom(c.iss), NumberAtom(c.iat), TextAtom(c.typ), NumberAtom(c.exp), t.signedWith]
  }

  function FromAtoms(a: seq<string>): Option<Token>
    requires |a| == 10
  {
    var jti :- ReadTextAtom(a[1]);
    var name :- ReadTextAtom(a[2]);
    var sub :- ReadTextAtom(a[3]);
    var aud :- ReadTextAtom(a[4]);
    var iss :- ReadTextAtom(a[5]);
    var iat :- ReadNumberAtom(a[6]);
    var typ :- ReadTextAtom(a[7]);
    var exp :- ReadNumberAtom(a[8]);
    Some(Token(a[0], MapClaims(jti, name, sub, aud, iss, iat, typ, exp), a[9]))
  }

  /** The token's text: never empty and free of spaces. */
  function Encode(t: Token): (text: string)
    ensures text != [] && ' ' !in text
  {
    EncodeFields(Atoms(t))
  }

  function Decode(text: string): Option<Token> {
    match DecodeFields(text, 10)
    case None => None
    case Some(a) => if |a| == 10 then FromAtoms(a) else None
  }

  /** Decoding an encoded token gives it back. */
  lemma {:induction false} DecodeEncode(t: Token)
    ensures Decode(Encode(t)) == Some(t)
  {
    var c := t.claims;
    DecodeEncodeFields(Atoms(t));
    ReadAtoms(c.jti, c.iat);
    ReadAtoms(c.name, c.exp);
    ReadAtoms(c.sub, None);
    ReadAtoms(c.aud, None);
    ReadAtoms(c.iss, None);
    ReadAtoms(c.typ, None);
  }

  /** Two different tokens never share a text. */
  lemma EncodeInjective(t1: Token, t2: Token)
    requires Encode(t1) == Encode(t2)
    ensures t1 == t2
  {
    DecodeEncode(t1);
    DecodeEncode(t2);
  }

  // ---------------------------------------------------------------------
  // Signing
  // ---------------------------------------------------------------------

  /**
   * `jwt.NewWithClaims(method, claims).SignedString(key)` with a byte-string
   * key.  The model fails exactly on the empty key.
   */
  function SignedString(alg: string, claims: MapClaims, key: string): (r: Result<string, string>)
    ensures r.Failure? <==> key == ""
    ensures r.Failure? ==> r.error == "key is invalid"
    ensures r.Success? ==> r.value == Encode(Token(alg, claims, key))
    ensures r.Success? ==> Decode(r.value) == Some(Token(alg, claims, key))
  {
    if key == "" then Failure("key is invalid")
    else
      DecodeEncode(Token(alg, claims, key));
      Success(Encode(Token(alg, claims, key)))
  }

  // ---------------------------------------------------------------------
  // Parsing and validation
  // ---------------------------------------------------------------------

  datatype ParseError =
    | Malformed
    | AlgUnavailable
    | KeyFuncError(message: string)
    | SignatureRejected(alg: string)
    | UsedBeforeIssued
    | Expired

  /** The text of the error the library returns. */
  function ErrorText(e: ParseError): string {
    match e
    case Malformed => "token contains an invalid number of segments"
    case AlgUnavailable => "signing method (alg) is unavailable."
    case KeyFuncError(m) => m
    case SignatureRejected(alg) =>
      if alg in HmacAlgs then "signature is invalid"
      else if alg == "none" then "'none' signature type is not allowed"
      else "key is of invalid type"
    case UsedBeforeIssued => "token used before issued"
    case Expired => "token is expired by a positive duration"
  }

  /** `exp` is violated once the clock reaches it (the token is valid strictly before). */
  predicate ExpiredAt(c: MapClaims, nowNano: int) {
    c.exp.Some? && nowNano >= c.exp.value * NanosPerSecond
  }

  /** `iat` is violated while the clock is still before it. */
  predicate IssuedInFuture(c: MapClaims, nowNano: int) {
    c.iat.Some? && nowNano < c.iat.value * NanosPerSecond
  }

  /** The claims that survive decoding into `RegisteredClaims`: `name` and `typ` are dropped. */
  function Registered(c: MapClaims): (r: RegisteredClaims)
    ensures r.Subject == (if c.sub.Some? then c.sub.value else "")
    ensures r.Audience == (if c.aud.Some? then [c.aud.value] else [])
  {
    RegisteredClaims(
      if c.iss.Some? then c.iss.value else "",
      if c.sub.Some? then c.sub.value else "",
      if c.aud.Some? then [c.aud.value] else [],
      c.exp,
      c.iat,
      if c.jti.Some? then c.jti.value else "")
  }

  /**
   * `jwt.ParseWithClaims(text, &Claims{}, keyFunc)` where `keyFunc` returns
   * `key`, after refusing non-HMAC methods when `requireHmac` holds.  The
   * library decodes, looks the algorithm up, calls `keyFunc`, validates the
   * time claims (an `iat` error replaces an `exp` error) and checks the
   * signature last, whose error replaces both.
   */
  function ParseWithClaims(text: string, key: string, requireHmac: bool, nowNano: int)
    : (r: Result<RegisteredClaims, ParseError>)
    ensures r.Success? <==>
      Decode(text).Some? && Decode(text).value.alg in HmacAlgs && Decode(text).value.signedWith == key
      && !IssuedInFuture(Decode(text).value.claims, nowNano) && !ExpiredAt(Decode(text).value.claims, nowNano)
    ensures r.Success? ==> r.value == Registered(Decode(text).value.claims)
    ensures Decode(text).None? ==> r == Failure(Malformed)
  {
    match Decode(text)
    case None => Failure(Malformed)
    case Some(t) =>
      if t.alg !in KnownAlgs then Failure(AlgUnavailable)
      else if requireHmac && t.alg !in HmacAlgs then
        Failure(KeyFuncError("unexpected signing method: " + t.alg))
      else if !(t.alg in HmacAlgs && t.signedWith == key) then Failure(SignatureRejected(t.alg))
      else if IssuedInFuture(t.claims, nowNano) then Failure(UsedBeforeIssued)
      else if ExpiredAt(t.claims, nowNano) then Failure(Expired)
      else Success(Registered(t.claims))
  }

  /**
   * A token signed with HS256 under a non-empty key parses under that key,
   * with or without the HMAC check, exactly while its time claims hold, and
   * yields its registered claims.
   */
  lemma {:induction false} ParseSigned(claims: MapClaims, key: string, requireHmac: bool, nowNano: int)
    ensures var r := ParseWithClaims(Encode(Token("HS256", claims, key)), key, requireHmac, nowNano);
      (r.Success? <==> !IssuedInFuture(claims, nowNano) && !ExpiredAt(claims, nowNano))
      && (r.Success? ==> r.value == Registered(claims))
      && (!IssuedInFuture(claims, nowNano) && ExpiredAt(claims, nowNano) ==> r == Failure(Expired))
  {
    DecodeEncode(Token("HS256", claims, key));
  }

  /** Under any other key the signature check fails, whatever the time claims say. */
  lemma {:induction false} ParseForeignKey(claims: MapClaims, signer: string, key: string,
                                           requireHmac: bool, nowNano: int)
    requires signer != "" && signer != key
    ensures ParseWithClaims(Encode(Token("HS256", claims, signer)), key, requireHmac, nowNano)
      == Failure(SignatureRejected("HS256"))
  {
    DecodeEncode(Token("HS256", claims, signer));
  }

  /** With the HMAC check on, a token of any other registered algorithm never parses. */
  lemma {:induction false} ParseRejectsNonHmac(t: Token, key: string, nowNano: int)
    requires t.alg in KnownAlgs && t.alg !in HmacAlgs
    ensures ParseWithClaims(Encode(t), key, true, nowNano)
      == Failure(KeyFuncError("unexpected signing method: " + t.alg))
  {
    DecodeEncode(t);
  }

  /** Without the HMAC check such a token still fails, at the signature step. */
  lemma {:induction false} ParseNonHmacWithoutCheck(t: Token, key: string, nowNano: int)
    requires t.alg in KnownAlgs && t.alg !in HmacAlgs
    ensures ParseWithClaims(Encode(t), key, false, nowNano) == Failure(SignatureRejected(t.alg))
  {
    DecodeEncode(t);
  }
}
