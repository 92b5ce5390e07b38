/** The `Request` class (index.mjs:723-1018): the method, lower-cased
    headers, normalised path and query parameters fixed at construction, and
    the body, merged parameters and cookies computed on first use and kept. */
module Requests {
  import opened Base
  import opened FormFields
  import opened Multipart

  /** How the promise of `getBody` settles. */
  datatype Body = Resolved(value: Value) | Rejected

  /** The library functions a request relies on: UTF-8 decoding of a
      Buffer, decodeURIComponent (None where it throws), querystring.parse
      and JSON.parse (None where it throws). */
  datatype Library = Library(
    utf8: seq<byte> -> string,
    decodeUri: string -> Option<string>,
    parseQuery: string -> Entries<Value>,
    parseJson: string -> Option<Value>)

  const UrlEncoded := "application/x-www-form-urlencoded"
  const MultipartForm := "multipart/form-data"
  const Json := "application/json"

  // ---------------------------------------------------------------------
  // Construction (index.mjs:738-754)
  // ---------------------------------------------------------------------

  /** The header names lower-cased, in the order Node lists them. */
  function LowerCased(raw: Entries<string>): (r: Entries<string>)
    ensures |r| == |raw|
    ensures forall i | 0 <= i < |raw| :: r[i] == (ToLower(raw[i].0), raw[i].1)
  {
    seq(|raw|, i requires 0 <= i < |raw| => (ToLower(raw[i].0), raw[i].1))
  }

  /** `pathname.split('/').filter(x => x).join('/')`. */
  function NormalPath(pathname: string): string {
    Join(Segments(pathname, '/'), '/')
  }

  /** The values of string-valued properties as form-field values. */
  function AsValues(m: Entries<string>): (r: Entries<Value>)
    ensures |r| == |m|
    ensures forall i | 0 <= i < |m| :: r[i] == (m[i].0, Str(m[i].1))
  {
    seq(|m|, i requires 0 <= i < |m| => (m[i].0, Str(m[i].1)))
  }

  // ---------------------------------------------------------------------
  // Body selection (index.mjs:779-825)
  // ---------------------------------------------------------------------

  /** The body `getBody` settles to: the query parameters for a GET that is
      not a urlencoded form (the payload is never consulted), otherwise the
      payload decoded by the first content type the header mentions, and the
      raw bytes when it mentions none. */
  function SelectBody(verb: string, headers: Entries<string>, query: Entries<string>,
                      payload: seq<byte>, lib: Library): Body {
    var contentType := Lookup(headers, "content-type").GetOr("");
    if verb == "GET" && !Contains(contentType, UrlEncoded) then
      Resolved(Normalized(AsValues(query)))
    else if Contains(contentType, UrlEncoded) then
      Resolved(Normalized(lib.parseQuery(lib.utf8(payload))))
    else if Contains(contentType, MultipartForm) then
      match Decoded(payload, contentType, lib.utf8, lib.decodeUri)
      case None => Rejected
      case Some(v) => Resolved(v)
    else if Contains(contentType, Json) then
      match lib.parseJson(lib.utf8(payload))
      case None => Rejected
      case Some(v) => Resolved(v)
    else Resolved(Bytes(payload))
  }

  // ---------------------------------------------------------------------
  // Merged parameters (index.mjs:983-995)
  // ---------------------------------------------------------------------

  function KeySet<V>(m: Entries<V>): (r: set<string>)
    ensures forall k :: k in r <==> HasKey(m, k)
  {
    set i | 0 <= i < |m| :: m[i].0
  }

  /** A JavaScript object as the property map it denotes. */
  function AsMap(m: Entries<string>): (r: map<string, Value>)
    ensures forall k :: k in r <==> HasKey(m, k)
    ensures forall k | k in r :: r[k] == Str(Lookup(m, k).value)
  {
    map k | k in KeySet(m) :: Str(Lookup(m, k).value)
  }

  /** Properties "0" … "n-1" holding the first `n` elements: each index
      names its element, and every key is the name of an index below `n`. */
  function IndexMap(items: seq<Value>, n: nat): (r: map<string, Value>)
    requires n <= |items|
    ensures forall i | 0 <= i < n :: NatToString(i) in r && r[NatToString(i)] == items[i]
    ensures forall k | k in r :: AllDigits(k) && DigitsValue(k) < n && k == NatToString(DigitsValue(k))
    decreases n
  {
    if n == 0 then map[]
    else
      var prev := IndexMap(items, n - 1);
      IndexValuesStep(prev, items, n - 1);
      IndexKeysStep(prev, n - 1, items[n - 1]);
      prev[NatToString(n - 1) := items[n - 1]]
  }

  /** The element at `n`, added under its name, keeps the earlier ones. */
  lemma IndexValuesStep(prev: map<string, Value>, items: seq<Value>, n: nat)
    requires n < |items|
    requires forall i | 0 <= i < n :: NatToString(i) in prev && prev[NatToString(i)] == items[i]
    ensures var r := prev[NatToString(n) := items[n]];
      forall i | 0 <= i < n + 1 :: NatToString(i) in r && r[NatToString(i)] == items[i]
  {
    var r := prev[NatToString(n) := items[n]];
    forall i | 0 <= i < n + 1
      ensures NatToString(i) in r && r[NatToString(i)] == items[i]
    {
      if i < n {
        NatToStringInjective(i, n);
      }
    }
  }

  /** The name of `n` is the name of an index below `n + 1`. */
  lemma IndexKeysStep(prev: map<string, Value>, n: nat, v: Value)
    requires forall k | k in prev :: AllDigits(k) && DigitsValue(k) < n && k == NatToString(DigitsValue(k))
    ensures forall k | k in prev[NatToString(n) := v] ::
      AllDigits(k) && DigitsValue(k) < n + 1 && k == NatToString(DigitsValue(k))
  {
    NatToStringValue(n);
  }

  /** The own enumerable properties spreading `body` contributes: an
      object's, an array's or a Buffer's indexed elements, none for null or
      an uploaded file (its fields are private), and `{ body }` for a string,
      number or boolean. */
  function OwnProperties(body: Value): map<string, Value> {
    match body
    case Obj(fields) => fields
    case Arr(items) => IndexMap(items, |items|)
    case Bytes(data) =>
      var numbers := seq(|data|, i requires 0 <= i < |data| => Scalar(NatToString(data[i] as nat)));
      IndexMap(numbers, |numbers|)
    case Null => map[]
    case File(_, _, _) => map[]
    case Str(_) => map["body" := body]
    case Scalar(_) => map["body" := body]
  }

  /** `{...query, ...pathParams, ...(typeof body === 'object' ? body : { body })}`. */
  function MergedParams(query: Entries<string>, pathParams: Entries<string>, body: Value): map<string, Value> {
    AsMap(query) + AsMap(pathParams) + OwnProperties(body)
  }

  /** The body wins over the path parameters, which win over the query;
      every name of each of the three is present. */
  lemma ParamsPrecedence(query: Entries<string>, pathParams: Entries<string>, body: Value, k: string)
    ensures k in MergedParams(query, pathParams, body)
        <==> k in OwnProperties(body) || HasKey(pathParams, k) || HasKey(query, k)
    ensures k in OwnProperties(body) ==>
      MergedParams(query, pathParams, body)[k] == OwnProperties(body)[k]
    ensures k !in OwnProperties(body) && HasKey(pathParams, k) ==>
      MergedParams(query, pathParams, body)[k] == Str(Lookup(pathParams, k).value)
    ensures k !in OwnProperties(body) && !HasKey(pathParams, k) && HasKey(query, k) ==>
      MergedParams(query, pathParams, body)[k] == Str(Lookup(query, k).value)
  {
  }

  /** An array body contributes its elements under their indexes and no
      other name, and they win over path parameters and query. */
  lemma ArrayBodyParams(query: Entries<string>, pathParams: Entries<string>, items: seq<Value>, k: string)
    ensures k in OwnProperties(Arr(items)) ==>
      AllDigits(k) && DigitsValue(k) < |items| && MergedParams(query, pathParams, Arr(items))[k] == items[DigitsValue(k)]
    ensures forall i | 0 <= i < |items| :: MergedParams(query, pathParams, Arr(items))[NatToString(i)] == items[i]
  {
    var own := IndexMap(items, |items|);
    if k in own {
      assert k == NatToString(DigitsValue(k));
    }
  }

  /** A body that is a string, number or boolean is reachable as `body`. */
  lemma ScalarBodyUnderBody(query: Entries<string>, pathParams: Entries<string>, body: Value)
    requires body.Str? || body.Scalar?
    ensures MergedParams(query, pathParams, body)["body"] == body
  {
  }

  // ---------------------------------------------------------------------
  // Cookies (index.mjs:997-1008)
  // ---------------------------------------------------------------------

  /** `[decodeURIComponent(x[0] ?? ''), decodeURIComponent(x[1] ?? '')]` for
      each `;`-separated piece split at `=`; None where decoding throws. */
  function DecodePairs(pieces: seq<string>, decode: string -> Option<string>): (r: Option<seq<(string, string)>>)
    ensures r.Some? ==> |r.value| == |pieces|
  {
    if pieces == [] then Some([])
    else
      var x := SplitTrimmed(pieces[0], '=');
      var name := decode(x[0]);
      var value := decode(if |x| > 1 then x[1] else "");
      var rest := DecodePairs(pieces[1..], decode);
      if name.None? || value.None? || rest.None? then None
      else Some([(name.value, value.value)] + rest.value)
  }

  /** The object `getCookies` builds from the Cookie header (an absent
      header reads as the empty string); a later cookie of the same name
      wins. */
  function ParseCookies(header: Option<string>, decode: string -> Option<string>): Option<Entries<string>> {
    match DecodePairs(SplitTrimmed(header.GetOr(""), ';'), decode)
    case None => None
    case Some(pairs) => Some(Assign([], pairs))
  }

  /** The Cookie header a client sends for these cookies. */
  function CookieHeader(pairs: seq<(string, string)>): string {
    Join(seq(|pairs|, i requires 0 <= i < |pairs| => pairs[i].0 + "=" + pairs[i].1), ';')
  }

  /** Text that survives both splits and both trims unchanged. */
  predicate CookieText(s: string) {
    ';' !in s && '=' !in s && forall i | 0 <= i < |s| :: !IsSpace(s[i])
  }

  lemma TrimStartPlain(s: string)
    requires s == [] || !IsSpace(s[0])
    ensures TrimStart(s) == s
  {
  }

  lemma TrimEndPlain(s: string)
    requires s == [] || !IsSpace(s[|s| - 1])
    ensures TrimEnd(s) == s
  {
  }

  /** One cookie `name=value` splits back into its name and value. */
  lemma CookiePiece(name: string, value: string)
    requires CookieText(name) && CookieText(value)
    ensures SplitTrimmed(name + "=" + value, '=') == [name, value]
  {
    SplitAfter(value, '=', []);
    SplitAfter(name, '=', value);
    assert name + "=" + value == name + ['='] + value;
    var raw := Split(name + "=" + value, '=');
    assert raw == [name, value];
    TrimEndPlain(name);
    TrimStartPlain(value);
  }

  /** The pieces of a Cookie header built from plain cookies are the
      cookies. */
  lemma CookiePieces(pairs: seq<(string, string)>)
    requires pairs != []
    requires forall i | 0 <= i < |pairs| :: CookieText(pairs[i].0) && CookieText(pairs[i].1)
    ensures SplitTrimmed(CookieHeader(pairs), ';') ==
      seq(|pairs|, i requires 0 <= i < |pairs| => pairs[i].0 + "=" + pairs[i].1)
  {
    var pieces := seq(|pairs|, i requires 0 <= i < |pairs| => pairs[i].0 + "=" + pairs[i].1);
    forall i | 0 <= i < |pieces|
      ensures ';' !in pieces[i]
      ensures TrimStart(pieces[i]) == pieces[i] && TrimEnd(pieces[i]) == pieces[i]
    {
      PieceClean(pairs[i].0, pairs[i].1);
    }
    SplitJoin(pieces, ';');
    SplitTrimmedPlain(CookieHeader(pairs), ';');
  }

  /** A cookie `name=value` has no white space at its ends. */
  lemma PieceClean(name: string, value: string)
    requires CookieText(name) && CookieText(value)
    ensures TrimStart(name + "=" + value) == name + "=" + value
    ensures TrimEnd(name + "=" + value) == name + "=" + value
  {
    var p := name + "=" + value;
    assert p[0] == (if name == [] then '=' else name[0]);
    assert p[|p| - 1] == (if value == [] then '=' else value[|value| - 1]);
    TrimStartPlain(p);
    TrimEndPlain(p);
  }

  lemma {:induction false} DecodeCookiePairs(pairs: seq<(string, string)>, decode: string -> Option<string>)
    requires forall i | 0 <= i < |pairs| :: CookieText(pairs[i].0) && CookieText(pairs[i].1)
    requires forall i | 0 <= i < |pairs| :: decode(pairs[i].0) == Some(pairs[i].0) && decode(pairs[i].1) == Some(pairs[i].1)
    ensures DecodePairs(seq(|pairs|, i requires 0 <= i < |pairs| => pairs[i].0 + "=" + pairs[i].1), decode) == Some(pairs)
    decreases |pairs|
  {
    var pieces := seq(|pairs|, i requires 0 <= i < |pairs| => pairs[i].0 + "=" + pairs[i].1);
    if pairs != [] {
      var tail := pairs[1..];
      assert pieces[1..] == seq(|tail|, i requires 0 <= i < |tail| => tail[i].0 + "=" + tail[i].1);
      DecodeCookiePairs(tail, decode);
      CookiePiece(pairs[0].0, pairs[0].1);
      DecodeCons(pieces, decode, pairs[0], tail);
      assert [pairs[0]] + tail == pairs;
    }
  }

  /** A piece that splits into a name and value decoding to themselves, in
      front of pieces that decode. */
  lemma DecodeCons(pieces: seq<string>, decode: string -> Option<string>,
                   pair: (string, string), rest: seq<(string, string)>)
    requires pieces != [] && SplitTrimmed(pieces[0], '=') == [pair.0, pair.1]
    requires decode(pair.0) == Some(pair.0) && decode(pair.1) == Some(pair.1)
    requires DecodePairs(pieces[1..], decode) == Some(rest)
    ensures DecodePairs(pieces, decode) == Some([pair] + rest)
  {
  }

  /** Cookies with distinct plain names and values, sent in one Cookie
      header, are read back as they were sent. */
  lemma CookieRoundTrip(pairs: seq<(string, string)>, decode: string -> Option<string>)
    requires pairs != [] && DistinctKeys(pairs)
    requires forall i | 0 <= i < |pairs| :: CookieText(pairs[i].0) && CookieText(pairs[i].1)
    requires forall i | 0 <= i < |pairs| :: decode(pairs[i].0) == Some(pairs[i].0) && decode(pairs[i].1) == Some(pairs[i].1)
    ensures ParseCookies(Some(CookieHeader(pairs)), decode) == Some(pairs)
  {
    CookiePieces(pairs);
    DecodeCookiePairs(pairs, decode);
    AssignFresh([], pairs);
    assert [] + pairs == pairs;
  }

  /** Without a Cookie header the result is one cookie with an empty name
      and an empty value. */
  lemma NoCookieHeader(decode: string -> Option<string>)
    requires decode("") == Some("")
    ensures ParseCookies(None, decode) == Some([("", "")])
  {
    EmptyHeaderPieces();
    EmptyPieceDecodes(decode);
    SingleAssign("", "");
  }

  /** An absent header is read as the empty text, one empty piece. */
  lemma EmptyHeaderPieces()
    ensures SplitTrimmed("", ';') == [""] && SplitTrimmed("", '=') == [""]
  {
    assert Split("", ';') == [""] && Split("", '=') == [""];
  }

  lemma EmptyPieceDecodes(decode: string -> Option<string>)
    requires decode("") == Some("") && SplitTrimmed("", '=') == [""]
    ensures DecodePairs([""], decode) == Some([("", "")])
  {
    var pieces: seq<string> := [""];
    var none: seq<(string, string)> := [];
    assert pieces[1..] == [];
    assert [("", "")] + none == [("", "")];
  }

  /** One pair assigned to an empty object. */
  lemma SingleAssign(k: string, v: string)
    ensures Assign([], [(k, v)]) == [(k, v)]
  {
    var none: Entries<string> := [];
    var pairs := [(k, v)];
    assert pairs[1..] == [];
    PutFresh(none, k, v);
    assert none + pairs == pairs;
  }

  // ---------------------------------------------------------------------
  // The request object
  // ---------------------------------------------------------------------

  /** Assigns each pair in turn to a fresh object, later pairs overwriting
      earlier ones under the same name. */
  method AssignAll(pairs: Entries<string>) returns (r: Entries<string>)
    ensures r == Assign([], pairs)
  {
    r := [];
    for i := 0 to |pairs|
      invariant r == Assign([], pairs[..i])
    {
      AssignPrefix(pairs, i);
      r := Put(r, pairs[i].0, pairs[i].1);
    }
    assert pairs[..|pairs|] == pairs;
  }

  class Request {
    /** `request.method.toUpperCase()`. */
    const verb: string
    /** The headers under lower-cased names. */
    const headers: Entries<string>
    /** The path without empty segments and without leading or trailing `/`. */
    const path: string
    const queryParams: Entries<string>
    /** The bytes the request stream delivers. */
    const payload: seq<byte>
    var pathParams: Entries<string>
    /** The memo fields `#bodyPromise`, `#allParams` and `#cookies`. */
    var body: Option<Body>
    var allParams: Option<map<string, Value>>
    var cookies: Option<Entries<string>>

    /** `pathname` and `search` are what the URL parser makes of
        `http://localhost` followed by the request target. */
    constructor(requestMethod: string, rawHeaders: Entries<string>, pathname: string,
                search: seq<(string, string)>, payload: seq<byte>)
      ensures verb == ToUpper(requestMethod)
      ensures headers == Assign([], LowerCased(rawHeaders))
      ensures path == NormalPath(pathname)
      ensures queryParams == Assign([], search)
      ensures this.payload == payload
      ensures pathParams == [] && body == None && allParams == None && cookies == None
    {
      var hs := AssignAll(LowerCased(rawHeaders));
      var qs := AssignAll(search);
      verb := ToUpper(requestMethod);
      headers := hs;
      path := NormalPath(pathname);
      queryParams := qs;
      this.payload := payload;
      pathParams := [];
      body := None;
      allParams := None;
      cookies := None;
    }

    method SetPathParams(params: Entries<string>)
      modifies this
      ensures pathParams == params
      ensures body == old(body) && allParams == old(allParams) && cookies == old(cookies)
    {
      pathParams := params;
    }

    /** `getBody`: the body is selected on the first call and every later
        call settles the same way. */
    method GetBody(lib: Library) returns (b: Body)
      modifies this
      ensures old(body).Some? ==> b == old(body).value
      ensures old(body).None? ==> b == SelectBody(verb, headers, queryParams, payload, lib)
      ensures body == Some(b)
      ensures pathParams == old(pathParams) && allParams == old(allParams) && cookies == old(cookies)
    {
      if body.Some? {
        return body.value;
      }
      var contentType := Lookup(headers, "content-type").GetOr("");
      if verb == "GET" && !Contains(contentType, UrlEncoded) {
        var fields := NormalizeFormFields(AsValues(queryParams));
        b := Resolved(fields);
      } else if Contains(contentType, UrlEncoded) {
        var fields := NormalizeFormFields(lib.parseQuery(lib.utf8(payload)));
        b := Resolved(fields);
      } else if Contains(contentType, MultipartForm) {
        var parsed := ParseMultipart(payload, contentType, lib.utf8, lib.decodeUri);
        b := if parsed.Some? then Resolved(parsed.value) else Rejected;
      } else if Contains(contentType, Json) {
        var parsed := lib.parseJson(lib.utf8(payload));
        b := if parsed.Some? then Resolved(parsed.value) else Rejected;
      } else {
        b := Resolved(Bytes(payload));
      }
      body := Some(b);
    }

    /** `getAllParams`: None when the body is rejected; the merge is made
        once, from the path parameters of the moment, and kept. */
    method GetAllParams(lib: Library) returns (r: Option<map<string, Value>>)
      modifies this
      ensures old(allParams).Some? ==> r == old(allParams) && body == old(body)
      ensures old(allParams).None? ==>
        var b := if old(body).Some? then old(body).value
                 else SelectBody(verb, headers, queryParams, payload, lib);
        body == Some(b) &&
        r == (if b.Rejected? then None else Some(MergedParams(queryParams, pathParams, b.value)))
      ensures allParams == (if old(allParams).Some? then old(allParams) else r)
      ensures pathParams == old(pathParams) && cookies == old(cookies)
    {
      if allParams.Some? {
        return allParams;
      }
      var b := GetBody(lib);
      if b.Rejected? {
        return None;
      }
      r := Some(MergedParams(queryParams, pathParams, b.value));
      allParams := r;
    }

    /** `getCookies`: parsed on the first call that does not throw, then
        kept. */
    method GetCookies(decode: string -> Option<string>) returns (r: Option<Entries<string>>)
      modifies this
      ensures old(cookies).Some? ==> r == old(cookies)
      ensures old(cookies).None? ==> r == ParseCookies(Lookup(headers, "cookie"), decode)
      ensures cookies == (if old(cookies).Some? then old(cookies) else r)
      ensures pathParams == old(pathParams) && body == old(body) && allParams == old(allParams)
    {
      if cookies.Some? {
        return cookies;
      }
      r := ParseCookies(Lookup(headers, "cookie"), decode);
      cookies := r;
    }
  }

  // ---------------------------------------------------------------------
  // Properties of construction and body selection
  // ---------------------------------------------------------------------

  /** A header is found under its lower-cased name, with the value of the
      last header whose name lower-cases to it. */
  lemma HeaderLookup(raw: Entries<string>, k: string)
    ensures Lookup(Assign([], LowerCased(raw)), k) == Lookup(LowerCased(raw), k)
  {
    AssignLookup([], LowerCased(raw), k);
  }

  lemma {:induction false} NonEmptyIdentity(xs: seq<string>)
    requires forall i | 0 <= i < |xs| :: xs[i] != []
    ensures NonEmpty(xs) == xs
    decreases |xs|
  {
    if xs != [] {
      NonEmptyIdentity(xs[1..]);
      assert [xs[0]] + xs[1..] == xs;
    }
  }

  /** The path's own segments are the non-empty segments of the URL path, so
      normalising it again changes nothing. */
  lemma NormalPathSegments(pathname: string)
    ensures Segments(NormalPath(pathname), '/') == Segments(pathname, '/')
    ensures NormalPath(NormalPath(pathname)) == NormalPath(pathname)
  {
    var segs := Segments(pathname, '/');
    if segs == [] {
      assert NormalPath(pathname) == [];
      assert Split([], '/') == [[]];
      assert NonEmpty([[]]) == [];
    } else {
      SplitJoin(segs, '/');
      NonEmptyIdentity(segs);
    }
  }

  /** A GET request that is not a urlencoded form gets its query parameters
      as its body, whatever its payload. */
  lemma GetReadsQuery(verb: string, headers: Entries<string>, query: Entries<string>,
                      p1: seq<byte>, p2: seq<byte>, lib: Library)
    requires verb == "GET" && !Contains(Lookup(headers, "content-type").GetOr(""), UrlEncoded)
    ensures SelectBody(verb, headers, query, p1, lib) == SelectBody(verb, headers, query, p2, lib)
    ensures SelectBody(verb, headers, query, p1, lib) == Resolved(Normalized(AsValues(query)))
  {
  }

  /** A payload of a type none of the three parsers claims is kept as bytes. */
  lemma RawPayloadKept(verb: string, headers: Entries<string>, query: Entries<string>,
                       payload: seq<byte>, lib: Library)
    requires verb != "GET"
    requires var ct := Lookup(headers, "content-type").GetOr("");
      !Contains(ct, UrlEncoded) && !Contains(ct, MultipartForm) && !Contains(ct, Json)
    ensures SelectBody(verb, headers, query, payload, lib) == Resolved(Bytes(payload))
  {
  }
}
