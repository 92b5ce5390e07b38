/** The response side of the server (index.mjs:1019-1119, 1122-1155,
    1345-1439): the response kinds, the cookies and custom headers a response
    carries, and the header object rendered from them, with one `Set-Cookie`
    line per cookie in the shape of section 4.1.1 of RFC 6265. */
module Headers {
  import opened Base

  /** A header value: text (strings and numbers alike), a list of lines
      (`Set-Cookie`), or null/undefined, which is dropped before sending. */
  datatype HeaderValue = Text(text: string) | Lines(lines: seq<string>) | Nil

  /** A property of a cookie object: a Date (its `toUTCString()` and its
      string conversion) or any other value (its string conversion, whether
      it is truthy, whether it is null or undefined). */
  datatype Prop =
    | Date(utc: string, text: string)
    | Plain(text: string, truthy: bool, nullish: bool)

  /** The value given for one cookie name. */
  datatype Cookie =
    | Nullish                                // null or undefined: delete the cookie
    | Primitive(text: string)                // a string, number or boolean
    | Props(props: Entries<Prop>)            // an object of attributes, `value` among them

  /** The response kinds and what their constructors keep. */
  datatype ResponseKind =
    | Basic                                               // Response
    | Custom(data: seq<byte>, code: int, headers: Entries<HeaderValue>)
    | Json(code: int)                                     // JsonResponse (the object is not modelled)
    | Html(html: string, code: int)                       // HTMLResponse
    | Redirect(url: string, code: int)                    // RedirectResponse

  /** Five years in seconds: the default Max-Age of a cookie. */
  const DefaultMaxAge := 60 * 60 * 24 * 365 * 5

  /** The decimal text of DefaultMaxAge, as the cookie string carries it. */
  const DefaultMaxAgeText := "157680000"

  lemma DefaultMaxAgeDigits()
    ensures NatToString(DefaultMaxAge) == DefaultMaxAgeText
  {
    assert DefaultMaxAge == 157680000;
    assert NatToString(1) == "1";
    assert NatToString(15) == "15";
    assert NatToString(157) == "157";
    assert NatToString(1576) == "1576";
    assert NatToString(15768) == "15768";
    assert NatToString(157680) == "157680";
    assert NatToString(1576800) == "1576800";
    assert NatToString(15768000) == "15768000";
  }

  function StringProp(s: string): Prop {
    Plain(s, s != [], false)
  }

  /** The headers each kind starts from before cookies and custom headers. */
  function KindHeaders(kind: ResponseKind): Entries<HeaderValue> {
    match kind
    case Basic => [("Content-Type", Text("text/plain"))]
    case Custom(_, _, headers) => headers
    case Json(_) => [("Content-Type", Text("application/json"))]
    case Html(_, _) => [("Content-Type", Text("text/html; charset=utf-8"))]
    case Redirect(url, _) =>
      [("Content-Type", Text("text/html; charset=utf-8")),
       ("Cache-Control", Text("no-store, no-cache, must-revalidate")),
       ("Location", Text(url))]
  }

  /** `getCode()` of each kind. */
  function KindCode(kind: ResponseKind): int {
    match kind
    case Basic => 200
    case Custom(_, code, _) => code
    case Json(code) => code
    case Html(_, code) => code
    case Redirect(_, code) => code
  }

  // ---------------------------------------------------------------------
  // One cookie
  // ---------------------------------------------------------------------

  /** The properties of a cookie after the defaults: `maxage` and `path`
      first, then the cookie's own properties, which override them. */
  function CookieProps(c: Cookie): Entries<Prop> {
    var own := match c
      case Nullish => DeletedProps()
      case Primitive(t) => [("value", StringProp(t))]
      case Props(ps) => ps;
    Assign(CookieDefaults(), own)
  }

  /** `cookieValue.value ?? ''` as a string. */
  function ValueText(props: Entries<Prop>): string {
    match Lookup(props, "value")
    case None => ""
    case Some(v) => if v.Plain? && v.nullish then "" else v.text
  }

  /** `s.split('-').join('')`. */
  function WithoutDashes(s: string): (r: string)
    ensures '-' !in r
  {
    if s == [] then []
    else (if s[0] == '-' then [] else [s[0]]) + WithoutDashes(s[1..])
  }

  /** A property name with its dashes removed and lower-cased. */
  function AttributeKey(prop: string): string {
    ToLower(WithoutDashes(prop))
  }

  /** The attributes a cookie may carry, by normalised name. */
  function AttributeName(key: string): Option<string> {
    if key == "domain" then Some("Domain")
    else if key == "expires" then Some("Expires")
    else if key == "httponly" then Some("HttpOnly")
    else if key == "maxage" then Some("Max-Age")
    else if key == "partitioned" then Some("Partitioned")
    else if key == "path" then Some("Path")
    else if key == "samesite" then Some("Samesite")
    else if key == "secure" then Some("Secure")
    else None
  }

  predicate IsFlag(key: string) {
    key == "httponly" || key == "partitioned" || key == "secure"
  }

  function Truthy(v: Prop): bool {
    v.Date? || v.truthy
  }

  /** What one property adds to the cookie string: nothing for a property
      that is not an attribute; `; Name` for a truthy flag; `; Name=value`
      otherwise, a Date in its UTC form, a path as it is, any other value
      URI-encoded. */
  function AttributeText(prop: string, v: Prop, encode: string -> string): string {
    var key := AttributeKey(prop);
    match AttributeName(key)
    case None => ""
    case Some(name) =>
      if IsFlag(key) then (if Truthy(v) then "; " + name else "")
      else
        var text := if v.Date? then v.utc else if key == "path" then v.text else encode(v.text);
        "; " + name + "=" + text
  }

  /** The attributes of a property list, in enumeration order. */
  function Attributes(props: Entries<Prop>, encode: string -> string): string {
    ConcatMap(props, AttributeOf(encode))
  }

  function AttributeOf(encode: string -> string): ((string, Prop)) -> string {
    (p: (string, Prop)) => AttributeText(p.0, p.1, encode)
  }

  /** The `Set-Cookie` line of one cookie. */
  function CookieString(name: string, c: Cookie, encode: string -> string): string {
    var props := CookieProps(c);
    encode(name) + "=" + encode(ValueText(props)) + Attributes(props, encode)
  }

  /** The `Set-Cookie` lines of all cookies, in enumeration order. */
  function CookieLines(cookies: Entries<Cookie>, encode: string -> string): (r: seq<string>)
    ensures |r| == |cookies|
  {
    seq(|cookies|, i requires 0 <= i < |cookies| => CookieString(cookies[i].0, cookies[i].1, encode))
  }

  lemma {:induction false} WithoutDashesNone(s: string)
    requires forall i | 0 <= i < |s| :: s[i] != '-'
    ensures WithoutDashes(s) == s
  {
    if s != [] {
      WithoutDashesNone(s[1..]);
      assert [s[0]] + s[1..] == s;
    }
  }

  /** A property name without dashes or capitals is its own attribute key. */
  lemma AttributeKeyPlain(s: string)
    requires forall i | 0 <= i < |s| :: s[i] != '-' && !('A' <= s[i] <= 'Z')
    ensures AttributeKey(s) == s
  {
    WithoutDashesNone(s);
    assert ToLower(s) == s;
  }

  /** The two properties every cookie starts from. */
  function CookieDefaults(): Entries<Prop> {
    [("maxage", Plain(DefaultMaxAgeText, true, false)), ("path", StringProp("/"))]
  }

  /** A non-flag attribute renders as `; Name=value`. */
  lemma ValuedAttribute(prop: string, name: string, v: Prop, encode: string -> string)
    requires AttributeName(AttributeKey(prop)) == Some(name) && !IsFlag(AttributeKey(prop))
    ensures AttributeText(prop, v, encode) == "; " + name + "=" +
      (if v.Date? then v.utc else if AttributeKey(prop) == "path" then v.text else encode(v.text))
  {
  }

  lemma MaxAgeAttribute(text: string, encode: string -> string)
    ensures AttributeOf(encode)(("maxage", Plain(text, true, false))) == "; Max-Age=" + encode(text)
  {
    MaxAgeKey();
    ValuedAttribute("maxage", "Max-Age", Plain(text, true, false), encode);
    MaxAgePrefix();
  }

  lemma MaxAgeKey()
    ensures AttributeKey("maxage") == "maxage" && AttributeName("maxage") == Some("Max-Age")
    ensures !IsFlag("maxage")
  {
    AttributeKeyPlain("maxage");
    assert "maxage"[0] != "domain"[0] && "maxage"[0] != "secure"[0];
  }

  lemma MaxAgePrefix()
    ensures "; " + "Max-Age" + "=" == "; Max-Age="
  {
  }



  lemma PathAttribute(encode: string -> string)
    ensures AttributeOf(encode)(("path", StringProp("/"))) == "; Path=/"
  {
    PathKey();
    ValuedAttribute("path", "Path", StringProp("/"), encode);
    PathText();
  }

  lemma PathKey()
    ensures AttributeKey("path") == "path" && AttributeName("path") == Some("Path")
    ensures !IsFlag("path")
  {
    AttributeKeyPlain("path");
  }

  lemma PathText()
    ensures "; " + "Path" + "=" + "/" == "; Path=/"
  {
  }

  lemma DefaultAttributes(encode: string -> string)
    ensures Attributes(CookieDefaults(), encode) == "; Max-Age=" + encode(DefaultMaxAgeText) + "; Path=/"
  {
    var d := CookieDefaults();
    var f := AttributeOf(encode);
    MaxAgeAttribute(DefaultMaxAgeText, encode);
    PathAttribute(encode);
    ConcatMapPair(d[0], d[1], f);
  }

  /** A cookie object without `maxage` and `path` of its own comes after the
      defaults. */
  lemma DefaultProps(ps: Entries<Prop>)
    requires DistinctKeys(ps) && !HasKey(ps, "maxage") && !HasKey(ps, "path")
    ensures CookieProps(Props(ps)) == CookieDefaults() + ps
    ensures ValueText(CookieDefaults() + ps) == ValueText(ps)
  {
    DefaultsDisjoint(ps);
    AssignFresh(CookieDefaults(), ps);
    DefaultsValue(ps);
  }

  /** The defaults carry no `value`. */
  lemma DefaultsValue(ps: Entries<Prop>)
    requires Assign(CookieDefaults(), ps) == CookieDefaults() + ps
    ensures Lookup(CookieDefaults() + ps, "value") == Lookup(ps, "value")
  {
    AssignLookup(CookieDefaults(), ps, "value");
    assert Lookup(CookieDefaults(), "value") == None;
  }

  lemma DefaultsDisjoint(ps: Entries<Prop>)
    requires !HasKey(ps, "maxage") && !HasKey(ps, "path")
    ensures Disjoint(CookieDefaults(), ps)
  {
    var d := CookieDefaults();
    forall i, j | 0 <= i < |d| && 0 <= j < |ps|
      ensures d[i].0 != ps[j].0
    {
      assert i == 0 || i == 1;
    }
  }

  /** Without `maxage` and `path` of its own, a cookie object gets the
      defaults first: five years and the root path. */
  lemma DefaultsComeFirst(name: string, ps: Entries<Prop>, encode: string -> string)
    requires DistinctKeys(ps) && !HasKey(ps, "maxage") && !HasKey(ps, "path")
    ensures CookieString(name, Props(ps), encode) ==
      encode(name) + "=" + encode(ValueText(ps)) + ("; Max-Age=" + encode(DefaultMaxAgeText) + "; Path=/") + Attributes(ps, encode)
  {
    DefaultProps(ps);
    AttributesConcat(CookieDefaults(), ps, encode);
    DefaultAttributes(encode);
    AppendAssoc(encode(name) + "=" + encode(ValueText(ps)), Attributes(CookieDefaults(), encode), Attributes(ps, encode));
  }

  lemma AttributesConcat(a: Entries<Prop>, b: Entries<Prop>, encode: string -> string)
    ensures Attributes(a + b, encode) == Attributes(a, encode) + Attributes(b, encode)
  {
    ConcatMapAppend(a, b, AttributeOf(encode));
  }

  /** A null or undefined cookie value deletes the cookie: an empty value
      whose last attribute is `Max-Age=0`. */
  lemma DeletedCookie(name: string, encode: string -> string)
    ensures CookieString(name, Nullish, encode) ==
      encode(name) + "=" + encode("") + ("; Max-Age=" + encode(DefaultMaxAgeText) + "; Path=/") + ("; Max-Age=" + encode("0"))
  {
    var ps := DeletedProps();
    assert CookieProps(Nullish) == CookieProps(Props(ps));
    DeletedPropsFacts();
    DefaultsComeFirst(name, ps, encode);
    DeletedAttributes(encode);
  }

  lemma DeletedPropsFacts()
    ensures DistinctKeys(DeletedProps()) && !HasKey(DeletedProps(), "maxage") && !HasKey(DeletedProps(), "path")
    ensures ValueText(DeletedProps()) == ""
  {
  }

  /** The own properties of a deleted cookie: an empty value and `maxAge: 0`. */
  function DeletedProps(): Entries<Prop> {
    [("value", StringProp("")), ("maxAge", Plain("0", false, false))]
  }

  lemma DeletedAttributes(encode: string -> string)
    ensures Attributes(DeletedProps(), encode) == "; Max-Age=" + encode("0")
  {
    var ps := DeletedProps();
    var f := AttributeOf(encode);
    NotAnAttribute("value", ps[0].1, encode);
    CamelMaxAge(encode);
    ConcatMapPair(ps[0], ps[1], f);
    assert f(ps[0]) + f(ps[1]) == "; Max-Age=" + encode("0");
  }

  lemma NotAnAttribute(prop: string, v: Prop, encode: string -> string)
    requires prop == "value"
    ensures AttributeOf(encode)((prop, v)) == ""
  {
    ValueKey();
  }

  lemma ValueKey()
    ensures AttributeKey("value") == "value" && AttributeName("value") == None
  {
    AttributeKeyPlain("value");
  }

  lemma CamelKey()
    ensures AttributeKey("maxAge") == "maxage"
  {
    WithoutDashesNone("maxAge");
    LowerMaxAge();
  }

  lemma LowerMaxAge()
    ensures ToLower("maxAge") == "maxage"
  {
    var l := ToLower("maxAge");
    assert l[3] == ToLowerChar('A') == 'a';
  }

  lemma CamelMaxAge(encode: string -> string)
    ensures AttributeOf(encode)(("maxAge", Plain("0", false, false))) == "; Max-Age=" + encode("0")
  {
    CamelKey();
    MaxAgeKey();
    ValuedAttribute("maxAge", "Max-Age", Plain("0", false, false), encode);
    MaxAgePrefix();
  }

  /** A flag attribute appears exactly when its value is truthy. */
  lemma FlagAttribute(flag: string, v: Prop, encode: string -> string)
    requires flag == "secure" || flag == "httponly" || flag == "partitioned"
    ensures AttributeText(flag, v, encode) != [] <==> Truthy(v)
  {
    FlagKey(flag);
  }

  /** The flags are their own attribute keys. */
  lemma FlagKey(flag: string)
    requires flag == "secure" || flag == "httponly" || flag == "partitioned"
    ensures AttributeKey(flag) == flag && AttributeName(flag).Some? && IsFlag(flag)
  {
    AttributeNames();
    AttributeKeyPlain(flag);
  }

  /** The attribute names of the keys the lemmas here use. */
  lemma AttributeNames()
    ensures AttributeName("maxage") == Some("Max-Age")
    ensures AttributeName("path") == Some("Path")
    ensures AttributeName("secure") == Some("Secure")
    ensures AttributeName("httponly") == Some("HttpOnly")
    ensures AttributeName("partitioned") == Some("Partitioned")
    ensures AttributeName("value") == None
  {
    assert "maxage"[0] != "domain"[0];
    assert "secure"[0] != "domain"[0] && "secure"[0] != "maxage"[0];
    assert |"path"| == 4 && |"httponly"| == 8 && |"partitioned"| == 11 && |"value"| == 5;
  }





  // ---------------------------------------------------------------------
  // The header object
  // ---------------------------------------------------------------------

  /** The value a header has after null and undefined ones are deleted. */
  function Present(v: Option<HeaderValue>): Option<HeaderValue> {
    if v == Some(Nil) then None else v
  }

  /** `getMergedWithOtherHeaders(headers)`: the headers, then `Set-Cookie`
      when the response has cookies, then the custom headers over them,
      with every null or undefined header removed. */
  function Merged(headers: Entries<HeaderValue>, cookies: Option<Entries<Cookie>>,
                  custom: Entries<HeaderValue>, encode: string -> string): Entries<HeaderValue> {
    var withCookies := if cookies.Some? then Put(headers, "Set-Cookie", Lines(CookieLines(cookies.value, encode))) else headers;
    Assign(withCookies, custom)
  }

  /** `cookies ? { ...cookies, ...added } : added` (null spreads as nothing). */
  function CookiesAfterAdd(current: Option<Entries<Cookie>>, added: Option<Entries<Cookie>>): Option<Entries<Cookie>> {
    if current.Some? then Some(Assign(current.value, added.GetOr([]))) else added
  }

  /** Added cookies override the ones already set; the others stay. */
  lemma AddedCookieWins(current: Entries<Cookie>, added: Entries<Cookie>, name: string)
    ensures Lookup(CookiesAfterAdd(Some(current), Some(added)).value, name) ==
      if HasKey(added, name) then Lookup(added, name) else Lookup(current, name)
  {
    AssignLookup(current, added, name);
  }

  class Response {
    var kind: ResponseKind
    var cookies: Option<Entries<Cookie>>
    var customHeaders: Entries<HeaderValue>

    /** A response of the given kind, with the cookies its constructor takes
        (null by default) and no custom headers. */
    constructor (kind: ResponseKind, cookies: Option<Entries<Cookie>>)
      ensures this.kind == kind && this.cookies == cookies && customHeaders == []
    {
      this.kind := kind;
      this.cookies := cookies;
      customHeaders := [];
    }

    function Code(): int
      reads this
    {
      KindCode(kind)
    }

    method SetCookies(c: Option<Entries<Cookie>>)
      modifies this
      ensures cookies == c && kind == old(kind) && customHeaders == old(customHeaders)
    {
      cookies := c;
    }

    method AddCookies(added: Option<Entries<Cookie>>)
      modifies this
      ensures cookies == CookiesAfterAdd(old(cookies), added)
      ensures kind == old(kind) && customHeaders == old(customHeaders)
    {
      if cookies.Some? {
        cookies := Some(Assign(cookies.value, added.GetOr([])));
      } else {
        cookies := added;
      }
    }

    /** `getCookies()`: the cookies, or an empty object. */
    function GetCookies(): (r: Entries<Cookie>)
      reads this
      ensures cookies.None? ==> r == []
    {
      cookies.GetOr([])
    }

    method AddCustomHeaders(added: Entries<HeaderValue>)
      modifies this
      ensures customHeaders == Assign(old(customHeaders), added)
      ensures kind == old(kind) && cookies == old(cookies)
    {
      customHeaders := Assign(customHeaders, added);
    }

    /** `getHeaders()`: the kind's headers merged with cookies and custom
        headers. */
    method GetHeaders(encode: string -> string) returns (r: Entries<HeaderValue>)
      ensures forall k :: Lookup(r, k) == Present(Lookup(Merged(KindHeaders(kind), cookies, customHeaders, encode), k))
    {
      r := MergeWithOtherHeaders(KindHeaders(kind), cookies, customHeaders, encode);
    }
  }

  /** The cookie loop of index.mjs:1055-1097: one line per cookie. */
  method RenderCookies(cookies: Entries<Cookie>, encode: string -> string) returns (lines: seq<string>)
    ensures lines == CookieLines(cookies, encode)
  {
    lines := [];
    for i := 0 to |cookies|
      invariant lines == CookieLines(cookies[..i], encode)
    {
      var s := RenderCookie(cookies[i].0, cookies[i].1, encode);
      CookieLinesSnoc(cookies, i, encode);
      lines := lines + [s];
    }
    assert cookies[..|cookies|] == cookies;
  }

  lemma CookieLinesSnoc(cookies: Entries<Cookie>, i: nat, encode: string -> string)
    requires i < |cookies|
    ensures CookieLines(cookies[..i + 1], encode) == CookieLines(cookies[..i], encode) + [CookieString(cookies[i].0, cookies[i].1, encode)]
  {
    var longer := CookieLines(cookies[..i + 1], encode);
    var shorter := CookieLines(cookies[..i], encode);
    var last := CookieString(cookies[i].0, cookies[i].1, encode);
    forall j | 0 <= j < i
      ensures longer[j] == shorter[j]
    {
      assert cookies[..i + 1][j] == cookies[..i][j];
    }
    assert longer[i] == last by {
      assert cookies[..i + 1][i] == cookies[i];
    }
    assert longer == shorter + [last];
  }

  /** The string of one cookie: name and value, then the attributes one
      property at a time (index.mjs:1059-1095). */
  method RenderCookie(name: string, c: Cookie, encode: string -> string) returns (s: string)
    ensures s == CookieString(name, c, encode)
  {
    var props := CookieProps(c);
    var head := encode(name) + "=" + encode(ValueText(props));
    s := head;
    for j := 0 to |props|
      invariant s == head + Attributes(props[..j], encode)
    {
      var t := AttributeOf(encode)(props[j]);
      ConcatMapSnoc(props, j, AttributeOf(encode));
      AppendAssoc(head, Attributes(props[..j], encode), t);
      s := s + t;
    }
    assert props[..|props|] == props;
  }

  /** The deletion loop of index.mjs:1109-1113: every header whose value is
      null or undefined is removed; the others keep their values. */
  method DropNil(headers: Entries<HeaderValue>) returns (r: Entries<HeaderValue>)
    ensures forall k :: Lookup(r, k) == Present(Lookup(headers, k))
  {
    var keys := Keys(headers);
    r := headers;
    for i := 0 to |keys|
      invariant forall k :: Lookup(r, k) == if k in keys[..i] then Present(Lookup(headers, k)) else Lookup(headers, k)
    {
      var key := keys[i];
      if Lookup(r, key) == Some(Nil) {
        r := Remove(r, key);
      }
      assert forall k :: k in keys[..i + 1] <==> k in keys[..i] || k == key;
    }
    assert keys[..|keys|] == keys;
    forall k | HasKey(headers, k) ensures k in keys {
      var i :| 0 <= i < |headers| && headers[i].0 == k;
      assert keys[i] == k;
    }
  }

  /** `getMergedWithOtherHeaders`. */
  method MergeWithOtherHeaders(headers: Entries<HeaderValue>, cookies: Option<Entries<Cookie>>,
                               custom: Entries<HeaderValue>, encode: string -> string)
    returns (r: Entries<HeaderValue>)
    ensures forall k :: Lookup(r, k) == Present(Lookup(Merged(headers, cookies, custom, encode), k))
  {
    var merged := headers;
    if cookies.Some? {
      var lines := RenderCookies(cookies.value, encode);
      merged := Put(merged, "Set-Cookie", Lines(lines));
    }
    merged := Assign(merged, custom);
    r := DropNil(merged);
  }

  /** Which header wins: a custom header over everything, `Set-Cookie` from
      the cookies over the kind's own, and nothing null or undefined is
      sent. */
  lemma MergedLookup(headers: Entries<HeaderValue>, cookies: Option<Entries<Cookie>>,
                     custom: Entries<HeaderValue>, encode: string -> string, k: string)
    ensures Present(Lookup(Merged(headers, cookies, custom, encode), k)) ==
      Present(if HasKey(custom, k) then Lookup(custom, k)
              else if k == "Set-Cookie" && cookies.Some? then Some(Lines(CookieLines(cookies.value, encode)))
              else Lookup(headers, k))
    ensures Present(Lookup(Merged(headers, cookies, custom, encode), k)) != Some(Nil)
  {
    var withCookies := if cookies.Some? then Put(headers, "Set-Cookie", Lines(CookieLines(cookies.value, encode))) else headers;
    AssignLookup(withCookies, custom, k);
  }

  /** The answer to a preflight request (a CustomResponse of no bytes with
      `Content-Type: null`) is sent without a Content-Type. */
  lemma PreflightHasNoContentType(cookies: Option<Entries<Cookie>>, encode: string -> string)
    ensures Present(Lookup(Merged(KindHeaders(Custom([], 200, [("Content-Type", Nil)])), cookies, [], encode), "Content-Type")) == None
  {
    MergedLookup([("Content-Type", Nil)], cookies, [], encode, "Content-Type");
  }
}
