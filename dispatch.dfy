/** Dispatch of one request (the part of `handleRequest` between building
    the Request and asking the response for its code, headers and body,
    index.mjs:1628-1714), and the cache of static file responses
    (index.mjs:1618-1626, 1650-1664). */
module Dispatch {
  import opened Base
  import opened Headers
  import opened Ranges
  import opened Routes

  // ---------------------------------------------------------------------
  // Following the path through the trie (index.mjs:1666-1690)
  // ---------------------------------------------------------------------

  /** `/^{\w+}$/`: a parameter segment such as `{id}`. */
  predicate IsParamKey(k: string) {
    |k| >= 3 && k[0] == '{' && k[|k| - 1] == '}' && forall i | 1 <= i < |k| - 1 :: IsWordChar(k[i])
  }

  /** `k.replace(/[{}]/gm, '')` on a parameter segment. */
  function ParamName(k: string): string
    requires IsParamKey(k)
  {
    k[1..|k| - 1]
  }

  /** The first parameter segment among the children, in enumeration order. */
  function FirstParam(children: Entries<Trie>, from: nat): (r: Option<nat>)
    requires from <= |children|
    ensures r.Some? ==> from <= r.value < |children| && IsParamKey(children[r.value].0)
    ensures forall i | from <= i < (if r.Some? then r.value else |children|) :: !IsParamKey(children[i].0)
    decreases |children| - from
  {
    if from == |children| then None
    else if IsParamKey(children[from].0) then Some(from)
    else FirstParam(children, from + 1)
  }

  /** Where the segment loop stops: at a node, with the parameters bound on
      the way; at a missing segment; or at a parameter that does not decode. */
  datatype Walked = Arrived(node: Trie, params: Entries<string>) | Lost | BadSegment

  /** One segment: a literal child is taken before any parameter child, and
      the first parameter child binds the decoded segment. */
  function Step(t: Trie, f: string, params: Entries<string>, decode: string -> Option<string>): Walked {
    match Lookup(t.children, f)
    case Some(child) => Arrived(child, params)
    case None =>
      match FirstParam(t.children, 0)
      case None => Lost
      case Some(j) =>
        match decode(f)
        case None => BadSegment
        case Some(v) => Arrived(t.children[j].1, Put(params, ParamName(t.children[j].0), v))
  }

  /** The segment loop from `frags` on; it ends at the first empty segment. */
  function Walk(t: Trie, frags: seq<string>, params: Entries<string>, decode: string -> Option<string>): Walked
    decreases |frags|
  {
    if frags == [] || frags[0] == [] then Arrived(t, params)
    else match Step(t, frags[0], params, decode)
      case Arrived(child, params') => Walk(child, frags[1..], params', decode)
      case other => other
  }

  /** The route a request reaches: the route and its parameters, no route,
      or a segment whose decoding threw. */
  datatype Resolution = Found(route: Route, params: Entries<string>, options: bool) | Unrouted | Undecodable

  /** The key OPTIONS falls back to: the Access-Control-Request-Method
      header, upper-cased (an absent header reads as `undefined`). */
  function FallbackKey(acrm: Option<string>): string {
    ToUpper("/" + acrm.GetOr("undefined") + "/")
  }

  function Resolve(trie: Trie, path: string, verb: string, acrm: Option<string>,
                   decode: string -> Option<string>): Resolution {
    match Walk(trie, Split(path, '/'), [], decode)
    case BadSegment => Undecodable
    case Lost => Unrouted
    case Arrived(node, params) => Pick(node, params, verb, acrm)
  }

  /** The body of the segment loop (index.mjs:1671-1688). */
  method StepSegment(node: Trie, fragment: string, params: Entries<string>, decode: string -> Option<string>)
    returns (s: Walked)
    ensures s == Step(node, fragment, params, decode)
  {
    var next := Lookup(node.children, fragment);
    if next.Some? {
      return Arrived(next.value, params);
    }
    var k := 0;
    while k < |node.children| && !IsParamKey(node.children[k].0)
      invariant 0 <= k <= |node.children|
      invariant FirstParam(node.children, 0) == FirstParam(node.children, k)
    {
      k := k + 1;
    }
    if k == |node.children| {
      return Lost;
    }
    var decoded := decode(fragment);
    if decoded.None? {
      return BadSegment;
    }
    s := Arrived(node.children[k].1, Put(params, ParamName(node.children[k].0), decoded.value));
  }

  /** The handler a reached node gives the request. */
  function Pick(node: Trie, params: Entries<string>, verb: string, acrm: Option<string>): Resolution {
    if verb == "OPTIONS" && Lookup(node.handlers, "/OPTIONS/").None? then
      match Lookup(node.handlers, FallbackKey(acrm))
      case Some(r) => Found(r, params, true)
      case None => Unrouted
    else
      match Lookup(node.handlers, "/" + verb + "/")
      case Some(r) => Found(r, params, false)
      case None => Unrouted
  }

  lemma WalkOne(t: Trie, frags: seq<string>, i: nat, params: Entries<string>, decode: string -> Option<string>)
    requires i < |frags| && frags[i] != []
    ensures Walk(t, frags[i..], params, decode) ==
      match Step(t, frags[i], params, decode)
      case Arrived(child, params') => Walk(child, frags[i + 1..], params', decode)
      case other => other
  {
    assert frags[i..][1..] == frags[i + 1..];
  }

  lemma WalkEnd(t: Trie, frags: seq<string>, i: nat, params: Entries<string>, decode: string -> Option<string>)
    requires i <= |frags| && (i == |frags| || frags[i] == [])
    ensures Walk(t, frags[i..], params, decode) == Arrived(t, params)
  {
  }

  /** The loops of index.mjs:1666-1698. */
  method ResolveRoute(trie: Trie, path: string, verb: string, acrm: Option<string>,
                      decode: string -> Option<string>) returns (r: Resolution)
    ensures r == Resolve(trie, path, verb, acrm, decode)
  {
    var frags := Split(path, '/');
    var node := trie;
    var params: Entries<string> := [];
    var i := 0;
    while i < |frags| && frags[i] != []
      invariant 0 <= i <= |frags|
      invariant Walk(trie, frags, [], decode) == Walk(node, frags[i..], params, decode)
    {
      WalkOne(node, frags, i, params, decode);
      var s := StepSegment(node, frags[i], params, decode);
      if s.Lost? {
        return Unrouted;
      } else if s.BadSegment? {
        return Undecodable;
      }
      node, params := s.node, s.params;
      i := i + 1;
    }
    WalkEnd(node, frags, i, params, decode);
    r := Pick(node, params, verb, acrm);
  }

  /** Following literal segments reaches the node `Find` reads. */
  lemma {:induction false} WalkLiteral(t: Trie, segs: seq<string>, tail: seq<string>, params: Entries<string>,
                                       decode: string -> Option<string>, key: string)
    requires forall i | 0 <= i < |segs| :: segs[i] != []
    requires tail == [] || tail[0] == []
    requires Find(t, segs, key).Some?
    ensures Walk(t, segs + tail, params, decode).Arrived?
    ensures Walk(t, segs + tail, params, decode).params == params
    ensures forall k :: Lookup(Walk(t, segs + tail, params, decode).node.handlers, k) == Find(t, segs, k)
    decreases |segs|
  {
    if segs == [] {
      assert segs + tail == tail;
    } else {
      assert (segs + tail)[1..] == segs[1..] + tail;
      var child := Lookup(t.children, segs[0]).value;
      WalkLiteral(child, segs[1..], tail, params, decode, key);
    }
  }

  /** The fragments of a path joined from non-empty segments: the segments,
      or the single empty fragment of the empty path. */
  lemma JoinedFragments(segs: seq<string>)
    requires forall i | 0 <= i < |segs| :: segs[i] != [] && '/' !in segs[i]
    ensures Split(Join(segs, '/'), '/') == segs + (if segs == [] then [[]] else [])
  {
    if segs != [] {
      SplitJoin(segs, '/');
    }
  }

  /** A route stored under literal segments is what the path made of those
      segments reaches, with no parameters bound, whatever parameter
      segments sit beside them. */
  lemma LiteralRouteFound(t: Trie, segs: seq<string>, verb: string, acrm: Option<string>,
                          decode: string -> Option<string>, route: Route)
    requires forall i | 0 <= i < |segs| :: segs[i] != [] && '/' !in segs[i]
    requires Find(t, segs, "/" + verb + "/") == Some(route)
    ensures Resolve(t, Join(segs, '/'), verb, acrm, decode) == Found(route, [], false)
  {
    var tail: seq<string> := if segs == [] then [[]] else [];
    JoinedFragments(segs);
    WalkLiteral(t, segs, tail, [], decode, "/" + verb + "/");
    var w := Walk(t, segs + tail, [], decode);
    PickFound(w.node, [], verb, acrm, route);
  }

  /** A node holding a route under the request's own method picks it. */
  lemma PickFound(node: Trie, params: Entries<string>, verb: string, acrm: Option<string>, route: Route)
    requires Lookup(node.handlers, "/" + verb + "/") == Some(route)
    ensures Pick(node, params, verb, acrm) == Found(route, params, false)
  {
    if verb == "OPTIONS" {
      assert "/" + verb + "/" == "/OPTIONS/";
    }
  }

  /** OPTIONS on a path with a route but no OPTIONS handler falls back to
      the handler of the method the preflight announces, flagged as a
      preflight; without one the request is unrouted. */
  lemma OptionsFallback(t: Trie, segs: seq<string>, acrm: Option<string>,
                        decode: string -> Option<string>, key: string)
    requires forall i | 0 <= i < |segs| :: segs[i] != [] && '/' !in segs[i]
    requires Find(t, segs, key).Some? && Find(t, segs, "/OPTIONS/").None?
    ensures Find(t, segs, FallbackKey(acrm)).Some? ==>
      Resolve(t, Join(segs, '/'), "OPTIONS", acrm, decode) == Found(Find(t, segs, FallbackKey(acrm)).value, [], true)
    ensures Find(t, segs, FallbackKey(acrm)).None? ==>
      Resolve(t, Join(segs, '/'), "OPTIONS", acrm, decode) == Unrouted
  {
    var tail: seq<string> := if segs == [] then [[]] else [];
    JoinedFragments(segs);
    WalkLiteral(t, segs, tail, [], decode, key);
  }

  /** Without the header the fallback key is `/UNDEFINED/`. */
  lemma AbsentFallbackKey()
    ensures FallbackKey(None) == "/UNDEFINED/"
  {
    assert "/" + "undefined" + "/" == "/undefined/";
    UpperUndefined();
  }

  /** The fallback key is the announced method upper-cased between slashes. */
  lemma AnnouncedFallbackKey(m: string)
    ensures FallbackKey(Some(m)) == "/" + ToUpper(m) + "/"
  {
    ToUpperAppend("/" + m, "/");
    ToUpperAppend("/", m);
    UpperSlash();
  }

  lemma UpperSlash()
    ensures ToUpper("/") == "/"
  {
    assert ToUpper("/")[0] == ToUpperChar('/');
  }

  lemma UpperUndefined()
    ensures ToUpper("/undefined/") == "/UNDEFINED/"
  {
    UpperOf("/undefined/", "/UNDEFINED/");
  }

  /** A text whose characters are the upper-case forms of another's is its
      upper-case form. */
  lemma UpperOf(s: string, r: string)
    requires |s| == |r| && forall i | 0 <= i < |s| :: r[i] == ToUpperChar(s[i])
    ensures ToUpper(s) == r
  {
  }

  /** A parameter segment binds the decoded path segment under its name
      when no literal child matches. */
  lemma ParamBound(t: Trie, f: string, rest: seq<string>, params: Entries<string>,
                   decode: string -> Option<string>, j: nat)
    requires f != [] && Lookup(t.children, f).None?
    requires j < |t.children| && IsParamKey(t.children[j].0)
    requires forall i | 0 <= i < j :: !IsParamKey(t.children[i].0)
    requires decode(f).Some?
    ensures Walk(t, [f] + rest, params, decode) ==
      Walk(t.children[j].1, rest, Put(params, ParamName(t.children[j].0), decode(f).value), decode)
  {
    assert ([f] + rest)[1..] == rest;
    var p := FirstParam(t.children, 0);
    assert p == Some(j);
  }

  // ---------------------------------------------------------------------
  // The static file cache (index.mjs:1618-1626, 1650-1664)
  // ---------------------------------------------------------------------

  const StaticCacheControl := "public, max-age=432000"

  class StaticCache {
    var entries: map<string, FileResponse>

    constructor ()
      ensures entries == map[]
    {
      entries := map[];
    }

    /** The cached response for a file, created on first use with a
        Cache-Control of five days. */
    method Get(filePath: string) returns (resp: FileResponse)
      modifies this
      ensures filePath in old(entries) ==> resp == old(entries)[filePath] && entries == old(entries)
      ensures filePath !in old(entries) ==>
        && fresh(resp) && fresh(resp.response)
        && entries == old(entries)[filePath := resp]
        && resp.filePath == filePath && resp.code == 200 && resp.contentType == None
        && resp.data == None && resp.fragments == map[]
        && resp.response.cookies == None
        && resp.response.customHeaders == [("Cache-Control", Text(StaticCacheControl))]
    {
      if filePath in entries {
        return entries[filePath];
      }
      resp := new FileResponse(filePath, 200, None, None);
      resp.response.AddCustomHeaders([("Cache-Control", Text(StaticCacheControl))]);
      assert Assign([], [("Cache-Control", Text(StaticCacheControl))]) == [("Cache-Control", Text(StaticCacheControl))] by {
        PutFresh([], "Cache-Control", Text(StaticCacheControl));
      }
      entries := entries[filePath := resp];
    }

    /** `clearStaticCache(path)`: everything, or one path. */
    method Clear(path: Option<string>)
      modifies this
      ensures path.None? ==> entries == map[]
      ensures path.Some? ==> entries == old(entries) - {path.value}
    {
      if path.None? {
        entries := map[];
      } else {
        entries := entries - {path.value};
      }
    }
  }

  // ---------------------------------------------------------------------
  // handleRequest (index.mjs:1628-1714)
  // ---------------------------------------------------------------------

  /** The response `handleRequest` goes on to send. */
  datatype Outcome =
    | Replied(reply: Reply)
    | StaticFile(file: FileResponse)
    | NotFound(message: string) // a JsonResponse with code 404
    | ServerError               // a JsonResponse with code 500

  /** `Route ${verb} "${path}" not found`. */
  function NotFoundMessage(verb: string, path: string): string {
    "Route " + verb + " \"" + path + "\" not found"
  }

  /** The outcome of a routed request: a thrown Response is sent, another
      error gives 500. */
  function RoutedOutcome(res: Resolution, verb: string, path: string, request: nat,
                         pre: (nat, nat) -> Step, handler: (nat, nat) -> Step,
                         post: (nat, nat, Reply) -> Step): Outcome {
    match res
    case Undecodable => ServerError
    case Unrouted => NotFound(NotFoundMessage(verb, path))
    case Found(route, _, options) =>
      match RunSpec(route, request, options, pre, handler, post)
      case Done(reply) => Replied(reply)
      case Escaped(id) => Replied(Given(id))
      case Failed => ServerError
  }

  /** A GET whose path starts with the static directory is a static file. */
  predicate IsStatic(staticDir: Option<string>, verb: string, path: string) {
    staticDir.Some? && staticDir.value != [] && verb == "GET" && StartsWith(path, staticDir.value)
  }

  method HandleRequest(trie: Trie, cache: StaticCache, staticDir: Option<string>,
                       verb: string, path: string, acrm: Option<string>, request: nat,
                       decodeUri: string -> Option<string>, decodeComponent: string -> Option<string>,
                       pre: (nat, nat) -> Step, handler: (nat, nat) -> Step, post: (nat, nat, Reply) -> Step)
    returns (out: Outcome)
    modifies cache
    ensures !IsStatic(staticDir, verb, path) ==>
      out == RoutedOutcome(Resolve(trie, path, verb, acrm, decodeComponent), verb, path, request, pre, handler, post)
      && cache.entries == old(cache.entries)
    ensures IsStatic(staticDir, verb, path) && decodeUri(path).None? ==>
      out == ServerError && cache.entries == old(cache.entries)
    ensures IsStatic(staticDir, verb, path) && decodeUri(path).Some? ==>
      var p := decodeUri(path).value;
      out.StaticFile? && p in cache.entries && out.file == cache.entries[p]
      && (p in old(cache.entries) ==> cache.entries == old(cache.entries))
      && (p !in old(cache.entries) ==>
            && cache.entries == old(cache.entries)[p := out.file]
            && fresh(out.file) && fresh(out.file.response)
            && out.file.filePath == p && out.file.code == 200 && out.file.contentType == None
            && out.file.data == None && out.file.fragments == map[]
            && out.file.response.cookies == None
            && out.file.response.customHeaders == [("Cache-Control", Text(StaticCacheControl))])
  {
    if IsStatic(staticDir, verb, path) {
      var p := decodeUri(path);
      if p.None? {
        return ServerError;
      }
      var resp := cache.Get(p.value);
      return StaticFile(resp);
    }
    var res := ResolveRoute(trie, path, verb, acrm, decodeComponent);
    match res {
      case Undecodable =>
        out := ServerError;
      case Unrouted =>
        out := NotFound(NotFoundMessage(verb, path));
      case Found(route, _, options) =>
        var run := RunRoute(route, request, options, pre, handler, post);
        match run {
          case Done(reply) => out := Replied(reply);
          case Escaped(id) => out := Replied(Given(id));
          case Failed => out := ServerError;
        }
    }
  }
}
