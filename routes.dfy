/** The route table: a nested configuration flattened into one handler per
    path, each composed with the middlewares of its ancestors, then stored in
    a trie keyed by path segment with the handlers under `/METHOD/` keys
    (`normalizeRoutes` and `wrapInResponseClass`, index.mjs:1520-1616).
    Middlewares, handlers and the objects they return are identified by
    numbers; what each does is a parameter of the run. */
module Routes {
  import opened Base
  import opened Headers

  // ---------------------------------------------------------------------
  // The configuration
  // ---------------------------------------------------------------------

  /** A value of the configuration object. */
  datatype Config =
    | Group(props: Entries<Config>)          // a plain object
    | Handler(id: nat, props: Entries<Config>) // a function and its own properties
    | List(items: seq<nat>)                  // an array, of middlewares where one is expected
    | Scalar                                 // any other truthy value
    | Falsy                                  // null, undefined, false, 0, ''

  /** A handler with the middlewares that wrap it. */
  datatype Route = Route(handler: nat, pres: seq<nat>, posts: seq<nat>)

  /** `root.<name>` when it is an array, else no middlewares. */
  function OwnList(c: Config, name: string): seq<nat> {
    match c
    case Group(props) => OwnListIn(props, name)
    case Handler(_, props) => OwnListIn(props, name)
    case _ => []
  }

  function OwnListIn(props: Entries<Config>, name: string): seq<nat> {
    var v := Lookup(props, name);
    if v.Some? && v.value.List? then v.value.items else []
  }

  function OwnPre(c: Config): seq<nat> {
    OwnList(c, "preMiddlewares")
  }

  function OwnPost(c: Config): seq<nat> {
    OwnList(c, "postMiddlewares")
  }

  /** `(path + '/' + prop).split('/').filter(x => x).join('/')`. */
  function ChildPath(path: string, prop: string): string {
    Join(Segments(path + "/" + prop, '/'), '/')
  }

  // ---------------------------------------------------------------------
  // flattenRecursively (index.mjs:1523-1575)
  // ---------------------------------------------------------------------

  /** The `flatten` object after visiting `c` at `path` with the middlewares
      inherited so far: the node's own pre-middlewares go after the
      inherited ones and its post-middlewares before them. */
  function FlattenNode(c: Config, path: string, pres: seq<nat>, posts: seq<nat>,
                       acc: Entries<Route>): Entries<Route>
    decreases c, 1
  {
    match c
    case Falsy => acc
    case Group(props) => FlattenProps(c, 0, path, pres + OwnPre(c), OwnPost(c) + posts, acc)
    case Handler(id, _) => Put(acc, path, Route(id, pres + OwnPre(c), OwnPost(c) + posts))
    case _ => acc
  }

  /** The `for (const prop in root)` loop from property `i` on. */
  function FlattenProps(parent: Config, i: nat, path: string, pres: seq<nat>, posts: seq<nat>,
                        acc: Entries<Route>): Entries<Route>
    requires parent.Group? && i <= |parent.props|
    decreases parent, 0, |parent.props| - i
  {
    if i == |parent.props| then acc
    else
      var prop := parent.props[i];
      assert prop in parent.props;
      var acc' := FlattenNode(prop.1, ChildPath(path, prop.0), pres, posts, acc);
      FlattenProps(parent, i + 1, path, pres, posts, acc')
  }

  function Flatten(routes: Config): Entries<Route> {
    FlattenNode(routes, "", [], [], [])
  }

  /** `route` runs the middlewares `pres` first and `posts` last. */
  predicate Within(route: Route, pres: seq<nat>, posts: seq<nat>) {
    pres <= route.pres && |posts| <= |route.posts| && route.posts[|route.posts| - |posts|..] == posts
  }

  lemma WithinOuter(route: Route, pres: seq<nat>, own: seq<nat>, posts: seq<nat>, ownPost: seq<nat>)
    requires Within(route, pres + own, ownPost + posts)
    ensures Within(route, pres, posts)
  {
    var n := |route.posts|;
    assert route.posts[n - |posts|..] == (ownPost + posts)[|ownPost|..] == posts by {
      assert route.posts[n - |ownPost + posts|..] == ownPost + posts;
      assert route.posts[n - |posts|..] == route.posts[n - |ownPost + posts|..][|ownPost|..];
    }
  }

  /** Every handler a node adds runs that node's and its ancestors'
      pre-middlewares before its own, and their post-middlewares after. */
  lemma {:induction false} FlattenNodeOrder(c: Config, path: string, pres: seq<nat>, posts: seq<nat>,
                                            acc: Entries<Route>, k: string)
    ensures var r := Lookup(FlattenNode(c, path, pres, posts, acc), k);
      r == Lookup(acc, k) || (r.Some? && Within(r.value, pres + OwnPre(c), OwnPost(c) + posts))
    decreases c, 1
  {
    match c
    case Group(props) =>
      FlattenPropsOrder(c, 0, path, pres + OwnPre(c), OwnPost(c) + posts, acc, k);
    case Handler(id, _) =>
    case _ =>
  }

  lemma {:induction false} FlattenPropsOrder(parent: Config, i: nat, path: string, pres: seq<nat>,
                                             posts: seq<nat>, acc: Entries<Route>, k: string)
    requires parent.Group? && i <= |parent.props|
    ensures var r := Lookup(FlattenProps(parent, i, path, pres, posts, acc), k);
      r == Lookup(acc, k) || (r.Some? && Within(r.value, pres, posts))
    decreases parent, 0, |parent.props| - i
  {
    if i < |parent.props| {
      var prop := parent.props[i];
      assert prop in parent.props;
      var acc' := FlattenNode(prop.1, ChildPath(path, prop.0), pres, posts, acc);
      FlattenNodeOrder(prop.1, ChildPath(path, prop.0), pres, posts, acc, k);
      var r' := Lookup(acc', k);
      if r' != Lookup(acc, k) {
        WithinOuter(r'.value, pres, OwnPre(prop.1), posts, OwnPost(prop.1));
      }
      FlattenPropsOrder(parent, i + 1, path, pres, posts, acc', k);
    }
  }

  /** Every route of the configuration runs the top level's pre-middlewares
      first and its post-middlewares last. */
  lemma FlattenOrder(routes: Config, k: string)
    requires HasKey(Flatten(routes), k)
    ensures Within(Lookup(Flatten(routes), k).value, OwnPre(routes), OwnPost(routes))
  {
    FlattenNodeOrder(routes, "", [], [], [], k);
    assert [] + OwnPre(routes) == OwnPre(routes) && OwnPost(routes) + [] == OwnPost(routes);
  }

  /** The assignments `flatten[path] = …` that visiting `c` makes, in
      order: one per handler below it, at that handler's joined path, with
      the middlewares of its ancestors and its own. */
  function Assignments(c: Config, path: string, pres: seq<nat>, posts: seq<nat>): Entries<Route>
    decreases c, 1
  {
    match c
    case Group(props) => PropsAssignments(c, 0, path, pres + OwnPre(c), OwnPost(c) + posts)
    case Handler(id, _) => [(path, Route(id, pres + OwnPre(c), OwnPost(c) + posts))]
    case _ => []
  }

  function PropsAssignments(parent: Config, i: nat, path: string, pres: seq<nat>, posts: seq<nat>): Entries<Route>
    requires parent.Group? && i <= |parent.props|
    decreases parent, 0, |parent.props| - i
  {
    if i == |parent.props| then []
    else
      var prop := parent.props[i];
      assert prop in parent.props;
      Assignments(prop.1, ChildPath(path, prop.0), pres, posts) + PropsAssignments(parent, i + 1, path, pres, posts)
  }

  /** The handler reached from `c` through the property positions `steps`,
      with the path and the middlewares it is flattened with. */
  function HandlerAt(c: Config, steps: seq<nat>, path: string, pres: seq<nat>, posts: seq<nat>): Option<(string, Route)>
    decreases |steps|
  {
    if steps == [] then
      if c.Handler? then Some((path, Route(c.id, pres + OwnPre(c), OwnPost(c) + posts))) else None
    else if c.Group? && steps[0] < |c.props| then
      var prop := c.props[steps[0]];
      HandlerAt(prop.1, steps[1..], ChildPath(path, prop.0), pres + OwnPre(c), OwnPost(c) + posts)
    else None
  }

  /** Making the assignments in turn. */
  function PutAll(acc: Entries<Route>, writes: Entries<Route>): Entries<Route>
    decreases |writes|
  {
    if writes == [] then acc else PutAll(Put(acc, writes[0].0, writes[0].1), writes[1..])
  }

  /** The route assigned to `k` last. */
  function LastAssigned(writes: Entries<Route>, k: string): Option<Route>
    decreases |writes|
  {
    if writes == [] then None
    else
      var later := LastAssigned(writes[1..], k);
      if later.Some? then later
      else if writes[0].0 == k then Some(writes[0].1)
      else None
  }

  /** A route is assigned to `k` exactly when some assignment names `k`, and
      the one kept is that of an assignment with no later one to `k`. */
  lemma {:induction false} LastAssignedIsLast(writes: Entries<Route>, k: string)
    ensures LastAssigned(writes, k).Some? <==> exists i | 0 <= i < |writes| :: writes[i].0 == k
    ensures LastAssigned(writes, k).Some? ==>
      exists i | 0 <= i < |writes| :: writes[i] == (k, LastAssigned(writes, k).value) &&
        forall j | i < j < |writes| :: writes[j].0 != k
    decreases |writes|
  {
    if writes != [] {
      var rest := writes[1..];
      LastAssignedIsLast(rest, k);
      if LastAssigned(rest, k).Some? {
        var i :| 0 <= i < |rest| && rest[i] == (k, LastAssigned(rest, k).value) &&
          forall j | i < j < |rest| :: rest[j].0 != k;
        assert writes[i + 1] == rest[i];
        assert forall j | i + 1 < j < |writes| :: writes[j] == rest[j - 1];
      } else {
        assert forall j | 1 <= j < |writes| :: writes[j] == rest[j - 1];
        if writes[0].0 == k {
          assert writes[0] == (k, LastAssigned(writes, k).value);
        }
      }
    }
  }

  lemma {:induction false} PutAllAppend(acc: Entries<Route>, a: Entries<Route>, b: Entries<Route>)
    ensures PutAll(acc, a + b) == PutAll(PutAll(acc, a), b)
    decreases |a|
  {
    if a == [] {
      assert a + b == b;
    } else {
      assert (a + b)[0] == a[0] && (a + b)[1..] == a[1..] + b;
      PutAllAppend(Put(acc, a[0].0, a[0].1), a[1..], b);
    }
  }

  /** After the assignments, a key holds the route assigned to it last, or
      what it held before when none names it. */
  lemma {:induction false} PutAllLookup(acc: Entries<Route>, writes: Entries<Route>, k: string)
    ensures Lookup(PutAll(acc, writes), k) ==
      if LastAssigned(writes, k).Some? then LastAssigned(writes, k) else Lookup(acc, k)
    decreases |writes|
  {
    if writes != [] {
      PutAllLookup(Put(acc, writes[0].0, writes[0].1), writes[1..], k);
    }
  }

  /** Visiting a node makes exactly its assignments. */
  lemma {:induction false} FlattenNodeAssigns(c: Config, path: string, pres: seq<nat>, posts: seq<nat>,
                                              acc: Entries<Route>)
    ensures FlattenNode(c, path, pres, posts, acc) == PutAll(acc, Assignments(c, path, pres, posts))
    decreases c, 1
  {
    match c
    case Group(_) =>
      FlattenPropsAssigns(c, 0, path, pres + OwnPre(c), OwnPost(c) + posts, acc);
    case Handler(id, _) =>
      var x := (path, Route(id, pres + OwnPre(c), OwnPost(c) + posts));
      assert PutAll(acc, [x]) == PutAll(Put(acc, x.0, x.1), []);
    case _ =>
  }

  lemma {:induction false} FlattenPropsAssigns(parent: Config, i: nat, path: string, pres: seq<nat>,
                                               posts: seq<nat>, acc: Entries<Route>)
    requires parent.Group? && i <= |parent.props|
    ensures FlattenProps(parent, i, path, pres, posts, acc) == PutAll(acc, PropsAssignments(parent, i, path, pres, posts))
    decreases parent, 0, |parent.props| - i
  {
    if i < |parent.props| {
      var prop := parent.props[i];
      assert prop in parent.props;
      var p := ChildPath(path, prop.0);
      var acc' := FlattenNode(prop.1, p, pres, posts, acc);
      FlattenNodeAssigns(prop.1, p, pres, posts, acc);
      FlattenPropsAssigns(parent, i + 1, path, pres, posts, acc');
      PutAllAppend(acc, Assignments(prop.1, p, pres, posts), PropsAssignments(parent, i + 1, path, pres, posts));
    }
  }

  /** The flattened table has a route at a path exactly when some handler of
      the configuration is assigned there, and the route is the one assigned
      last. */
  lemma FlattenHolds(routes: Config, k: string)
    ensures var writes := Assignments(routes, "", [], []);
      && (HasKey(Flatten(routes), k) <==> exists i | 0 <= i < |writes| :: writes[i].0 == k)
      && Lookup(Flatten(routes), k) == LastAssigned(writes, k)
  {
    var writes := Assignments(routes, "", [], []);
    FlattenNodeAssigns(routes, "", [], [], []);
    PutAllLookup([], writes, k);
    LastAssignedIsLast(writes, k);
  }

  /** The assignments of the property at `i` are among those of the loop
      from any earlier property on. */
  lemma {:induction false} PropsAssignmentsHold(parent: Config, j: nat, i: nat, path: string,
                                                pres: seq<nat>, posts: seq<nat>, x: (string, Route))
    requires parent.Group? && j <= i < |parent.props|
    requires x in Assignments(parent.props[i].1, ChildPath(path, parent.props[i].0), pres, posts)
    ensures x in PropsAssignments(parent, j, path, pres, posts)
    decreases i - j
  {
    var prop := parent.props[j];
    assert prop in parent.props;
    var here := Assignments(prop.1, ChildPath(path, prop.0), pres, posts);
    assert PropsAssignments(parent, j, path, pres, posts) == here + PropsAssignments(parent, j + 1, path, pres, posts);
    if j < i {
      PropsAssignmentsHold(parent, j + 1, i, path, pres, posts, x);
    }
  }

  /** Every handler of the configuration is assigned at its joined path,
      wrapped in its ancestors' and its own middlewares. */
  lemma {:induction false} HandlerAssigned(c: Config, steps: seq<nat>, path: string, pres: seq<nat>, posts: seq<nat>)
    requires HandlerAt(c, steps, path, pres, posts).Some?
    ensures HandlerAt(c, steps, path, pres, posts).value in Assignments(c, path, pres, posts)
    decreases |steps|
  {
    if steps != [] {
      var prop := c.props[steps[0]];
      var pres', posts' := pres + OwnPre(c), OwnPost(c) + posts;
      HandlerAssigned(prop.1, steps[1..], ChildPath(path, prop.0), pres', posts');
      PropsAssignmentsHold(c, 0, steps[0], path, pres', posts', HandlerAt(c, steps, path, pres, posts).value);
    }
  }

  /** Every assignment comes from a handler of the configuration. */
  lemma {:induction false} AssignedHandler(c: Config, path: string, pres: seq<nat>, posts: seq<nat>,
                                           x: (string, Route)) returns (steps: seq<nat>)
    requires x in Assignments(c, path, pres, posts)
    ensures HandlerAt(c, steps, path, pres, posts) == Some(x)
    decreases c, 1
  {
    if c.Group? {
      var i := PropsAssignmentsFrom(c, 0, path, pres + OwnPre(c), OwnPost(c) + posts, x);
      var prop := c.props[i];
      assert prop in c.props;
      var rest := AssignedHandler(prop.1, ChildPath(path, prop.0), pres + OwnPre(c), OwnPost(c) + posts, x);
      steps := [i] + rest;
      assert steps[1..] == rest;
    } else {
      steps := [];
    }
  }

  /** The property whose assignments hold `x`. */
  lemma {:induction false} PropsAssignmentsFrom(parent: Config, j: nat, path: string, pres: seq<nat>,
                                                posts: seq<nat>, x: (string, Route)) returns (i: nat)
    requires parent.Group? && j <= |parent.props|
    requires x in PropsAssignments(parent, j, path, pres, posts)
    ensures j <= i < |parent.props|
    ensures x in Assignments(parent.props[i].1, ChildPath(path, parent.props[i].0), pres, posts)
    decreases |parent.props| - j
  {
    if x in Assignments(parent.props[j].1, ChildPath(path, parent.props[j].0), pres, posts) {
      i := j;
    } else {
      i := PropsAssignmentsFrom(parent, j + 1, path, pres, posts, x);
    }
  }

  /** Every handler of the configuration has a route at its joined path:
      its own, unless a later handler is assigned the same path. */
  lemma ConfiguredHandlerStored(routes: Config, steps: seq<nat>)
    requires HandlerAt(routes, steps, "", [], []).Some?
    ensures var x := HandlerAt(routes, steps, "", [], []).value;
      HasKey(Flatten(routes), x.0) && Lookup(Flatten(routes), x.0) == LastAssigned(Assignments(routes, "", [], []), x.0)
  {
    var x := HandlerAt(routes, steps, "", [], []).value;
    var writes := Assignments(routes, "", [], []);
    HandlerAssigned(routes, steps, "", [], []);
    var i :| 0 <= i < |writes| && writes[i] == x;
    FlattenHolds(routes, x.0);
  }

  // ---------------------------------------------------------------------
  // The trie (index.mjs:1579-1603)
  // ---------------------------------------------------------------------

  /** One object of the result: its path-segment properties and its
      `/METHOD/` properties. A segment never contains '/', so the two never
      share a key. */
  datatype Trie = Trie(children: Entries<Trie>, handlers: Entries<Route>)

  const Methods: seq<string> := ["GET", "POST", "PUT", "PATCH", "DELETE", "OPTIONS"]

  /** The segments of a flattened path and the key of its handler: a last
      segment naming a method in any case selects it and is dropped; any
      other path is a GET route. */
  function RouteKey(route: string): (r: (seq<string>, string))
    ensures forall i | 0 <= i < |r.0| :: r.0[i] != [] && '/' !in r.0[i]
  {
    var split := Segments(route, '/');
    if split != [] && ToUpper(split[|split| - 1]) in Methods then
      (split[..|split| - 1], "/" + ToUpper(split[|split| - 1]) + "/")
    else (split, "/GET/")
  }

  /** A path whose last segment names a method in any case is stored under
      the other segments and that method. */
  lemma RouteKeyOfMethod(segs: seq<string>, m: string)
    requires forall i | 0 <= i < |segs| :: segs[i] != [] && '/' !in segs[i]
    requires '/' !in m && ToUpper(m) in Methods
    ensures RouteKey(Join(segs + [m], '/')) == (segs, "/" + ToUpper(m) + "/")
  {
    var all := segs + [m];
    assert m != [];
    SegmentsJoin(all, '/');
    var split := Segments(Join(all, '/'), '/');
    assert split[|split| - 1] == m && split[..|split| - 1] == segs;
  }

  /** Any other path, the empty one included, is a GET route under all its
      segments. */
  lemma RouteKeyOfPath(segs: seq<string>)
    requires forall i | 0 <= i < |segs| :: segs[i] != [] && '/' !in segs[i]
    requires segs == [] || ToUpper(segs[|segs| - 1]) !in Methods
    ensures RouteKey(Join(segs, '/')) == (segs, "/GET/")
  {
    SegmentsJoin(segs, '/');
  }

  const Empty := Trie([], [])

  /** The loop of index.mjs:1590-1599 and the assignment after it, for one
      route: missing segment objects are created, the handler is set. */
  function Insert(t: Trie, segs: seq<string>, key: string, route: Route): Trie
    decreases |segs|
  {
    if segs == [] then Trie(t.children, Put(t.handlers, key, route))
    else
      var child := Lookup(t.children, segs[0]).GetOr(Empty);
      Trie(Put(t.children, segs[0], Insert(child, segs[1..], key, route)), t.handlers)
  }

  /** The handler stored under `segs` and `key`, following literal segments
      only. */
  function Find(t: Trie, segs: seq<string>, key: string): Option<Route>
    decreases |segs|
  {
    if segs == [] then Lookup(t.handlers, key)
    else match Lookup(t.children, segs[0])
      case None => None
      case Some(child) => Find(child, segs[1..], key)
  }

  lemma {:induction false} FindEmpty(segs: seq<string>, key: string)
    ensures Find(Empty, segs, key) == None
  {
  }

  /** Inserting a route makes it the one found under its segments and key
      and leaves every other lookup as it was. */
  lemma {:induction false} InsertFind(t: Trie, segs: seq<string>, key: string, route: Route,
                                      segs': seq<string>, key': string)
    ensures Find(Insert(t, segs, key, route), segs', key') ==
      if segs' == segs && key' == key then Some(route) else Find(t, segs', key')
    decreases |segs|
  {
    if segs != [] && segs' != [] {
      var child := Lookup(t.children, segs[0]).GetOr(Empty);
      if segs'[0] == segs[0] {
        InsertFind(child, segs[1..], key, route, segs'[1..], key');
        if Lookup(t.children, segs[0]).None? {
          FindEmpty(segs'[1..], key');
        }
        assert segs' == segs <==> segs'[1..] == segs[1..] by {
          if segs'[1..] == segs[1..] {
            assert segs' == [segs'[0]] + segs'[1..] && segs == [segs[0]] + segs[1..];
          }
        }
      }
    }
  }

  /** The trie of the first `n` flattened routes. */
  function BuildFrom(flat: Entries<Route>): Trie {
    if flat == [] then Empty
    else
      var last := flat[|flat| - 1];
      var key := RouteKey(last.0);
      Insert(BuildFrom(flat[..|flat| - 1]), key.0, key.1, last.1)
  }

  /** The route of the last flattened path with these segments and key. */
  function LastRoute(flat: Entries<Route>, segs: seq<string>, key: string): Option<Route> {
    if flat == [] then None
    else if RouteKey(flat[|flat| - 1].0) == (segs, key) then Some(flat[|flat| - 1].1)
    else LastRoute(flat[..|flat| - 1], segs, key)
  }

  /** Two paths that name the same segments and method (`a/get` and `a`,
      say) share one slot: the later one wins. */
  lemma {:induction false} BuildFind(flat: Entries<Route>, segs: seq<string>, key: string)
    ensures Find(BuildFrom(flat), segs, key) == LastRoute(flat, segs, key)
  {
    if flat == [] {
      FindEmpty(segs, key);
    } else {
      var last := flat[|flat| - 1];
      var k := RouteKey(last.0);
      BuildFind(flat[..|flat| - 1], segs, key);
      InsertFind(BuildFrom(flat[..|flat| - 1]), k.0, k.1, last.1, segs, key);
    }
  }

  /** A flattened path has a route in the slot its segments and method
      name. */
  lemma {:induction false} LastRouteHeld(flat: Entries<Route>, p: string)
    requires HasKey(flat, p)
    ensures LastRoute(flat, RouteKey(p).0, RouteKey(p).1).Some?
  {
    var n := |flat| - 1;
    if RouteKey(flat[n].0) != RouteKey(p) {
      assert flat[n].0 != p;
      var i :| 0 <= i < |flat| && flat[i].0 == p;
      assert flat[..n][i].0 == p;
      LastRouteHeld(flat[..n], p);
    }
  }

  /** Every handler of the configuration leaves a route in the table under
      the segments and method of its path; `NormalizeRoutes` finds there the
      route of the last path naming that slot. */
  lemma ConfiguredRouteFound(routes: Config, steps: seq<nat>)
    requires HandlerAt(routes, steps, "", [], []).Some?
    ensures var key := RouteKey(HandlerAt(routes, steps, "", [], []).value.0);
      LastRoute(Flatten(routes), key.0, key.1).Some?
  {
    ConfiguredHandlerStored(routes, steps);
    LastRouteHeld(Flatten(routes), HandlerAt(routes, steps, "", [], []).value.0);
  }

  /** `normalizeRoutes`: flatten, then store each route in the trie. */
  method NormalizeRoutes(routes: Config) returns (trie: Trie)
    ensures forall segs, key :: Find(trie, segs, key) == LastRoute(Flatten(routes), segs, key)
  {
    var flat := Flatten(routes);
    trie := Empty;
    for i := 0 to |flat|
      invariant trie == BuildFrom(flat[..i])
    {
      var key := RouteKey(flat[i].0);
      assert flat[..i + 1][..i] == flat[..i];
      trie := Insert(trie, key.0, key.1, flat[i].1);
    }
    assert flat[..|flat|] == flat;
    forall segs, key ensures Find(trie, segs, key) == LastRoute(flat, segs, key) {
      BuildFind(flat, segs, key);
    }
  }

  // ---------------------------------------------------------------------
  // Running a route (index.mjs:1545-1573) and wrapInResponseClass
  // ---------------------------------------------------------------------

  /** What a middleware or handler returns, by the kind of value. */
  datatype JsValue =
    | Req(id: nat)        // a Request
    | Resp(id: nat)       // a Response
    | Object              // any other object, an array included
    | Null
    | Undefined
    | Primitive(text: string) // any other value, as `${value}` renders it

  /** The response a route ends with. */
  datatype Reply =
    | Given(id: nat)          // a Response made by the application
    | JsonReply(value: JsValue)
    | HtmlReply(text: string)
    | PreflightReply          // the empty CustomResponse of an OPTIONS fallback

  /** What the response classes the server creates send (code and headers). */
  function ReplyKind(r: Reply): Option<ResponseKind> {
    match r
    case Given(_) => None
    case JsonReply(_) => Some(Json(200))
    case HtmlReply(text) => Some(Html(text, 200))
    case PreflightReply => Some(Custom([], 200, [("Content-Type", Nil)]))
  }

  /** `wrapInResponseClass`. */
  function Wrap(v: JsValue): Reply {
    match v
    case Resp(id) => Given(id)
    case Req(_) => JsonReply(v)
    case Object => JsonReply(v)
    case Null => JsonReply(v)
    case Undefined => HtmlReply("")
    case Primitive(text) => HtmlReply(text)
  }

  /** A Response is passed through; anything else becomes a 200 response. */
  lemma WrapKeepsResponses(v: JsValue)
    ensures Wrap(v).Given? <==> v.Resp?
    ensures v.Resp? ==> Wrap(v) == Given(v.id)
    ensures !v.Resp? ==> ReplyKind(Wrap(v)).Some? && KindCode(ReplyKind(Wrap(v)).value) == 200
    ensures Wrap(v).HtmlReply? <==> v.Undefined? || v.Primitive?
  {
  }

  /** What calling a middleware or handler does. */
  datatype Step =
    | Returned(value: JsValue)
    | Raised(id: nat)  // it threw a Response
    | Crashed          // it threw anything else

  /** The pre-middleware loop: the request each step sees, and where the
      loop stops. */
  datatype PreOutcome = Reached(request: nat) | Stopped(request: nat, thrown: nat) | Broke

  function Pres(pres: seq<nat>, request: nat, pre: (nat, nat) -> Step): PreOutcome {
    if pres == [] then Reached(request)
    else match pre(pres[0], request)
      case Returned(Req(next)) => Pres(pres[1..], next, pre)
      case Returned(_) => Pres(pres[1..], request, pre)
      case Raised(id) => Stopped(request, id)
      case Crashed => Broke
  }

  /** How a route run ends: a response, a Response thrown by a
      post-middleware, or another error. */
  datatype RunResult = Done(reply: Reply) | Escaped(id: nat) | Failed

  function Posts(posts: seq<nat>, request: nat, reply: Reply, post: (nat, nat, Reply) -> Step): RunResult {
    if posts == [] then Done(reply)
    else match post(posts[0], request, reply)
      case Returned(Undefined) => Posts(posts[1..], request, reply, post)
      case Returned(v) => Posts(posts[1..], request, Wrap(v), post)
      case Raised(id) => Escaped(id)
      case Crashed => Failed
  }

  /** The composed handler: pre-middlewares, then the handler (or the empty
      preflight answer), with a thrown Response taken as the response, then
      the post-middlewares. */
  function RunSpec(route: Route, request: nat, options: bool, pre: (nat, nat) -> Step,
                   handler: (nat, nat) -> Step, post: (nat, nat, Reply) -> Step): RunResult {
    match Pres(route.pres, request, pre)
    case Broke => Failed
    case Stopped(req, id) => Posts(route.posts, req, Given(id), post)
    case Reached(req) =>
      if options then Posts(route.posts, req, PreflightReply, post)
      else match handler(route.handler, req)
        case Returned(v) => Posts(route.posts, req, Wrap(v), post)
        case Raised(id) => Posts(route.posts, req, Given(id), post)
        case Crashed => Failed
  }

  /** The pre-middlewares of `a + b` are those of `a`, then those of `b`
      from the request `a` leaves. */
  lemma {:induction false} PresAppend(a: seq<nat>, b: seq<nat>, request: nat, pre: (nat, nat) -> Step)
    ensures Pres(a + b, request, pre) ==
      match Pres(a, request, pre)
      case Reached(req) => Pres(b, req, pre)
      case other => other
  {
    if a != [] {
      assert (a + b)[1..] == a[1..] + b;
      match pre(a[0], request)
      case Returned(Req(next)) => PresAppend(a[1..], b, next, pre);
      case Returned(_) => PresAppend(a[1..], b, request, pre);
      case Raised(_) =>
      case Crashed =>
    } else {
      assert a + b == b;
    }
  }

  /** The post-middlewares of `a + b` are those of `a`, then those of `b`
      on the response `a` leaves. */
  lemma {:induction false} PostsAppend(a: seq<nat>, b: seq<nat>, request: nat, reply: Reply,
                                       post: (nat, nat, Reply) -> Step)
    ensures Posts(a + b, request, reply, post) ==
      match Posts(a, request, reply, post)
      case Done(r) => Posts(b, request, r, post)
      case other => other
  {
    if a != [] {
      assert (a + b)[1..] == a[1..] + b;
      match post(a[0], request, reply)
      case Returned(Undefined) => PostsAppend(a[1..], b, request, reply, post);
      case Returned(v) => PostsAppend(a[1..], b, request, Wrap(v), post);
      case Raised(_) =>
      case Crashed =>
    } else {
      assert a + b == b;
    }
  }

  /** Post-middlewares that all return undefined keep the response. */
  lemma {:induction false} QuietPosts(posts: seq<nat>, request: nat, reply: Reply, post: (nat, nat, Reply) -> Step)
    requires forall i | 0 <= i < |posts| :: post(posts[i], request, reply) == Returned(Undefined)
    ensures Posts(posts, request, reply, post) == Done(reply)
  {
    if posts != [] {
      assert post(posts[0], request, reply) == Returned(Undefined);
      QuietPosts(posts[1..], request, reply, post);
    }
  }

  /** The function stored for a route (index.mjs:1545-1573). */
  method RunRoute(route: Route, request: nat, options: bool, pre: (nat, nat) -> Step,
                  handler: (nat, nat) -> Step, post: (nat, nat, Reply) -> Step)
    returns (result: RunResult)
    ensures result == RunSpec(route, request, options, pre, handler, post)
  {
    var req := request;
    var reply: Reply := PreflightReply;
    var caught := false;
    var i := 0;
    while i < |route.pres|
      invariant 0 <= i <= |route.pres|
      invariant Pres(route.pres, request, pre) == Pres(route.pres[i..], req, pre)
    {
      assert route.pres[i..][1..] == route.pres[i + 1..];
      match pre(route.pres[i], req) {
        case Returned(v) =>
          if v.Req? {
            req := v.id;
          }
        case Raised(id) =>
          reply := Given(id);
          caught := true;
          break;
        case Crashed =>
          return Failed;
      }
      i := i + 1;
    }
    if !caught {
      assert route.pres[i..] == [];
      if !options {
        match handler(route.handler, req) {
          case Returned(v) =>
            reply := Wrap(v);
          case Raised(id) =>
            reply := Given(id);
          case Crashed =>
            return Failed;
        }
      }
    }
    ghost var expected := Posts(route.posts, req, reply, post);
    assert RunSpec(route, request, options, pre, handler, post) == expected;
    var j := 0;
    while j < |route.posts|
      invariant 0 <= j <= |route.posts|
      invariant expected == Posts(route.posts[j..], req, reply, post)
    {
      assert route.posts[j..][1..] == route.posts[j + 1..];
      match post(route.posts[j], req, reply) {
        case Returned(v) =>
          if !v.Undefined? {
            reply := Wrap(v);
          }
        case Raised(id) =>
          return Escaped(id);
        case Crashed =>
          return Failed;
      }
      j := j + 1;
    }
    assert route.posts[j..] == [];
    result := Done(reply);
  }
}
