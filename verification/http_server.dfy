/** `HttpServer`: the tables its registration methods fill, and the handling
    of one client connection over them. */
module Server {
  import opened Wrappers
  import opened Text
  import opened Paths
  import opened Constants
  import opened Routes
  import opened RequestFraming
  import opened ServerState
  import opened Access
  import opened Dispatch

  /** The keys `add_route` resolves the aliases to, in order. */
  function AliasPaths(root: Path, aliases: seq<string>): (r: seq<Path>)
    ensures |r| == |aliases|
  {
    seq(|aliases|, k requires 0 <= k < |aliases| => StrPath(root, aliases[k]))
  }

  /** `m` after `m[key] = v` for every key of `keys`, in order. */
  function InsertAll<K, V>(m: map<K, V>, keys: seq<K>, v: V): map<K, V> {
    if |keys| == 0 then m
    else InsertAll(m, keys[..|keys| - 1], v)[keys[|keys| - 1] := v]
  }

  /** The inserted keys map to `v`, no other key is added and no other
      entry changes. */
  lemma {:induction false} InsertAllEntries<K, V>(m: map<K, V>, keys: seq<K>, v: V)
    ensures forall k :: k in InsertAll(m, keys, v) <==> k in m || k in keys
    ensures forall k :: k in keys ==> InsertAll(m, keys, v)[k] == v
    ensures forall k :: k in m && k !in keys ==> InsertAll(m, keys, v)[k] == m[k]
  {
    if |keys| > 0 {
      var n := |keys| - 1;
      InsertAllEntries(m, keys[..n], v);
      assert keys == keys[..n] + [keys[n]];
    }
  }

  /** `routes` after `add_route`: the aliases, then the route's own path
      when it could be resolved. */
  function Registered(m: map<Path, Route>, root: Path, aliases: seq<string>, target: Outcome<Path>, route: Route): map<Path, Route> {
    InsertAll(m, AliasPaths(root, aliases) + (if target.Ok? then [target.value] else []), route)
  }

  /** After `add_route`, every alias key, and the route's own path when it
      resolves, maps to the route; no other key is added and no other entry
      changes. */
  lemma RegisteredEntries(m: map<Path, Route>, root: Path, aliases: seq<string>, target: Outcome<Path>, route: Route)
    ensures var r := Registered(m, root, aliases, target, route);
      forall p :: p in r <==> p in m || p in AliasPaths(root, aliases) || (target.Ok? && p == target.value)
    ensures var r := Registered(m, root, aliases, target, route);
      forall k :: 0 <= k < |aliases| ==> StrPath(root, aliases[k]) in r && r[StrPath(root, aliases[k])] == route
    ensures target.Ok? ==> Registered(m, root, aliases, target, route)[target.value] == route
    ensures forall p :: p in m && p !in AliasPaths(root, aliases) && (target.Ok? ==> p != target.value) ==>
      Registered(m, root, aliases, target, route)[p] == m[p]
  {
    var keys := AliasPaths(root, aliases) + (if target.Ok? then [target.value] else []);
    InsertAllEntries(m, keys, route);
    forall k | 0 <= k < |aliases|
      ensures StrPath(root, aliases[k]) in keys
    {
      assert keys[k] == StrPath(root, aliases[k]);
    }
    if target.Ok? {
      assert keys[|aliases|] == target.value;
    }
  }

  class HttpServer {
    var routes: map<Path, Route>
    var allowedDirectories: seq<Path>
    var movedRoutes: map<Path, Moved>
    var blacklistedFiles: seq<Path>
    var errorPages: map<int, Route>
    var defaultErrorPage: Option<Route>
    /** The directory relative paths are resolved against; also the working
        directory. It starts resolved, but `set_root` with an absolute string
        stores that string only parsed. */
    var root: Path

    /** Every moved route answers with 301 or 302. */
    predicate Valid()
      reads this
    {
      MovedStatuses(movedRoutes)
    }

    /** `HttpServer()`: empty tables, rooted at the working directory
        `cwd`, which `Path(".").absolute().resolve()` gives canonical. */
    constructor (cwd: Path)
      requires Canonical(cwd)
      ensures Valid()
      ensures routes == map[] && allowedDirectories == [] && movedRoutes == map[]
      ensures blacklistedFiles == [] && errorPages == map[] && defaultErrorPage == None
      ensures root == cwd
    {
      routes := map[];
      allowedDirectories := [];
      movedRoutes := map[];
      blacklistedFiles := [];
      errorPages := map[];
      defaultErrorPage := None;
      root := cwd;
    }

    /** The route objects a request may reach. */
    function RouteObjects(): set<Route>
      reads this
    {
      routes.Values + errorPages.Values + (if defaultErrorPage.Some? then {defaultErrorPage.value} else {})
    }

    /** The server as the dispatcher sees it now, each route read through
        its current fields. */
    function View(): (v: ServerView)
      reads this, RouteObjects()
      ensures v.root == root && v.allowed == allowedDirectories
      ensures v.moved == movedRoutes && v.blacklisted == blacklistedFiles
      ensures v.routes.Keys == routes.Keys && v.errorPages.Keys == errorPages.Keys
      ensures forall p :: p in routes ==> v.routes[p] == routes[p].Snapshot()
      ensures forall c :: c in errorPages ==> v.errorPages[c] == errorPages[c].Snapshot()
      ensures v.defaultErrorPage.Some? <==> defaultErrorPage.Some?
      ensures defaultErrorPage.Some? ==> v.defaultErrorPage.value == defaultErrorPage.value.Snapshot()
    {
      ServerView(
        root,
        map p | p in routes :: routes[p].Snapshot(),
        allowedDirectories,
        movedRoutes,
        blacklistedFiles,
        map c | c in errorPages :: errorPages[c].Snapshot(),
        if defaultErrorPage.Some? then Some(defaultErrorPage.value.Snapshot()) else None)
    }

    /** `add_route`: every alias, then the route's own path, is resolved and
        mapped to the route. A route whose path is `None` raises once its
        aliases are in. */
    method AddRoute(route: Route) returns (raised: bool)
      requires Valid()
      modifies this
      ensures Valid()
      ensures raised <==> route.path.PNone?
      ensures routes == Registered(old(routes), root, route.aliases, MakePath(root, route.path), route)
      ensures allowedDirectories == old(allowedDirectories) && movedRoutes == old(movedRoutes)
      ensures blacklistedFiles == old(blacklistedFiles) && errorPages == old(errorPages)
      ensures defaultErrorPage == old(defaultErrorPage) && root == old(root)
    {
      var keys := AliasPaths(root, route.aliases);
      var i := 0;
      while i < |route.aliases|
        invariant i <= |route.aliases|
        invariant routes == InsertAll(old(routes), keys[..i], route)
        invariant allowedDirectories == old(allowedDirectories) && movedRoutes == old(movedRoutes)
        invariant blacklistedFiles == old(blacklistedFiles) && errorPages == old(errorPages)
        invariant defaultErrorPage == old(defaultErrorPage) && root == old(root)
      {
        assert routes[keys[i] := route] == InsertAll(old(routes), keys[..i + 1], route) by {
          assert keys[..i + 1][..i] == keys[..i];
        }
        routes := routes[keys[i] := route];
        i := i + 1;
      }
      var target := MakePath(root, route.path);
      if target.Crash? {
        assert routes == Registered(old(routes), root, route.aliases, target, route) by {
          assert keys[..i] == keys + [];
        }
        return true;
      }
      assert routes[target.value := route] == Registered(old(routes), root, route.aliases, target, route) by {
        assert (keys + [target.value])[..|keys|] == keys[..i];
      }
      routes := routes[target.value := route];
      raised := false;
    }

    /** `add_error_code_page`: the route's own path is resolved in place,
        which every table holding the route sees, and the route answers for
        `code`. A route whose path is `None` raises before either. */
    method AddErrorCodePage(code: int, route: Route) returns (raised: bool)
      requires Valid()
      modifies this, route
      ensures Valid()
      ensures raised <==> old(route.path).PNone?
      ensures raised ==> route.path == old(route.path) && errorPages == old(errorPages)
      ensures !raised ==> route.path == PObj(MakePath(root, old(route.path)).value)
      ensures !raised ==> errorPages == old(errorPages)[code := route]
      ensures routes == old(routes) && allowedDirectories == old(allowedDirectories)
      ensures movedRoutes == old(movedRoutes) && blacklistedFiles == old(blacklistedFiles)
      ensures defaultErrorPage == old(defaultErrorPage) && root == old(root)
    {
      var p := MakePath(root, route.path);
      if p.Crash? {
        return true;
      }
      route.path := PObj(p.value);
      errorPages := errorPages[code := route];
      raised := false;
    }

    /** `set_default_error_code_page` */
    method SetDefaultErrorCodePage(route: Route)
      requires Valid()
      modifies this
      ensures Valid()
      ensures defaultErrorPage == Some(route)
      ensures routes == old(routes) && allowedDirectories == old(allowedDirectories)
      ensures movedRoutes == old(movedRoutes) && blacklistedFiles == old(blacklistedFiles)
      ensures errorPages == old(errorPages) && root == old(root)
    {
      defaultErrorPage := Some(route);
    }

    /** `allow_directory` */
    method AllowDirectory(path: string)
      requires Valid()
      modifies this
      ensures Valid()
      ensures allowedDirectories == old(allowedDirectories) + [StrPath(root, path)]
      ensures routes == old(routes) && movedRoutes == old(movedRoutes)
      ensures blacklistedFiles == old(blacklistedFiles) && errorPages == old(errorPages)
      ensures defaultErrorPage == old(defaultErrorPage) && root == old(root)
    {
      allowedDirectories := allowedDirectories + [StrPath(root, path)];
    }

    /** `add_moved_route`: `"perm"` moves permanently, anything else
        temporarily. */
    method AddMovedRoute(path: string, newPath: string, kind: string := "temp")
      requires Valid()
      modifies this
      ensures Valid()
      ensures movedRoutes == old(movedRoutes)[StrPath(root, path) :=
        Moved(StrPath(root, newPath), if kind == "perm" then MovedPermanently else MovedTemporarily)]
      ensures routes == old(routes) && allowedDirectories == old(allowedDirectories)
      ensures blacklistedFiles == old(blacklistedFiles) && errorPages == old(errorPages)
      ensures defaultErrorPage == old(defaultErrorPage) && root == old(root)
    {
      var status := if kind == "perm" then MovedPermanently else MovedTemporarily;
      movedRoutes := movedRoutes[StrPath(root, path) := Moved(StrPath(root, newPath), status)];
    }

    /** `set_root`: the new root is resolved against the old one, and becomes
        the working directory. */
    method SetRoot(path: string)
      requires Valid()
      modifies this
      ensures Valid()
      ensures root == StrPath(old(root), path)
      ensures routes == old(routes) && allowedDirectories == old(allowedDirectories)
      ensures movedRoutes == old(movedRoutes) && blacklistedFiles == old(blacklistedFiles)
      ensures errorPages == old(errorPages) && defaultErrorPage == old(defaultErrorPage)
    {
      root := StrPath(root, path);
    }

    /** `disallow_file` */
    method DisallowFile(path: string)
      requires Valid()
      modifies this
      ensures Valid()
      ensures blacklistedFiles == old(blacklistedFiles) + [StrPath(root, path)]
      ensures routes == old(routes) && allowedDirectories == old(allowedDirectories)
      ensures movedRoutes == old(movedRoutes) && errorPages == old(errorPages)
      ensures defaultErrorPage == old(defaultErrorPage) && root == old(root)
    {
      blacklistedFiles := blacklistedFiles + [StrPath(root, path)];
    }

    /** `__handle_client`: read the request, answer it, shut the connection
        down. Returns what was sent, whether the connection was closed, and
        how many receive events the read consumed. */
    method HandleClient(fs: FileSystem, input: seq<RecvEvent>, run: HandlerRun)
      returns (sent: seq<Bytes>, closed: bool, consumed: nat)
      ensures Exchange(sent, closed) == Serve(View(), fs, input, run)
      ensures consumed == ExpectedReceive(input).consumed
      ensures closed <==> |sent| == 1
    {
      var r, n := ReceiveHttp(input);
      consumed := n;
      var e := Conclude(Respond(View(), fs, r, run));
      sent, closed := e.sent, e.closed;
    }
  }

  /** On a server whose moved routes were all added by `add_moved_route`,
      the file check answers with one of six statuses. */
  lemma ServerFileCodes(s: HttpServer, fs: FileSystem, p: Path)
    requires s.Valid()
    ensures FileCode(s.View(), fs, p) in {OK, MovedPermanently, MovedTemporarily, Forbidden, NotFound, NotImplemented}
  {
    FileCodeOk(s.View(), fs, p);
  }
}
