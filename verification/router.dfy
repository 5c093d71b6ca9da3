/** The dispatch core of the router (src/router.rs): one route table per HTTP
    method, registration, lookup, and the choice of exactly one outcome per
    request — the matched handler, a trailing-slash redirect, an OPTIONS
    report, or "no route".

    The glob compiler and matcher belong to a separate crate and are not part
    of this model. They appear as a `Recognizer`: any total, deterministic
    function from one method's route list and a path to an optional match.
    Every dispatch property below holds for every such recognizer. */
module Routing {
  import opened Results
  import opened Urls

  /** HTTP methods as the web framework enumerates them. */
  datatype Method =
    | Options | Get | Post | Put | Delete | Head | Trace | Connect | Patch
    | Extension(name: string)

  /** Stands for a boxed handler; running it is not part of this model. */
  type HandlerId = nat

  /** Parameters captured by a match: name to path segment. */
  type Params = map<string, string>

  /** One route added to a method's recognizer. */
  datatype Entry = Entry(glob: string, handler: HandlerId)

  datatype Match = Match(handler: HandlerId, params: Params)

  /** The external glob matcher, applied to one method's routes in the order
      they were added. */
  type Recognizer = (seq<Entry>, string) -> Option<Match>

  /** The routers, specialised by method. A method has a table exactly when
      some route was added for it. */
  datatype Router = Router(routers: map<Method, seq<Entry>>)

  // ---------------------------------------------------------------------
  // Registration
  // ---------------------------------------------------------------------

  /** An empty router: no method has a table. */
  function New(): (r: Router)
    ensures forall m :: m !in r.routers
  {
    Router(map[])
  }

  /** The routes registered for `m`, or none when `m` has no table. */
  function TableOf(r: Router, m: Method): seq<Entry> {
    if m in r.routers then r.routers[m] else []
  }

  /** Adds `glob` to the recognizer for `m`, creating that recognizer first
      when `m` has none yet. No other method's table changes. */
  function Route(r: Router, m: Method, glob: string, handler: HandlerId): (r': Router)
    ensures m in r'.routers
    ensures r'.routers[m] == TableOf(r, m) + [Entry(glob, handler)]
    ensures forall m' :: m' != m ==>
      (m' in r'.routers <==> m' in r.routers) && TableOf(r', m') == TableOf(r, m')
  {
    Router(r.routers[m := TableOf(r, m) + [Entry(glob, handler)]])
  }

  function RouteGet(r: Router, glob: string, handler: HandlerId): Router {
    Route(r, Get, glob, handler)
  }

  function RoutePost(r: Router, glob: string, handler: HandlerId): Router {
    Route(r, Post, glob, handler)
  }

  function RoutePut(r: Router, glob: string, handler: HandlerId): Router {
    Route(r, Put, glob, handler)
  }

  function RouteDelete(r: Router, glob: string, handler: HandlerId): Router {
    Route(r, Delete, glob, handler)
  }

  function RouteHead(r: Router, glob: string, handler: HandlerId): Router {
    Route(r, Head, glob, handler)
  }

  function RoutePatch(r: Router, glob: string, handler: HandlerId): Router {
    Route(r, Patch, glob, handler)
  }

  function RouteOptions(r: Router, glob: string, handler: HandlerId): Router {
    Route(r, Options, glob, handler)
  }

  /** Each per-method helper is `Route` with its method fixed. */
  lemma MethodHelpersAreRoute(r: Router, glob: string, h: HandlerId)
    ensures RouteGet(r, glob, h) == Route(r, Get, glob, h)
    ensures RoutePost(r, glob, h) == Route(r, Post, glob, h)
    ensures RoutePut(r, glob, h) == Route(r, Put, glob, h)
    ensures RouteDelete(r, glob, h) == Route(r, Delete, glob, h)
    ensures RouteHead(r, glob, h) == Route(r, Head, glob, h)
    ensures RoutePatch(r, glob, h) == Route(r, Patch, glob, h)
    ensures RouteOptions(r, glob, h) == Route(r, Options, glob, h)
  {
  }

  /** One call of `route` at start-up. */
  datatype Registration = Registration(verb: Method, glob: string, handler: HandlerId)

  /** The router obtained from `New` by the registrations, in order. */
  function Build(regs: seq<Registration>): Router
    decreases |regs|
  {
    if |regs| == 0 then New()
    else
      var last := regs[|regs| - 1];
      Route(Build(regs[..|regs| - 1]), last.verb, last.glob, last.handler)
  }

  /** The registrations for `m`, in order, as recognizer entries. */
  function RoutesFor(regs: seq<Registration>, m: Method): seq<Entry>
    decreases |regs|
  {
    if |regs| == 0 then []
    else
      var last := regs[|regs| - 1];
      RoutesFor(regs[..|regs| - 1], m)
        + (if last.verb == m then [Entry(last.glob, last.handler)] else [])
  }

  /** After start-up, a method has a table iff some registration named it,
      and that table lists exactly its registrations, in order. */
  lemma {:induction false} BuildTables(regs: seq<Registration>, m: Method)
    ensures m in Build(regs).routers <==> RoutesFor(regs, m) != []
    ensures TableOf(Build(regs), m) == RoutesFor(regs, m)
    decreases |regs|
  {
    if |regs| > 0 {
      BuildTables(regs[..|regs| - 1], m);
    }
  }

  // ---------------------------------------------------------------------
  // Lookup
  // ---------------------------------------------------------------------

  /** The recognizer of `m` applied to `path`; no match when `m` has no
      table. */
  function Recognize(r: Router, rec: Recognizer, m: Method, path: string): (o: Option<Match>)
    ensures m !in r.routers ==> o == None
    ensures m in r.routers ==> o == rec(r.routers[m], path)
  {
    if m in r.routers then rec(r.routers[m], path) else None
  }

  /** A method that was never registered matches nothing, whatever the
      recognizer; for the others, lookup consults exactly the routes
      registered for that method. */
  lemma RecognizeAfterBuild(regs: seq<Registration>, rec: Recognizer, m: Method, path: string)
    ensures RoutesFor(regs, m) == [] ==> Recognize(Build(regs), rec, m, path) == None
    ensures RoutesFor(regs, m) != [] ==>
      Recognize(Build(regs), rec, m, path) == rec(RoutesFor(regs, m), path)
  {
    BuildTables(regs, m);
  }

  // ---------------------------------------------------------------------
  // OPTIONS
  // ---------------------------------------------------------------------

  /** The methods probed for an OPTIONS report, in order. `Post` is listed
      twice and `Options` not at all. */
  const OptionsMethods: seq<Method> := [Get, Post, Post, Put, Delete, Head, Patch]

  /** The methods of `methods`, in order and with repetitions, whose
      recognizer matches `path`. */
  function AllowedIn(methods: seq<Method>, r: Router, rec: Recognizer, path: string): (allow: seq<Method>)
    ensures |allow| <= |methods|
    decreases |methods|
  {
    if |methods| == 0 then []
    else
      var m := methods[|methods| - 1];
      AllowedIn(methods[..|methods| - 1], r, rec, path)
        + (if Recognize(r, rec, m, path).Some? then [m] else [])
  }

  /** Each method occurs in the report as often as in the probe list when
      its recognizer matches the path, and not at all otherwise. */
  lemma {:induction false} AllowedInCounts(methods: seq<Method>, r: Router, rec: Recognizer, path: string, m: Method)
    ensures multiset(AllowedIn(methods, r, rec, path))[m]
      == if Recognize(r, rec, m, path).Some? then multiset(methods)[m] else 0
    decreases |methods|
  {
    if |methods| > 0 {
      var init := methods[..|methods| - 1];
      AllowedInCounts(init, r, rec, path, m);
      assert methods == init + [methods[|methods| - 1]];
    }
  }

  /** A method is reported iff it is probed and its recognizer matches. */
  lemma AllowedInMembers(methods: seq<Method>, r: Router, rec: Recognizer, path: string)
    ensures forall m :: m in AllowedIn(methods, r, rec, path) <==>
      m in methods && Recognize(r, rec, m, path).Some?
  {
    forall m
      ensures m in AllowedIn(methods, r, rec, path) <==>
        m in methods && Recognize(r, rec, m, path).Some?
    {
      AllowedInCounts(methods, r, rec, path, m);
      assert m in AllowedIn(methods, r, rec, path) <==> multiset(AllowedIn(methods, r, rec, path))[m] > 0;
      assert m in methods <==> multiset(methods)[m] > 0;
    }
  }

  /** The `Allow` list for the fixed probe list, written out. */
  lemma AllowedOptionsMethods(r: Router, rec: Recognizer, path: string)
    ensures AllowedIn(OptionsMethods, r, rec, path)
      == (if Recognize(r, rec, Get, path).Some? then [Get] else [])
       + (if Recognize(r, rec, Post, path).Some? then [Post, Post] else [])
       + (if Recognize(r, rec, Put, path).Some? then [Put] else [])
       + (if Recognize(r, rec, Delete, path).Some? then [Delete] else [])
       + (if Recognize(r, rec, Head, path).Some? then [Head] else [])
       + (if Recognize(r, rec, Patch, path).Some? then [Patch] else [])
  {
    var t0: seq<Method> := [];
    var t1 := t0 + [Get];
    var t2 := t1 + [Post];
    var t3 := t2 + [Post];
    var t4 := t3 + [Put];
    var t5 := t4 + [Delete];
    var t6 := t5 + [Head];
    var t7 := t6 + [Patch];
    assert t7 == OptionsMethods;
    AllowedInSnoc(t0, Get, r, rec, path);
    AllowedInSnoc(t1, Post, r, rec, path);
    AllowedInSnoc(t2, Post, r, rec, path);
    AllowedInSnoc(t3, Put, r, rec, path);
    AllowedInSnoc(t4, Delete, r, rec, path);
    AllowedInSnoc(t5, Head, r, rec, path);
    AllowedInSnoc(t6, Patch, r, rec, path);
    var post := if Recognize(r, rec, Post, path).Some? then [Post] else [];
    assert post + post == if Recognize(r, rec, Post, path).Some? then [Post, Post] else [];
    assert AllowedIn(t3, r, rec, path)
      == (if Recognize(r, rec, Get, path).Some? then [Get] else []) + (post + post);
  }

  /** Probing one more method appends it when it matches: the one-method
      case of `AllowedInAppend`. */
  lemma AllowedInSnoc(a: seq<Method>, m: Method, r: Router, rec: Recognizer, path: string)
    ensures AllowedIn(a + [m], r, rec, path)
      == AllowedIn(a, r, rec, path) + (if Recognize(r, rec, m, path).Some? then [m] else [])
  {
    AllowedInAppend(a, [m], r, rec, path);
    assert [m][..0] == [];
  }

  /** Filtering distributes over concatenation of probe lists. */
  lemma {:induction false} AllowedInAppend(a: seq<Method>, b: seq<Method>, r: Router, rec: Recognizer, path: string)
    ensures AllowedIn(a + b, r, rec, path) == AllowedIn(a, r, rec, path) + AllowedIn(b, r, rec, path)
    decreases |b|
  {
    if |b| == 0 {
      assert a + b == a;
    } else {
      var b' := b[..|b| - 1];
      AllowedInAppend(a, b', r, rec, path);
      assert (a + b)[..|a + b| - 1] == a + b';
    }
  }

  /** Builds the `Allow` list with a loop over the probe list, as the
      router does, and answers 200. This is the loop form of `AllowedIn`,
      proved equal to it; `Handle` uses `AllowedIn` directly, so every
      dispatch lemma about the OPTIONS report applies to this loop too. */
  method HandleOptions(r: Router, rec: Recognizer, path: string) returns (status: nat, allow: seq<Method>)
    ensures status == StatusOk
    ensures allow == AllowedIn(OptionsMethods, r, rec, path)
    ensures Options !in allow
    ensures forall m :: m in allow <==> m in OptionsMethods && Recognize(r, rec, m, path).Some?
  {
    allow := [];
    for i := 0 to |OptionsMethods|
      invariant allow == AllowedIn(OptionsMethods[..i], r, rec, path)
    {
      var m := OptionsMethods[i];
      assert OptionsMethods[..i + 1][..i] == OptionsMethods[..i];
      if Recognize(r, rec, m, path).Some? {
        allow := allow + [m];
      }
    }
    assert OptionsMethods[..|OptionsMethods|] == OptionsMethods;
    status := StatusOk;
    AllowedInMembers(OptionsMethods, r, rec, path);
  }

  // ---------------------------------------------------------------------
  // Trailing-slash toggle
  // ---------------------------------------------------------------------

  /** A path string together with the URL whose segments it joins. */
  datatype Toggled = Toggled(path: string, url: Url)

  /** Adds a trailing slash to the joined path when it has none and removes
      the one it has otherwise, changing the URL's segment vector in step.
      The empty path is left as it is. */
  function ToggleSlash(url: Url): (t: Toggled)
    ensures var p := Join(url.path);
      && (|p| == 0 ==> t == Toggled(p, url))
      && (|p| > 0 && p[|p| - 1] == '/' ==>
            |url.path| > 0
            && t.path == p[..|p| - 1]
            && t.url == url.(path := url.path[..|url.path| - 1]))
      && (|p| > 0 && p[|p| - 1] != '/' ==>
            t.path == p + "/" && t.url == url.(path := url.path + [""]))
  {
    var p := Join(url.path);
    if |p| == 0 then Toggled(p, url)
    else if p[|p| - 1] == '/' then
      Toggled(p[..|p| - 1], url.(path := url.path[..|url.path| - 1]))
    else
      Toggled(p + "/", url.(path := url.path + [""]))
  }

  /** A joined path of slash-free segments ends in '/' only through an empty
      last segment, after at least one other segment. */
  lemma ToggleSlashTrailing(segs: seq<string>)
    requires AllSlashFree(segs)
    requires |Join(segs)| > 0 && Join(segs)[|Join(segs)| - 1] == '/'
    ensures |segs| >= 2 && segs[|segs| - 1] == ""
    ensures Join(segs) == Join(segs[..|segs| - 1]) + "/"
  {
  }

  /** The toggled segment vector joins to the toggled path string, provided
      no segment holds a slash of its own. */
  lemma ToggleSlashJoin(url: Url)
    requires AllSlashFree(url.path)
    ensures Join(ToggleSlash(url).url.path) == ToggleSlash(url).path
  {
  }

  /** Toggling twice restores the URL when one of the two toggles adds a
      slash: the first one, or the second one. (A path ending in two
      slashes loses one per toggle, so the condition cannot be dropped.) */
  lemma ToggleSlashTwice(url: Url)
    requires AllSlashFree(url.path)
    requires var p := Join(url.path); var q := ToggleSlash(url).path;
      || (|p| > 0 && p[|p| - 1] != '/')
      || (|q| > 0 && q[|q| - 1] != '/')
    ensures ToggleSlash(ToggleSlash(url).url).url == url
  {
  }

  // ---------------------------------------------------------------------
  // Dispatch
  // ---------------------------------------------------------------------

  datatype RouterError = NoRoute | TrailingSlash

  const StatusOk: nat := 200
  const StatusMovedPermanently: nat := 301
  const StatusNotFound: nat := 404

  /** What one dispatch produces. `Handled` stands for running the matched
      handler; the other three are answers of the router itself. */
  datatype Outcome =
    | Handled(handler: HandlerId, params: Params)
    | Redirect(error: RouterError, status: nat, target: Url)
    | Allow(status: nat, methods: seq<Method>)
    | NotFound(error: RouterError, status: nat)

  /** The parts of a request the router reads, and the extension slot into
      which it stores the captured parameters. */
  datatype Request = Request(verb: Method, url: Url, params: Option<Params>)

  /** The request after dispatch, and the outcome. */
  datatype Dispatch = Dispatch(request: Request, outcome: Outcome)

  /** The redirect answer when the slash-toggled path matches under the
      request's method. */
  function RedirectSlash(r: Router, rec: Recognizer, req: Request): (o: Option<Outcome>)
    ensures o.Some? <==> Recognize(r, rec, req.verb, ToggleSlash(req.url).path).Some?
    ensures o.Some? ==>
      o.value == Redirect(TrailingSlash, StatusMovedPermanently, ToggleSlash(req.url).url)
  {
    var t := ToggleSlash(req.url);
    if Recognize(r, rec, req.verb, t.path).Some? then
      Some(Redirect(TrailingSlash, StatusMovedPermanently, t.url))
    else None
  }

  /** Routes one request: the exact match, else a trailing-slash redirect,
      else (for OPTIONS) the list of methods that match, else no route. The
      path given to the recognizer is the URL's segments joined by '/'. */
  function Handle(r: Router, rec: Recognizer, req: Request): (d: Dispatch)
    ensures d.request.verb == req.verb && d.request.url == req.url
    ensures d.outcome.Handled? ==> d.request.params == Some(d.outcome.params)
    ensures !d.outcome.Handled? ==> d.request == req
  {
    var path := Join(req.url.path);
    match Recognize(r, rec, req.verb, path)
    case Some(m) => Dispatch(req.(params := Some(m.params)), Handled(m.handler, m.params))
    case None =>
      match RedirectSlash(r, rec, req)
      case Some(o) => Dispatch(req, o)
      case None =>
        if req.verb == Options then
          Dispatch(req, Allow(StatusOk, AllowedIn(OptionsMethods, r, rec, Join(req.url.path))))
        else
          Dispatch(req, NotFound(NoRoute, StatusNotFound))
  }

  /** An exact match wins: its handler runs with the captured parameters
      stored in the request, even when the slash-toggled path matches too. */
  lemma HandleExactMatch(r: Router, rec: Recognizer, req: Request)
    requires Recognize(r, rec, req.verb, Join(req.url.path)).Some?
    ensures var m := Recognize(r, rec, req.verb, Join(req.url.path)).value;
      Handle(r, rec, req) == Dispatch(req.(params := Some(m.params)), Handled(m.handler, m.params))
  {
  }

  /** A redirect is answered exactly when the exact lookup fails and the
      slash-toggled path matches under the same method; it is a permanent
      redirect to the toggled URL, and the request is left as it was. */
  lemma HandleRedirect(r: Router, rec: Recognizer, req: Request)
    ensures Handle(r, rec, req).outcome.Redirect? <==>
      (Recognize(r, rec, req.verb, Join(req.url.path)).None?
       && Recognize(r, rec, req.verb, ToggleSlash(req.url).path).Some?)
    ensures Handle(r, rec, req).outcome.Redirect? ==>
      Handle(r, rec, req) == Dispatch(req, Redirect(TrailingSlash, StatusMovedPermanently, ToggleSlash(req.url).url))
  {
  }

  /** An OPTIONS report is answered exactly for an OPTIONS request that
      neither matches nor can be redirected; it is a 200 whose `Allow` list
      is built from the unmodified path, and it may be empty. */
  lemma HandleOptionsReport(r: Router, rec: Recognizer, req: Request)
    ensures Handle(r, rec, req).outcome.Allow? <==>
      (Recognize(r, rec, req.verb, Join(req.url.path)).None?
       && Recognize(r, rec, req.verb, ToggleSlash(req.url).path).None?
       && req.verb == Options)
    ensures Handle(r, rec, req).outcome.Allow? ==>
      Handle(r, rec, req) == Dispatch(req, Allow(StatusOk, AllowedIn(OptionsMethods, r, rec, Join(req.url.path))))
  {
  }

  /** "No route" with a 404 is the answer exactly when nothing else applies. */
  lemma HandleNoRoute(r: Router, rec: Recognizer, req: Request)
    ensures Handle(r, rec, req).outcome.NotFound? <==>
      (Recognize(r, rec, req.verb, Join(req.url.path)).None?
       && Recognize(r, rec, req.verb, ToggleSlash(req.url).path).None?
       && req.verb != Options)
    ensures Handle(r, rec, req).outcome.NotFound? ==>
      Handle(r, rec, req) == Dispatch(req, NotFound(NoRoute, StatusNotFound))
  {
  }

  /** The empty path is never redirected: its toggle is the same path, on
      which the deterministic recognizer has already failed. */
  lemma EmptyPathNeverRedirects(r: Router, rec: Recognizer, req: Request)
    requires Join(req.url.path) == ""
    ensures !Handle(r, rec, req).outcome.Redirect?
  {
  }

  /** A path without a trailing slash that matches only with one is
      redirected to the same URL with one more, empty, segment; its path
      then reads as the original with "/" appended. */
  lemma RedirectAddsSlash(r: Router, rec: Recognizer, req: Request)
    requires var p := Join(req.url.path); |p| > 0 && p[|p| - 1] != '/'
    requires Recognize(r, rec, req.verb, Join(req.url.path)).None?
    requires Recognize(r, rec, req.verb, Join(req.url.path) + "/").Some?
    ensures var o := Handle(r, rec, req).outcome;
      && o.Redirect? && o.status == StatusMovedPermanently
      && o.target.path == req.url.path + [""]
      && Join(o.target.path) == Join(req.url.path) + "/"
  {
  }

  /** A path with a trailing slash that matches only without it is
      redirected to the URL with its last, empty, segment removed. */
  lemma RedirectDropsSlash(r: Router, rec: Recognizer, req: Request)
    requires AllSlashFree(req.url.path)
    requires var p := Join(req.url.path); |p| > 0 && p[|p| - 1] == '/'
    requires Recognize(r, rec, req.verb, Join(req.url.path)).None?
    requires var p := Join(req.url.path); Recognize(r, rec, req.verb, p[..|p| - 1]).Some?
    ensures var o := Handle(r, rec, req).outcome;
      var p := Join(req.url.path);
      && o.Redirect? && o.status == StatusMovedPermanently
      && req.url.path == o.target.path + [""]
      && Join(o.target.path) == p[..|p| - 1]
  {
  }

  /** A method nobody registered is never handled and never redirected: a
      request with it gets "no route", or the OPTIONS report. */
  lemma UnregisteredMethod(regs: seq<Registration>, rec: Recognizer, req: Request)
    requires RoutesFor(regs, req.verb) == []
    ensures var o := Handle(Build(regs), rec, req).outcome;
      if req.verb == Options then o.Allow? else o == NotFound(NoRoute, StatusNotFound)
  {
  }

  /** OPTIONS on a path that GET and POST patterns match, and no other
      method's, reports GET once and POST twice. */
  lemma OptionsGetAndPost(r: Router, rec: Recognizer, req: Request)
    requires req.verb == Options
    requires Recognize(r, rec, Options, Join(req.url.path)).None?
    requires Recognize(r, rec, Options, ToggleSlash(req.url).path).None?
    requires forall m :: Recognize(r, rec, m, Join(req.url.path)).Some? <==> m == Get || m == Post
    ensures Handle(r, rec, req).outcome == Allow(StatusOk, [Get, Post, Post])
  {
    var p := Join(req.url.path);
    AllowedOptionsMethods(r, rec, p);
    assert Recognize(r, rec, Get, p).Some?;
    assert Recognize(r, rec, Post, p).Some?;
    assert Recognize(r, rec, Put, p).None?;
    assert Recognize(r, rec, Delete, p).None?;
    assert Recognize(r, rec, Head, p).None?;
    assert Recognize(r, rec, Patch, p).None?;
  }
}
