/**
 * The router of router/router.go: the route table keyed by `path + ":" + method`,
 * the middleware list, dispatch by a scan of the table with a 404 fallback,
 * middleware composition and the default response headers.
 */
module Router {
  import opened Wrappers
  import opened Strings
  import opened Patterns
  import opened Http

  /** A route handler: `func(http.ResponseWriter, *http.Request, map[string]string)`. */
  type RouteHandler = (Exchange, map<string, string>) -> Exchange

  datatype Route = Route(path: string, pathReg: Regexp, paramNames: seq<string>, handler: RouteHandler, httpMethod: string)

  /** The configurable default headers; an empty value means "do not set". */
  datatype Headers = Headers(contentType: string, accessControlAllowOrigin: string, accessControlAllowMethods: string)

  const MethodGet := "GET"
  const MethodPost := "POST"
  const MethodPut := "PUT"
  const MethodDelete := "DELETE"
  const MethodOptions := "OPTIONS"
  const MethodHead := "HEAD"

  /** `fmt.Sprintf("%s:%s", path, method)`. */
  function RouteKey(path: string, httpMethod: string): (key: string)
    ensures |key| == |path| + 1 + |httpMethod|
    ensures key[..|path|] == path && key[|path|] == ':' && key[|path| + 1..] == httpMethod
  {
    path + ":" + httpMethod
  }

  /** For methods without a colon, distinct (path, method) pairs get distinct keys. */
  lemma RouteKeyInjective(p1: string, m1: string, p2: string, m2: string)
    requires forall j :: 0 <= j < |m1| ==> m1[j] != ':'
    requires forall j :: 0 <= j < |m2| ==> m2[j] != ':'
    requires RouteKey(p1, m1) == RouteKey(p2, m2)
    ensures p1 == p2 && m1 == m2
  {
    var key := RouteKey(p1, m1);
    assert key == p1 + ([':'] + m1) == p2 + ([':'] + m2);
    assert forall j :: |p1| < j < |key| ==> key[j] == m1[j - |p1| - 1];
    assert forall j :: |p2| < j < |key| ==> key[j] == m2[j - |p2| - 1];
    assert key[|p1|] == ':' && key[|p2|] == ':';
    assert |p1| == |p2|;
    assert p1 == key[..|p1|] == p2;
    assert m1 == key[|p1| + 1..] == m2;
  }

  /** The entry `addRoute` stores under `key`. */
  ghost predicate Registered(key: string, route: Route) {
    && key == RouteKey(route.path, route.httpMethod)
    && WellFormed(route.path)
    && route.pathReg == PathRegexp(route.path)
    && route.paramNames == ParamNames(route.path)
  }

  ghost predicate TableValid(routes: map<string, Route>) {
    forall key :: key in routes ==> Registered(key, routes[key])
  }

  /** The response for a path no route accepts. */
  function NotFound(x: Exchange): (y: Exchange)
    ensures y.request == x.request && y.state == x.state && y.panicked == x.panicked
    ensures y.response.status == 404 && y.response.body == x.response.body + "Not found\n"
    ensures y.response.cookies == x.response.cookies
  {
    Error(x, "Not found", 404)
  }

  /** `extractParamsFromURL`. */
  method ExtractParamsFromURL(route: Route, path: string) returns (params: map<string, string>)
    ensures params == ExtractParams(route.path, path)
  {
    params := map[];
    var routeSegments := Split(route.path);
    var pathSegments := Split(path);
    if |routeSegments| == |pathSegments| {
      for i := 0 to |routeSegments|
        invariant params == Bind(routeSegments[..i], pathSegments[..i])
      {
        assert routeSegments[..i + 1][..i] == routeSegments[..i];
        assert pathSegments[..i + 1][..i] == pathSegments[..i];
        var segment := routeSegments[i];
        if HasColonPrefix(segment) && i < |pathSegments| {
          var paramName := segment[1..];
          params := params[paramName := pathSegments[i]];
        }
      }
      assert routeSegments[..|routeSegments|] == routeSegments;
      assert pathSegments[..|pathSegments|] == pathSegments;
    }
  }

  /**
   * What `routesHandler` does with a table, as a function: run some route whose
   * matcher accepts the path, with the parameters extracted from it, or answer
   * 404. Which route, when several accept, is left open, as Go's map order is.
   */
  ghost function Dispatch(routes: map<string, Route>, x: Exchange): (y: Exchange)
    ensures (exists k :: k in routes && MatchString(routes[k].pathReg, x.request.path)) ==>
              exists k :: && k in routes && MatchString(routes[k].pathReg, x.request.path)
                          && y == routes[k].handler(x, ExtractParams(routes[k].path, x.request.path))
    ensures (forall k :: k in routes ==> !MatchString(routes[k].pathReg, x.request.path)) ==> y == NotFound(x)
  {
    if exists k :: k in routes && MatchString(routes[k].pathReg, x.request.path) then
      var k :| k in routes && MatchString(routes[k].pathReg, x.request.path);
      routes[k].handler(x, ExtractParams(routes[k].path, x.request.path))
    else NotFound(x)
  }

  ghost function Dispatcher(routes: map<string, Route>): Handler {
    x => Dispatch(routes, x)
  }

  /** A path whose segment count differs from that of every registered path is not found. */
  lemma SegmentCountMismatchNotFound(routes: map<string, Route>, x: Exchange)
    requires TableValid(routes)
    requires forall k :: k in routes ==> |Split(routes[k].path)| != |Split(x.request.path)|
    ensures Dispatch(routes, x) == NotFound(x)
  {
    forall k | k in routes
      ensures !MatchString(routes[k].pathReg, x.request.path)
    {
      PathRegexpAccepts(routes[k].path, x.request.path);
    }
  }

  /**
   * The request method plays no part: a route registered for another method
   * still runs when its path matches.
   */
  lemma MethodNeverConsulted(routes: map<string, Route>, x: Exchange, key: string)
    requires TableValid(routes)
    requires key in routes && routes[key].httpMethod != x.request.httpMethod
    requires SegmentsMatch(Split(routes[key].path), Split(x.request.path))
    ensures exists k :: && k in routes && MatchString(routes[k].pathReg, x.request.path)
                        && Dispatch(routes, x) == routes[k].handler(x, ExtractParams(routes[k].path, x.request.path))
  {
    PathRegexpAccepts(routes[key].path, x.request.path);
  }

  /**
   * When the only route whose matcher accepts the path was registered for
   * another method, dispatch runs exactly that route's handler.
   */
  lemma MethodNeverConsultedOnlyMatch(routes: map<string, Route>, x: Exchange, key: string)
    requires TableValid(routes)
    requires key in routes && routes[key].httpMethod != x.request.httpMethod
    requires SegmentsMatch(Split(routes[key].path), Split(x.request.path))
    requires forall k :: k in routes && k != key ==> !SegmentsMatch(Split(routes[k].path), Split(x.request.path))
    ensures Dispatch(routes, x) == routes[key].handler(x, ExtractParams(routes[key].path, x.request.path))
  {
    forall k | k in routes
      ensures MatchString(routes[k].pathReg, x.request.path) <==> k == key
    {
      PathRegexpAccepts(routes[k].path, x.request.path);
    }
  }

  // ---------------------------------------------------------------------------
  // Middleware composition

  /** `applyMiddlewares`: the first middleware wraps the composition of the rest. */
  function ApplyMiddlewares(middlewares: seq<Middleware>, next: Handler): (h: Handler)
    ensures |middlewares| >= 1 ==>
              var n := |middlewares| - 1;
              h == ApplyMiddlewares(middlewares[..n], middlewares[n](next))
  {
    if |middlewares| < 1 then next
    else
      var n := |middlewares| - 1;
      var rest := middlewares[1..];
      assert n >= 1 ==> middlewares[..n][0] == middlewares[0] && middlewares[..n][1..] == rest[..n - 1] && rest[n - 1] == middlewares[n];
      middlewares[0](ApplyMiddlewares(rest, next))
  }

  /** Composition distributes over concatenation, so the first-registered middleware is outermost. */
  lemma {:induction false} ApplyMiddlewaresAppend(a: seq<Middleware>, b: seq<Middleware>, next: Handler)
    ensures ApplyMiddlewares(a + b, next) == ApplyMiddlewares(a, ApplyMiddlewares(b, next))
  {
    if a == [] {
      assert a + b == b;
    } else {
      assert (a + b)[0] == a[0];
      assert (a + b)[1..] == a[1..] + b;
      ApplyMiddlewaresAppend(a[1..], b, next);
    }
  }

  /** A middleware with logic before and after the handler it wraps. */
  datatype Wrapper = Wrapper(pre: Handler, post: Handler)

  function Around(w: Wrapper): Middleware {
    (next: Handler) => ((x: Exchange) => w.post(next(w.pre(x))))
  }

  function Arounds(ws: seq<Wrapper>): (ms: seq<Middleware>)
    ensures |ms| == |ws|
  {
    if ws == [] then [] else [Around(ws[0])] + Arounds(ws[1..])
  }

  /** The pre-logic of every wrapper, first wrapper first. */
  function RunPres(ws: seq<Wrapper>, x: Exchange): Exchange {
    if ws == [] then x else RunPres(ws[1..], ws[0].pre(x))
  }

  /** The post-logic of every wrapper, last wrapper first. */
  function RunPosts(ws: seq<Wrapper>, y: Exchange): Exchange {
    if ws == [] then y else ws[0].post(RunPosts(ws[1..], y))
  }

  /**
   * For wrappers A, B, C registered in that order around H: A's, B's and C's
   * pre-logic, then H, then C's, B's and A's post-logic.
   */
  lemma {:induction false} NestingOrder(ws: seq<Wrapper>, h: Handler, x: Exchange)
    ensures ApplyMiddlewares(Arounds(ws), h)(x) == RunPosts(ws, h(RunPres(ws, x)))
  {
    if ws != [] {
      var ms := Arounds(ws);
      assert ms[0] == Around(ws[0]) && ms[1..] == Arounds(ws[1..]);
      NestingOrder(ws[1..], h, ws[0].pre(x));
    }
  }

  /** Middleware `m` never calls the handler it wraps. */
  ghost predicate IgnoresNext(m: Middleware) {
    forall a, b :: m(a) == m(b)
  }

  /** When one middleware of the chain never calls onward, the composed handler does not depend on the handler inside. */
  lemma ShortCircuit(ms: seq<Middleware>, i: nat, h1: Handler, h2: Handler)
    requires i < |ms| && IgnoresNext(ms[i])
    ensures ApplyMiddlewares(ms, h1) == ApplyMiddlewares(ms, h2)
  {
    assert ms == ms[..i] + ms[i..];
    ApplyMiddlewaresAppend(ms[..i], ms[i..], h1);
    ApplyMiddlewaresAppend(ms[..i], ms[i..], h2);
    assert ms[i..][0] == ms[i];
    assert ApplyMiddlewares(ms[i..], h1) == ms[i](ApplyMiddlewares(ms[i..][1..], h1));
    assert ApplyMiddlewares(ms[i..], h2) == ms[i](ApplyMiddlewares(ms[i..][1..], h2));
  }

  /**
   * Nothing downstream of a middleware that never calls onward runs: the chain
   * serves as its part up to and including that middleware, around any handler.
   */
  lemma DownstreamNeverRuns(ms: seq<Middleware>, i: nat, h: Handler, other: Handler)
    requires i < |ms| && IgnoresNext(ms[i])
    ensures ApplyMiddlewares(ms, h) == ApplyMiddlewares(ms[..i + 1], other)
  {
    assert ms == ms[..i + 1] + ms[i + 1..];
    ApplyMiddlewaresAppend(ms[..i + 1], ms[i + 1..], h);
    assert ms[..i + 1][i] == ms[i];
    ShortCircuit(ms[..i + 1], i, ApplyMiddlewares(ms[i + 1..], h), other);
  }

  /** Middleware `m` calls the handler it wraps exactly once, on the exchange it was given, and adds nothing. */
  ghost predicate PassesThrough(m: Middleware) {
    forall next: Handler, x: Exchange :: m(next)(x) == next(x)
  }

  lemma {:induction false} PassThroughChain(ms: seq<Middleware>, h: Handler, x: Exchange)
    requires forall i :: 0 <= i < |ms| ==> PassesThrough(ms[i])
    ensures ApplyMiddlewares(ms, h)(x) == h(x)
  {
    if ms != [] {
      PassThroughChain(ms[1..], h, x);
      assert PassesThrough(ms[0]);
    }
  }

  // ---------------------------------------------------------------------------
  // Default headers

  const AllowMethodsKey := "Access-Control-Allow-Methods"
  const AllowOriginKey := "Access-Control-Allow-Origin"
  const ContentTypeKey := "Content-Type"

  /** `r` is `header` with `key` set to `value` when `value` is non-empty, and untouched at `key` otherwise. */
  predicate SetWhenConfigured(header: Header, r: Header, key: string, value: string) {
    && (value != "" ==> key in r && r[key] == value)
    && (value == "" ==> (key in r <==> key in header) && (key in header ==> r[key] == header[key]))
  }

  /** The header map after the three conditional `Set` calls of `setDefaultHeaders`. */
  function DefaultHeaders(h: Headers, header: Header): (r: Header)
    ensures SetWhenConfigured(header, r, AllowMethodsKey, h.accessControlAllowMethods)
    ensures SetWhenConfigured(header, r, AllowOriginKey, h.accessControlAllowOrigin)
    ensures SetWhenConfigured(header, r, ContentTypeKey, h.contentType)
    ensures forall k :: k != AllowMethodsKey && k != AllowOriginKey && k != ContentTypeKey ==>
              (k in r <==> k in header) && (k in r ==> r[k] == header[k])
  {
    var h1 := if h.accessControlAllowMethods != "" then header[AllowMethodsKey := h.accessControlAllowMethods] else header;
    var h2 := if h.accessControlAllowOrigin != "" then h1[AllowOriginKey := h.accessControlAllowOrigin] else h1;
    if h.contentType != "" then h2[ContentTypeKey := h.contentType] else h2
  }

  function WithDefaultHeaders(h: Headers, x: Exchange): Exchange {
    x.(response := x.response.(header := DefaultHeaders(h, x.response.header)))
  }

  /** `setDefaultHeaders`: the defaults go into the response header, then `next` runs once. */
  function SetDefaultHeaders(h: Headers, next: Handler): (r: Handler)
    ensures forall x :: r(x) == next(WithDefaultHeaders(h, x))
  {
    x => next(WithDefaultHeaders(h, x))
  }

  // ---------------------------------------------------------------------------
  // The router object

  class Router {
    var middlewares: seq<Middleware>
    var headers: Headers
    var routes: map<string, Route>

    ghost predicate Valid()
      reads this
    {
      TableValid(routes)
    }

    /** `NewRouter`. */
    constructor ()
      ensures Valid()
      ensures middlewares == [] && headers == Headers("", "", "") && routes == map[]
    {
      middlewares := [];
      headers := Headers("", "", "");
      routes := map[];
    }

    /** `addRoute`: compile the path and store the route under `path:method`, replacing any earlier one. */
    method AddRoute(path: string, httpMethod: string, handler: RouteHandler)
      requires Valid() && WellFormed(path)
      modifies this
      ensures Valid()
      ensures routes == old(routes)[RouteKey(path, httpMethod) := Route(path, PathRegexp(path), ParamNames(path), handler, httpMethod)]
      ensures forall k :: k != RouteKey(path, httpMethod) ==> (k in routes <==> k in old(routes))
      ensures forall k :: k != RouteKey(path, httpMethod) && k in routes ==> routes[k] == old(routes)[k]
      ensures middlewares == old(middlewares) && headers == old(headers)
    {
      var pathRegex, dynamicNames := MakePathRegexp(path);
      var routeKey := RouteKey(path, httpMethod);
      routes := routes[routeKey := Route(path, pathRegex, dynamicNames, handler, httpMethod)];
    }

    method Get(path: string, handler: RouteHandler)
      requires Valid() && WellFormed(path)
      modifies this
      ensures Valid()
      ensures routes == old(routes)[RouteKey(path, MethodGet) := Route(path, PathRegexp(path), ParamNames(path), handler, MethodGet)]
      ensures middlewares == old(middlewares) && headers == old(headers)
    {
      AddRoute(path, MethodGet, handler);
    }

    method Post(path: string, handler: RouteHandler)
      requires Valid() && WellFormed(path)
      modifies this
      ensures Valid()
      ensures routes == old(routes)[RouteKey(path, MethodPost) := Route(path, PathRegexp(path), ParamNames(path), handler, MethodPost)]
      ensures middlewares == old(middlewares) && headers == old(headers)
    {
      AddRoute(path, MethodPost, handler);
    }

    method Put(path: string, handler: RouteHandler)
      requires Valid() && WellFormed(path)
      modifies this
      ensures Valid()
      ensures routes == old(routes)[RouteKey(path, MethodPut) := Route(path, PathRegexp(path), ParamNames(path), handler, MethodPut)]
      ensures middlewares == old(middlewares) && headers == old(headers)
    {
      AddRoute(path, MethodPut, handler);
    }

    method Delete(path: string, handler: RouteHandler)
      requires Valid() && WellFormed(path)
      modifies this
      ensures Valid()
      ensures routes == old(routes)[RouteKey(path, MethodDelete) := Route(path, PathRegexp(path), ParamNames(path), handler, MethodDelete)]
      ensures middlewares == old(middlewares) && headers == old(headers)
    {
      AddRoute(path, MethodDelete, handler);
    }

    method Options(path: string, handler: RouteHandler)
      requires Valid() && WellFormed(path)
      modifies this
      ensures Valid()
      ensures routes == old(routes)[RouteKey(path, MethodOptions) := Route(path, PathRegexp(path), ParamNames(path), handler, MethodOptions)]
      ensures middlewares == old(middlewares) && headers == old(headers)
    {
      AddRoute(path, MethodOptions, handler);
    }

    method Head(path: string, handler: RouteHandler)
      requires Valid() && WellFormed(path)
      modifies this
      ensures Valid()
      ensures routes == old(routes)[RouteKey(path, MethodHead) := Route(path, PathRegexp(path), ParamNames(path), handler, MethodHead)]
      ensures middlewares == old(middlewares) && headers == old(headers)
    {
      AddRoute(path, MethodHead, handler);
    }

    /** `Use`: append one middleware, keeping the earlier ones in order. */
    method Use(middleware: Middleware)
      requires Valid()
      modifies this
      ensures Valid()
      ensures middlewares == old(middlewares) + [middleware]
      ensures routes == old(routes) && headers == old(headers)
    {
      middlewares := middlewares + [middleware];
    }

    /**
     * `routesHandler`: visit the routes in an unspecified order and run the
     * first whose matcher accepts the path, with the extracted parameters;
     * answer 404 "Not found" when none does. The method is never looked at.
     */
    method RoutesHandler(x: Exchange) returns (y: Exchange)
      ensures (exists k :: k in routes && MatchString(routes[k].pathReg, x.request.path)) ==>
                exists k :: && k in routes && MatchString(routes[k].pathReg, x.request.path)
                            && y == routes[k].handler(x, ExtractParams(routes[k].path, x.request.path))
      ensures (forall k :: k in routes ==> !MatchString(routes[k].pathReg, x.request.path)) ==> y == NotFound(x)
    {
      var path := x.request.path;
      var keys := routes.Keys;
      while keys != {}
        invariant keys <= routes.Keys
        invariant forall k :: k in routes.Keys - keys ==> !MatchString(routes[k].pathReg, path)
        decreases keys
      {
        var k :| k in keys;
        var route := routes[k];
        if MatchString(route.pathReg, path) {
          var params := ExtractParamsFromURL(route, path);
          y := route.handler(x, params);
          return;
        }
        keys := keys - {k};
      }
      y := NotFound(x);
    }

    /**
     * The handler `Start` installs: default headers around the middleware chain
     * around route dispatch, so the headers are set before any middleware runs.
     */
    ghost function ServeHandler(): (h: Handler)
      reads this
      ensures forall x :: h(x) == ApplyMiddlewares(middlewares, Dispatcher(routes))(WithDefaultHeaders(headers, x))
    {
      SetDefaultHeaders(headers, ApplyMiddlewares(middlewares, Dispatcher(routes)))
    }
  }
}
