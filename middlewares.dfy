/**
 * The middlewares of router/middlewares.go: the exported composition helper,
 * the session middleware and the two pass-through middlewares. Only the
 * control decisions are modelled: whether `next` runs, on which state, or
 * which error response is written instead.
 */
module Middlewares {
  import opened Wrappers
  import opened Sessions
  import opened Http
  import Router

  /** `ApplyMiddlewares`, the exported twin of the router's `applyMiddlewares`: it builds the same handler from the same list. */
  function ApplyMiddlewares(middlewares: seq<Middleware>, next: Handler): (h: Handler)
    ensures h == Router.ApplyMiddlewares(middlewares, next)
  {
    if |middlewares| < 1 then next
    else middlewares[0](ApplyMiddlewares(middlewares[1..], next))
  }

  const InternalServerError := "Internal server error"

  const SessionCookieName := "session"

  /** The request carries a session cookie and getting or creating its session succeeds. */
  predicate SessionFound(x: Exchange) {
    && x.request.sessionCookie.Some?
    && GetOrCreate(x.state, x.request.sessionCookie.value).err.None?
  }

  /**
   * One request through `HandleSession(next)`. Without a cookie a session is
   * created and its cookie set, and the handler then dereferences the absent
   * cookie: that path ends in a panic and `next` never runs. With a cookie the
   * session is got or created; `next` runs on success, and any failure to
   * create a session is answered with 500.
   */
  function ServeWithSession(next: Handler, x: Exchange): (y: Exchange)
    ensures SessionFound(x) ==>
              y == next(x.(state := GetOrCreate(x.state, x.request.sessionCookie.value).state))
    ensures x.request.sessionCookie.None? && Create(x.state).err.None? ==>
              && y.panicked
              && y.state == Create(x.state).state
              && y.response.cookies == x.response.cookies + [Cookie(SessionCookieName, Create(x.state).session.id)]
              && y.response.status == x.response.status && y.response.body == x.response.body
    ensures (x.request.sessionCookie.None? && Create(x.state).err.Some?)
            || (x.request.sessionCookie.Some? && !SessionFound(x)) ==>
              && y.response.status == 500
              && y.response.body == x.response.body + InternalServerError + "\n"
              && y.response.cookies == x.response.cookies
              && y.state.sessions == x.state.sessions
              && y.panicked == x.panicked
    ensures !SessionFound(x) && KeysAreIds(x.state.sessions) ==> KeysAreIds(y.state.sessions)
  {
    match x.request.sessionCookie
    case None =>
      var created := Create(x.state);
      var x' := x.(state := created.state);
      if created.err.Some? then Http.Error(x', InternalServerError, 500)
      else SetCookie(x', Cookie(SessionCookieName, created.session.id)).(panicked := true)
    case Some(sessionId) =>
      var got := GetOrCreate(x.state, sessionId);
      var x' := x.(state := got.state);
      if got.err.Some? then Http.Error(x', InternalServerError, 500)
      else next(x')
  }

  /** `HandleSession`. */
  function HandleSession(next: Handler): (h: Handler)
    ensures forall x :: h(x) == ServeWithSession(next, x)
  {
    x => ServeWithSession(next, x)
  }

  /** Without a session, what `HandleSession` does cannot depend on `next`: it is never called. */
  lemma NextNotCalledWithoutSession(next1: Handler, next2: Handler, x: Exchange)
    requires !SessionFound(x)
    ensures HandleSession(next1)(x) == HandleSession(next2)(x)
  {
  }

  /** With a session found, `HandleSession` is `next` on the state after the lookup. */
  lemma NextCalledWithSession(next: Handler, x: Exchange)
    requires SessionFound(x)
    ensures HandleSession(next)(x) == next(x.(state := GetOrCreate(x.state, x.request.sessionCookie.value).state))
  {
  }

  /**
   * A cookie naming a stored session adds nothing to the store: `next` sees
   * the state unchanged.
   */
  lemma KnownCookieKeepsState(next: Handler, x: Exchange)
    requires x.request.sessionCookie.Some? && x.request.sessionCookie.value in x.state.sessions
    ensures HandleSession(next)(x) == next(x)
  {
    assert x.(state := x.state) == x;
  }

  /**
   * A cookie naming no stored session makes a fresh session, stored under its
   * own token and not under the cookie's value (unless the two coincide); `next`
   * then runs without the new token ever being sent to the client.
   */
  lemma UnknownCookieStoresFreshSession(next: Handler, x: Exchange)
    requires x.request.sessionCookie.Some? && x.request.sessionCookie.value !in x.state.sessions
    requires Create(x.state).err.None?
    ensures var created := Create(x.state);
            && HandleSession(next)(x) == next(x.(state := created.state))
            && created.session.id in created.state.sessions
            && (x.request.sessionCookie.value in created.state.sessions <==> x.request.sessionCookie.value == created.session.id)
  {
    var v := x.request.sessionCookie.value;
    assert GetOrCreate(x.state, v) == Create(x.state);
  }

  /** `AuthMiddleware`: a placeholder that always calls `next` once, on the same exchange. */
  function AuthMiddleware(next: Handler): (h: Handler)
    ensures forall x :: h(x) == next(x)
  {
    x => next(x)
  }

  /** `LoggerMiddleware`: logs, then calls `next` once, on the same exchange. */
  function LoggerMiddleware(next: Handler): (h: Handler)
    ensures forall x :: h(x) == next(x)
  {
    x => next(x)
  }

  /** Any chain of authentication and logging middlewares serves exactly as the handler it wraps. */
  lemma {:induction false} PassThroughChain(ms: seq<Middleware>, h: Handler, x: Exchange)
    requires forall i :: 0 <= i < |ms| ==> ms[i] == AuthMiddleware || ms[i] == LoggerMiddleware
    ensures ApplyMiddlewares(ms, h)(x) == h(x)
  {
    if |ms| >= 1 {
      PassThroughChain(ms[1..], h, x);
    }
  }

  /**
   * The session middleware registered first, with pass-through middlewares
   * after it, serves a request exactly as the session middleware alone would.
   */
  lemma SessionFirst(ms: seq<Middleware>, h: Handler, x: Exchange)
    requires forall i :: 0 <= i < |ms| ==> ms[i] == AuthMiddleware || ms[i] == LoggerMiddleware
    ensures ApplyMiddlewares([HandleSession] + ms, h)(x) == ServeWithSession(h, x)
  {
    var chain := [HandleSession] + ms;
    var inner := ApplyMiddlewares(ms, h);
    assert chain[0] == HandleSession && chain[1..] == ms;
    assert ApplyMiddlewares(chain, h)(x) == ServeWithSession(inner, x);
    if SessionFound(x) {
      PassThroughChain(ms, h, x.(state := GetOrCreate(x.state, x.request.sessionCookie.value).state));
    } else {
      NextNotCalledWithoutSession(inner, h, x);
    }
  }
}
