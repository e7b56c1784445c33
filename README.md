# A verified model of a minimal Go HTTP router

This project models the `router` package of a small Go web framework. The
package has two parts:

- **router/router.go.** A `Router` holds a route table keyed by
  `path + ":" + method`, a list of middlewares and three configurable default
  headers. A declared path such as `/users/:id` is compiled into an anchored
  regular expression plus the names of its `:` parameters. At serve time the
  default headers are set, the middlewares run in registration order
  (first-registered outermost), and the route table is scanned for a route
  whose matcher accepts the request path. That route's handler runs with the
  extracted parameters; if there is none, the answer is 404 "Not found".
- **router/middlewares.go.** A process-wide session store maps tokens to
  sessions. Tokens are 32 random bytes in padded standard base64. The file
  also holds the session middleware (get or create a session from the
  `session` cookie, answering 500 on failure) and two pass-through
  middlewares.

Modules, one per file:

- `Strings` (strings.dfy) models `strings.Split(s, "/")`, with `Join` as its inverse.
- `Base64` (base64.dfy) models the standard encoding with padding (section 4 of RFC 4648), with a decoder as its partner.
- `Patterns` (patterns.dfy) models `makePathRegexp` and `extractParamsFromURL`:
  - The regular expression is modelled as tokens: a literal character, or `[^/]+`.
  - `MatchString` is given Go's search semantics, with the `^`/`$` anchors.
  - The main theorem is that, on well-formed paths, the compiled matcher is exactly segment-by-segment matching.
  - Parameter extraction comes with its round trip.
- `Sessions` (sessions.dfy) models `randomText`, `CreateSession` and `GetOrCreateSession`, both as pure state steps and as the `SessionStore` class that updates the map in place.
- `Http` (http.dfy) models the request/response exchange a handler transforms, plus `http.Error` and `http.SetCookie`.
- `Router` (router.dfy) models the `Router` class, dispatch, middleware composition and the default headers.
- `Middlewares` (middlewares.dfy) models `ApplyMiddlewares`, `HandleSession`, `AuthMiddleware` and `LoggerMiddleware`.
- `Scenarios` (scenarios.dfy) works through the `/<literal>/:<name>` route shape, with `/users/:id` as an instance.
- `Wrappers` (wrappers.dfy) holds `Option`.

Modelling choices:

- **Well-formed paths.** The matcher theorems assume that a literal segment contains no regular-expression metacharacter, and that `:` appears only at the start of a segment. Literal text is pasted into the expression unescaped, so without this assumption the token form would not be the expression Go compiles.
- **The random source is an input.** It is the sequence of outcomes of its 32-byte reads. A read either fills the buffer or fails, and an exhausted source fails.
- **Order of the route table.** Go visits map entries in an unspecified order. `RoutesHandler` picks the next key with `:|`. The result is therefore stated as "some matching route's handler runs, with that route's extracted parameters".

Three behaviours of the code a reader may not expect, modelled as written:

- **The method is never checked.** `routesHandler` never looks at the request method. A path that matches a route registered for another method is still dispatched to a matching route rather than answered not-found (`Router.MethodNeverConsulted`); when that route is the only one whose path matches, exactly its handler runs (`Router.MethodNeverConsultedOnlyMatch`).
- **A session cookie is not optional.** With no `session` cookie, `HandleSession` creates a session and sets its cookie, then reads the value of the absent cookie. That is a nil dereference, so the request ends in a panic. The model records this as `panicked` and does not substitute a corrected behaviour. With a cookie, processing does not always continue: a failure to create a session is answered with 500 and `next` is not called.
- **A bare `:` segment.** The compiled expression treats a segment that is just `:` as literal text. Extraction, however, binds it under the empty name. Both are modelled as written, and the round-trip lemmas exclude such segments.

## Model

| member | source | states |
|---|---|---|
| Strings.Split | router/router.go:221-222 | `strings.Split(s, "/")` gives at least one piece and no piece contains '/' |
| Strings.SplitJoin | router/router.go:221-222 | splitting a join of slash-free pieces gives back exactly those pieces |
| Strings.JoinSplit | router/router.go:221-222 | joining the pieces of a split with '/' gives back the original string |
| Base64.Encode | router/middlewares.go:24 | the encoding has a multiple of four characters, and is empty exactly for no bytes |
| Base64.KnownAnswersFoo | router/middlewares.go:24 | "foo", "fo" and "f" encode to `Zm9v`, `Zm8=` and `Zg==`, the test vectors of section 10 of RFC 4648 |
| Base64.KnownAnswersAlphabetEnd | router/middlewares.go:24 | `[255]` and `[251, 255]` encode to `/w==` and `+/8=`, fixing the last two letters of the alphabet and the bit order |
| Base64.EncodeLength | router/middlewares.go:24 | the padded encoding of n bytes is 4·⌈n/3⌉ characters long |
| Base64.DecodeEncode | router/middlewares.go:24 | decoding the encoding of any byte string gives back that byte string |
| Base64.EncodeInjective | router/middlewares.go:24 | distinct byte strings have distinct encodings |
| Base64.EncodeShape | router/middlewares.go:24 | the encoding is alphabet characters followed by exactly the padding count of '=' |
| Base64.TokenShape | router/middlewares.go:18-25 | 32 bytes encode to 44 characters: 43 alphabet characters and one final '=' |
| Sessions.ReadFull | router/middlewares.go:19-20 | a non-empty source gives its first outcome and keeps the rest; an exhausted source reads as a failure |
| Sessions.RandomText | router/middlewares.go:18-25 | on a filled read: no error, and the token is the standard encoding of the bytes read: 44 characters ending in one '=', decoding to those bytes; on a failed read: `""` and the error |
| Sessions.Create | router/middlewares.go:34-42 | consumes one read; succeeds iff the read filled the buffer; on success returns `Session{Encode(bytes), false}` and the store gains exactly that entry under its id; on failure returns the zero session and the store is unchanged; keeps every key equal to its session's id |
| Sessions.GetOrCreate | router/middlewares.go:44-55 | a present id returns its session with the state untouched; an absent id behaves exactly like `Create`; the new entry is under the fresh token, so the looked-up id is stored only if it equals that token; keeps the key/id invariant |
| Sessions.CreatedIsRetrievable | router/middlewares.go:39-48 | a session just created is found again by its id, without a random read and without a change to the store |
| Sessions.DistinctReadsDistinctTokens | router/middlewares.go:35-40 | two creations from different random bytes give different tokens |
| Sessions.TwoCreationsBothStored | router/middlewares.go:34-42 | two creations from different reads give two distinct sessions, and both are in the store afterwards |
| Sessions.SessionStore.constructor | router/middlewares.go:32 | the store starts empty over the given random source, with the invariant established |
| Sessions.SessionStore.CreateSession | router/middlewares.go:34-42 | the in-place update is the pure `Create` step: on success the new session is stored under its id, it is unauthorised, and every other entry is unchanged; on failure the zero session is returned and the map is unchanged |
| Sessions.SessionStore.GetOrCreateSession | router/middlewares.go:44-55 | the in-place update is the pure `GetOrCreate` step: a present id returns its session and changes nothing, an absent id acts as `CreateSession`; on success the returned session is stored under its id |
| Http.SetCookie | router/middlewares.go:67-68 | the cookie is appended to the cookies set, and nothing else of the exchange changes |
| Http.Error | router/router.go:156 | `http.Error` sets the status, appends the message and a newline to the body, sets the plain-text content type and `X-Content-Type-Options: nosniff`; the cookies and every other header are unchanged |
| Patterns.ParamNamesAppend | router/router.go:206-210 | the name list of a concatenation of segment lists is the concatenation of their name lists |
| Patterns.ScanBySegments | router/router.go:205-206 | on a well-formed path, the matches of `:[^/]+` are exactly the parameter segments, and every other character stays literal text |
| Patterns.Scan | router/router.go:205-206 | the leftmost-first matches of `:[^/]+` and the characters between them; rendering the pieces back gives the path, so the scan loses nothing |
| Patterns.ScanParamNames | router/router.go:205-206 | every match is a colon followed by a non-empty name without '/' |
| Patterns.ReplaceParams | router/router.go:205 | one token per piece of the scan: `[^/]+` in place of each match of `:[^/]+`, every other character as a literal |
| Patterns.FindAllSubmatches | router/router.go:206 | each submatch is the whole match `:` + name with the name as its first group, the name non-empty and free of '/' |
| Patterns.MatchString | router/router.go:149 | with `^` and `$`, `MatchString` accepts exactly the strings the body matches whole; a whole match is a match whatever the anchors |
| Patterns.PathRegexp | router/router.go:211-212 | the compiled `"^" + body + "$"` accepts exactly the strings the rewritten body matches whole |
| Patterns.PathRegexpAccepts | router/router.go:204-214 | on a well-formed path the compiled matcher accepts a request path iff both have the same number of segments, each literal segment is equal and each parameter position holds a non-empty segment |
| Patterns.MatchGroupsAreParamNames | router/router.go:206-210 | the first groups of the matches of `:([^/]+)` are the names of the `:` segments, in left-to-right order, without the colon |
| Patterns.MakePathRegexp | router/router.go:204-214 | the loop over the matches fills the name list with `ParamNames(path)`, and the returned matcher accepts a path iff it matches segment by segment |
| Patterns.Bind | router/router.go:225-231 | the loop's map after visiting the segments: every value bound is one of the request segments |
| Patterns.ExtractParams | router/router.go:216-234 | when the two paths split into different segment counts the result is the empty map |
| Patterns.BindKeys | router/router.go:226-231 | the keys bound are exactly the names of the colon segments; literal segments bind nothing |
| Patterns.BindValue | router/router.go:226-231 | a name's value is the request segment at the last position that declares it |
| Patterns.ExtractParamsBinds | router/router.go:216-234 | with equal segment counts, every key is a declared name, and each name maps to the request segment at its last declaring position |
| Patterns.SubstituteMatches | router/router.go:211-212 | putting non-empty slash-free values into the parameter positions gives segments the declared path accepts |
| Patterns.BindSubstitute | router/router.go:226-231 | extracting from the substituted segments binds the names to the values, later positions winning |
| Patterns.RoundTrip | router/router.go:204-234 | a path built by substituting non-empty slash-free values is accepted by the matcher, and extraction from it gives the name-to-value map, the later value winning for a repeated name |
| Patterns.RoundTripDistinct | router/router.go:216-234 | with distinct names, the extracted keys are exactly the names and each name maps to its own value |
| Router.RouteKey | router/router.go:56 | the key is the path, a colon, then the method |
| Router.RouteKeyInjective | router/router.go:56 | for methods without a colon, equal route keys mean equal path and equal method |
| Router.ExtractParamsFromURL | router/router.go:216-234 | the loop builds exactly `ExtractParams(route.path, path)` |
| Router.NotFound | router/router.go:156 | status 404 and `Not found` plus a newline appended to the body; request, state and cookies unchanged |
| Router.Dispatch | router/router.go:145-157 | if some route's matcher accepts the path, the result is one such route's handler applied to its extracted parameters; otherwise it is 404 "Not found" |
| Router.SegmentCountMismatchNotFound | router/router.go:145-157 | a path whose segment count differs from every registered path's is answered 404 |
| Router.MethodNeverConsulted | router/router.go:148-153 | a route registered for a different method whose path matches makes dispatch run some matching route's handler, not 404 |
| Router.MethodNeverConsultedOnlyMatch | router/router.go:148-153 | when the only route whose path matches was registered for another method, dispatch runs exactly that route's handler with its extracted parameters |
| Router.ApplyMiddlewares | router/router.go:197-202 | the last middleware of the list wraps `next` directly, and the others wrap that in order, the first outermost |
| Router.ApplyMiddlewaresAppend | router/router.go:197-202 | composing `a + b` around h is composing `a` around (`b` around h), so the first-registered middleware is outermost |
| Router.NestingOrder | router/router.go:197-202 | for wrappers with pre- and post-logic, the pre-logic runs in registration order, then the handler, then the post-logic in reverse order |
| Router.ShortCircuit | router/router.go:197-202 | if any middleware in the chain never calls onward, the composed handler does not depend on the handler inside |
| Router.DownstreamNeverRuns | router/router.go:197-202 | a chain containing a middleware that never calls onward serves as its part up to that middleware around any handler, so no later middleware and not the handler runs |
| Router.PassThroughChain | router/router.go:197-202 | a chain of middlewares that just call `next` serves exactly as the handler they wrap |
| Router.DefaultHeaders | router/router.go:182-192 | each of the three headers is set to its configured value when that value is non-empty and left as it was when empty; every other header is unchanged |
| Router.SetDefaultHeaders | router/router.go:182-195 | the wrapped handler calls `next` once, on the exchange whose response carries the default headers |
| Router.Router.constructor | router/router.go:45-52 | a new router has no middlewares, empty headers and an empty route table |
| Router.Router.AddRoute | router/router.go:54-64 | stores the compiled route under `path:method`, replacing an earlier entry for the same key; every other entry, the middlewares and the headers are unchanged; the table invariant holds |
| Router.Router.Get | router/router.go:89-92 | registers the route under `path:GET` |
| Router.Router.Post | router/router.go:94-97 | registers the route under `path:POST` |
| Router.Router.Put | router/router.go:99-102 | registers the route under `path:PUT` |
| Router.Router.Delete | router/router.go:104-107 | registers the route under `path:DELETE` |
| Router.Router.Options | router/router.go:109-112 | registers the route under `path:OPTIONS` |
| Router.Router.Head | router/router.go:115-118 | registers the route under `path:HEAD` |
| Router.Router.Use | router/router.go:120-122 | appends the middleware, keeping the earlier ones in order; routes and headers are unchanged |
| Router.Router.RoutesHandler | router/router.go:145-157 | the loop runs some route whose matcher accepts the path, with the parameters extracted from it, or answers 404 "Not found" when none does |
| Router.Router.ServeHandler | router/router.go:159-161 | the installed handler sets the default headers first, then runs the middleware chain around dispatch |
| Middlewares.ApplyMiddlewares | router/middlewares.go:11-16 | the exported `ApplyMiddlewares` builds the same handler as the router's `applyMiddlewares` for every list and handler |
| Middlewares.ServeWithSession | router/middlewares.go:57-79 | with a cookie and a session found, `next` runs on the state after the lookup; with no cookie and a successful creation, the store and the Set-Cookie are updated and the request panics; when creating the session fails, the answer is 500 "Internal server error" with the store unchanged; outside `next`, the key/id invariant is kept |
| Middlewares.HandleSession | router/middlewares.go:57-79 | the middleware serves every request as `ServeWithSession` |
| Middlewares.NextNotCalledWithoutSession | router/middlewares.go:59-75 | without a found session the outcome does not depend on `next` (it is never called) |
| Middlewares.NextCalledWithSession | router/middlewares.go:70-77 | with a found session the outcome is exactly `next` on the state after the lookup |
| Middlewares.KnownCookieKeepsState | router/middlewares.go:44-48 | a cookie naming a stored session leaves the exchange unchanged for `next` |
| Middlewares.UnknownCookieStoresFreshSession | router/middlewares.go:49-55 | a cookie naming no stored session creates a session under a fresh token; the cookie's value is stored only if it equals that token |
| Middlewares.AuthMiddleware | router/middlewares.go:81-86 | always calls `next` once, on the same exchange |
| Middlewares.LoggerMiddleware | router/middlewares.go:88-93 | always calls `next` once, on the same exchange |
| Middlewares.PassThroughChain | router/middlewares.go:81-93 | any chain of authentication and logging middlewares serves exactly as the handler inside |
| Middlewares.SessionFirst | router/middlewares.go:57-93 | the session middleware followed by pass-through middlewares serves as the session middleware alone |
| Scenarios.ShapeNames | router/router.go:206-210 | `/w/:n` has the single parameter name `n` |
| Scenarios.ShapeAccepts | router/router.go:204-214 | `/w/:n` accepts `/w/v` for any non-empty, slash-free `v` |
| Scenarios.ShapeExtracts | router/router.go:216-234 | extracting `/w/v` against `/w/:n` gives `{n: v}` |
| Scenarios.ShapeRejectsLonger | router/router.go:211-212 | `/w/:n` rejects `/w/v/extra`: one segment too many |
| Scenarios.ShapeRejectsShorter | router/router.go:211-212 | `/w/:n` rejects `/w`: one segment too few |
| Scenarios.ShapeRejectsTrailing | router/router.go:211-212 | `/w/:n` rejects `/w/`: the parameter segment is empty |
| Scenarios.UsersById | router/router.go:204-234 | `/users/:id` has names `[id]`; it accepts `/users/42`, and extraction gives `{id: 42}` |
| Scenarios.UsersByIdNearMisses | router/router.go:211-212 | `/users/:id` rejects `/users/42/extra`, `/users` and `/users/` |

## Left out

- I/O, left out as transport:
  - `http.ListenAndServe`, the `ServeMux` and the `ResponseWriter`;
  - cookie transport;
  - `Start`'s registration with the mux.

  A response is a status, a body, a header map and the list of cookies set.
- `makeHandler`, `RouteCtx`, `Json`, `Html` and `formatJson` are thin wrappers over templating, JSON encoding and redirects. The registration methods therefore take the `(exchange, params)` handler directly.
- The general Go regular-expression engine is out. Matching is modelled by tokens on well-formed paths only.
- Also out:
  - concurrent access to the unsynchronised `sessionMap` (the model is sequential);
  - the `log.Println` calls;
  - the server's per-request panic recovery.

  A panic is recorded in the exchange, and does not stop the post-logic of outer wrappers in the model.
- Go strings are bytes and the regular expressions work on UTF-8 runes; the model's strings are sequences of characters. For valid UTF-8 the two agree on splitting at '/' and on `[^/]+`, since '/' is a single byte that never occurs inside a multi-byte rune.
- `crypto/rand` is out. Its reads are an input sequence.
- `http.Error`'s removal of `Content-Length` is out, and so is the rule that only the first status written counts.
- Router.DefaultHeaders: `setDefaultHeaders` mutates the header map of the `ResponseWriter` in place. The model applies the same three conditional updates as a functional update of the response's header map.
- Router.Router.Get: like the other five registration methods, it requires a well-formed path. For other paths the compiled expression is not modelled.
- `Router.Router.RoutesHandler` and `Router.Dispatch` do not say which matching route runs when several match. Go leaves that order unspecified.
- web.go is not part of this model. Its handler bodies are example code, and it imports a `router/middlewares` package whose source is not part of this model. The two playground programs are demos with no router logic.
