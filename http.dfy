/**
 * The slice of `net/http` the router sees, modelled as values. A handler takes
 * one exchange (the request, the response written so far, and the shared
 * session state) to the exchange it leaves behind; a middleware wraps a handler.
 */
module Http {
  import opened Wrappers
  import Sessions

  type Header = map<string, string>

  datatype Cookie = Cookie(name: string, value: string)

  /** The parts of a request the core reads: method, URL path and the `session` cookie. */
  datatype Request = Request(httpMethod: string, path: string, sessionCookie: Option<string>)

  /** Status, body text, header map and the cookies set with `http.SetCookie`. */
  datatype Response = Response(status: nat, body: string, header: Header, cookies: seq<Cookie>)

  /** A request being served; `panicked` records that the handler ended in a run-time panic. */
  datatype Exchange = Exchange(request: Request, response: Response, state: Sessions.State, panicked: bool)

  type Handler = Exchange -> Exchange

  type Middleware = Handler -> Handler

  /** `http.Error(w, msg, code)`: plain-text headers, the status, and the message as a line of body. */
  function Error(x: Exchange, msg: string, code: nat): (y: Exchange)
    ensures y.request == x.request && y.state == x.state && y.panicked == x.panicked
    ensures y.response.status == code && y.response.body == x.response.body + msg + "\n"
    ensures "Content-Type" in y.response.header && y.response.header["Content-Type"] == "text/plain; charset=utf-8"
    ensures "X-Content-Type-Options" in y.response.header && y.response.header["X-Content-Type-Options"] == "nosniff"
    ensures y.response.cookies == x.response.cookies
    ensures forall k :: k != "Content-Type" && k != "X-Content-Type-Options" ==>
              (k in y.response.header <==> k in x.response.header) && (k in x.response.header ==> y.response.header[k] == x.response.header[k])
  {
    var header := x.response.header["Content-Type" := "text/plain; charset=utf-8"]["X-Content-Type-Options" := "nosniff"];
    x.(response := x.response.(status := code, body := x.response.body + msg + "\n", header := header))
  }

  /** `http.SetCookie(w, &c)`. */
  function SetCookie(x: Exchange, c: Cookie): (y: Exchange)
    ensures y.response.cookies == x.response.cookies + [c]
    ensures y.request == x.request && y.state == x.state && y.panicked == x.panicked
    ensures y.response.status == x.response.status && y.response.body == x.response.body
    ensures y.response.header == x.response.header
  {
    x.(response := x.response.(cookies := x.response.cookies + [c]))
  }
}
