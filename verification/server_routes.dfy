/** `HttpServer.configureRoutes`: the concrete route table of the server and
    what each of its handlers does. The world a request can change is the
    user registry; the static files, the date codec, the current date text,
    the login token and the port are inputs. */
module ServerRoutes {
  import opened Wrappers
  import Bytes
  import Numbers
  import Status
  import Methods
  import HttpRequest
  import HttpResponse
  import ResponseBuilder
  import UserStore
  import RegisterHandler
  import LoginHandler
  import StaticFiles
  import Router

  const RedirectTarget: string := "/index.html"
  const ErrorDemoMessage: string := "This is a test error for 500 status code"

  /** The inputs a request sees besides the registry. */
  datatype Environment = Environment(
    date: string, port: int, token: string, files: StaticFiles.FileSystem, codec: StaticFiles.DateCodec)

  /** A registered handler: the request, the environment and the registry
      in; what it returned or threw, and the registry afterwards, out. */
  type Handler = (HttpRequest.Request, Environment, UserStore.Store) -> (Router.Outcome, UserStore.Store)

  /** `new RegisterHandler()`: the only handler that writes the registry. */
  function Registration(req: HttpRequest.Request, env: Environment, users: UserStore.Store): (Router.Outcome, UserStore.Store) {
    var p := RegisterHandler.Handle(req, env.date, users); (Router.Returned(p.0), p.1)
  }

  /** `new LoginHandler()`. */
  function SignIn(req: HttpRequest.Request, env: Environment, users: UserStore.Store): (Router.Outcome, UserStore.Store) {
    (Router.Returned(LoginHandler.Handle(req, env.date, users, env.token)), users)
  }

  /** The `/old-page` lambda: a permanent redirect to the index page. */
  function OldPage(req: HttpRequest.Request, env: Environment, users: UserStore.Store): (Router.Outcome, UserStore.Store) {
    (Router.Returned(ResponseBuilder.MovedPermanently(env.date, RedirectTarget)), users)
  }

  /** The `/temp-redirect` lambda: a temporary redirect to the index page. */
  function TempRedirect(req: HttpRequest.Request, env: Environment, users: UserStore.Store): (Router.Outcome, UserStore.Store) {
    (Router.Returned(ResponseBuilder.Found(env.date, RedirectTarget)), users)
  }

  /** The `/api/status` lambda: the server's state and port as JSON. */
  function ServerStatus(req: HttpRequest.Request, env: Environment, users: UserStore.Store): (Router.Outcome, UserStore.Store) {
    (Router.Returned(ResponseBuilder.JsonPage(env.date, StatusJson(env.port))), users)
  }

  /** The `/api/error` lambda: it throws. */
  function ErrorDemo(req: HttpRequest.Request, env: Environment, users: UserStore.Store): (Router.Outcome, UserStore.Store) {
    (Router.Threw(Some(ErrorDemoMessage)), users)
  }

  /** The default handler, `new StaticFileHandler(...)`. */
  function StaticFile(req: HttpRequest.Request, env: Environment, users: UserStore.Store): (Router.Outcome, UserStore.Store) {
    (Router.Returned(StaticFiles.Handle(req, env.date, env.files, env.codec)), users)
  }

  /** The seven handlers `configureRoutes` registers, in its order, the
      last one being the default. The table's routing does not depend on
      what the handlers are, so it is stated for any handler values. */
  datatype Handlers<H> = Handlers(register: H, login: H, oldPage: H, tempRedirect: H, status: H, error: H, files: H)

  /** The handlers the server installs. */
  const Configured: Handlers<Handler> :=
    Handlers(Registration, SignIn, OldPage, TempRedirect, ServerStatus, ErrorDemo, StaticFile)

  /** The paths the table has under POST and under GET. */
  function PostRoutes<H>(hs: Handlers<H>): map<string, H> {
    map["/api/register" := hs.register, "/api/login" := hs.login]
  }
  function GetRoutes<H>(hs: Handlers<H>): map<string, H> {
    map["/old-page" := hs.oldPage, "/temp-redirect" := hs.tempRedirect, "/api/status" := hs.status, "/api/error" := hs.error]
  }

  /** The table `configureRoutes` builds, in its order. */
  function TableOf<H>(hs: Handlers<H>): (r: Router.Router<H>)
    ensures Router.Valid(r)
    ensures r.defaultHandler == Some(hs.files)
    ensures r.routes[Methods.Post] == PostRoutes(hs)
    ensures r.routes[Methods.Get] == GetRoutes(hs)
    ensures forall m: Methods.HttpMethod :: m != Methods.Get && m != Methods.Post ==> r.routes[m] == map[]
  {
    var r := Router.New<H>();
    var r := Router.Post(r, "/api/register", hs.register);
    var r := Router.Post(r, "/api/login", hs.login);
    var r := Router.Get(r, "/old-page", hs.oldPage);
    var r := Router.Get(r, "/temp-redirect", hs.tempRedirect);
    var r := Router.Get(r, "/api/status", hs.status);
    var r := Router.Get(r, "/api/error", hs.error);
    Router.SetDefault(r, hs.files)
  }

  /** The server's table. */
  function Table(): Router.Router<Handler> {
    TableOf(Configured)
  }

  /** The body of `GET /api/status`. */
  function StatusJson(port: int): string {
    "{\"status\":\"running\",\"port\":" + Numbers.IntToString(port) + "}"
  }

  /** What `route` does once the dispatch is known: the handler with its
      exception turned into a 500, or the refusal, which leaves the registry
      alone. */
  function Respond(d: Router.Dispatch<Handler>, req: HttpRequest.Request, env: Environment, users: UserStore.Store)
    : (r: (HttpResponse.Response, UserStore.Store))
    ensures d == Router.NotAllowed ==> r.0.status == Status.MethodNotAllowed
    ensures d == Router.NoRoute ==> r.0.status == Status.NotFound
    ensures !d.Call? ==> r.1 == users
    ensures d.Call? ==> r.1 == d.handler(req, env, users).1
  {
    if d.Call? then
      var p := d.handler(req, env, users);
      (Router.Complete(p.0, env.date), p.1)
    else
      (Router.Refuse(d, env.date), users)
  }

  /** `router.route(request)` over the configured table; a path under
      another method is refused with 405. */
  function Serve(req: HttpRequest.Request, env: Environment, users: UserStore.Store): (r: (HttpResponse.Response, UserStore.Store))
    ensures Router.Route(Table(), req.verb, req.path) == Router.NotAllowed ==>
      r.0.status == Status.MethodNotAllowed && r.1 == users
  {
    Respond(Router.Route(Table(), req.verb, req.path), req, env, users)
  }

  // ---------------------------------------------------------------------------
  // The table's behaviour
  // ---------------------------------------------------------------------------

  /** Where the table sends a request, written out: a path of the table
      under its own method reaches its handler and under any other method is
      refused with 405; every other path reaches the default handler. */
  function DispatchOf<H>(hs: Handlers<H>, verb: Methods.HttpMethod, path: string): Router.Dispatch<H> {
    if path in PostRoutes(hs) then (if verb == Methods.Post then Router.Call(PostRoutes(hs)[path]) else Router.NotAllowed)
    else if path in GetRoutes(hs) then (if verb == Methods.Get then Router.Call(GetRoutes(hs)[path]) else Router.NotAllowed)
    else Router.Call(hs.files)
  }

  /** The same for the server's own handlers. */
  function Dispatch(verb: Methods.HttpMethod, path: string): Router.Dispatch<Handler> {
    DispatchOf(Configured, verb, path)
  }

  /** Routing over the configured table, whatever its handlers, is the
      dispatch above. */
  lemma RouteIsDispatchOf<H>(hs: Handlers<H>, verb: Methods.HttpMethod, path: string)
    ensures Router.Route(TableOf(hs), verb, path) == DispatchOf(hs, verb, path)
  {
    if path in PostRoutes(hs) {
      RouteOnlyUnder(hs, verb, path, Methods.Post);
    } else if path in GetRoutes(hs) {
      RouteOnlyUnder(hs, verb, path, Methods.Get);
    } else {
      RouteElsewhere(hs, verb, path);
    }
  }

  /** The server's routing is the dispatch above. */
  lemma RouteIsDispatch(verb: Methods.HttpMethod, path: string)
    ensures Router.Route(Table(), verb, path) == Dispatch(verb, path)
  {
    RouteIsDispatchOf(Configured, verb, path);
  }

  /** A path of the table's POST or GET map is under no other method. */
  lemma RouteOnlyUnder<H>(hs: Handlers<H>, verb: Methods.HttpMethod, path: string, m: Methods.HttpMethod)
    requires m == Methods.Post || m == Methods.Get
    requires path in (if m == Methods.Post then PostRoutes(hs) else GetRoutes(hs))
    ensures Router.Route(TableOf(hs), verb, path) == DispatchOf(hs, verb, path)
  {
    var t := TableOf(hs);
    var own := if m == Methods.Post then PostRoutes(hs) else GetRoutes(hs);
    OnlyOneMethod(hs, path, m);
    Router.OnlyUnder(t, m, verb, path);
    assert DispatchOf(hs, verb, path) == if verb == m then Router.Call(own[path]) else Router.NotAllowed;
  }

  /** No path of the table is under two methods. */
  lemma OnlyOneMethod<H>(hs: Handlers<H>, path: string, m: Methods.HttpMethod)
    requires m == Methods.Post || m == Methods.Get
    requires path in (if m == Methods.Post then PostRoutes(hs) else GetRoutes(hs))
    ensures forall x: Methods.HttpMethod :: x != m ==> path !in TableOf(hs).routes[x]
  {
    var t := TableOf(hs);
    assert path in PostRoutes(hs) ==> path !in GetRoutes(hs);
    forall x: Methods.HttpMethod | x != m
      ensures path !in t.routes[x]
    {
      if x == Methods.Get {
        assert t.routes[x] == GetRoutes(hs);
      } else if x == Methods.Post {
        assert t.routes[x] == PostRoutes(hs);
      } else {
        assert t.routes[x] == map[];
      }
    }
  }

  /** A path outside both maps is under no method at all. */
  lemma RouteElsewhere<H>(hs: Handlers<H>, verb: Methods.HttpMethod, path: string)
    requires path !in PostRoutes(hs) && path !in GetRoutes(hs)
    ensures Router.Route(TableOf(hs), verb, path) == DispatchOf(hs, verb, path)
  {
    var t := TableOf(hs);
    forall x: Methods.HttpMethod
      ensures path !in t.routes[x]
    {
      if x != Methods.Get && x != Methods.Post {
        assert t.routes[x] == map[];
      }
    }
    Router.Unregistered(t, verb, path);
  }

  /** A request the table sends to a handler is answered by that handler. */
  lemma Reaches(req: HttpRequest.Request, env: Environment, users: UserStore.Store, h: Handler)
    requires Dispatch(req.verb, req.path) == Router.Call(h)
    ensures Serve(req, env, users) == Respond(Router.Call(h), req, env, users)
  {
    RouteIsDispatch(req.verb, req.path);
  }

  /** The two API paths of the table are refused under every method but
      POST, whatever the handlers. */
  lemma PostOnly<H>(hs: Handlers<H>, verb: Methods.HttpMethod, path: string)
    requires path in {"/api/register", "/api/login"} && verb != Methods.Post
    ensures Router.Route(TableOf(hs), verb, path) == Router.NotAllowed
  {
    assert path in PostRoutes(hs);
    RouteIsDispatchOf(hs, verb, path);
  }

  /** The four demo paths of the table are refused under every method but
      GET, whatever the handlers. */
  lemma GetOnly<H>(hs: Handlers<H>, verb: Methods.HttpMethod, path: string)
    requires path in {"/old-page", "/temp-redirect", "/api/status", "/api/error"} && verb != Methods.Get
    ensures Router.Route(TableOf(hs), verb, path) == Router.NotAllowed
  {
    assert path in GetRoutes(hs) && path !in PostRoutes(hs);
    RouteIsDispatchOf(hs, verb, path);
  }

  /** The two API posts are reachable only by POST: any other method on
      those paths is refused with 405, and the registry is untouched. */
  lemma ApiOnlyByPost(req: HttpRequest.Request, env: Environment, users: UserStore.Store)
    requires req.path in {"/api/register", "/api/login"} && req.verb != Methods.Post
    ensures Router.Route(Table(), req.verb, req.path) == Router.NotAllowed
    ensures Serve(req, env, users).0.status == Status.MethodNotAllowed
    ensures Serve(req, env, users).1 == users
  {
    PostOnly(Configured, req.verb, req.path);
  }

  /** The GET-only demo paths are refused with 405 under any other method. */
  lemma DemoOnlyByGet(verb: Methods.HttpMethod, path: string)
    requires path in {"/old-page", "/temp-redirect", "/api/status", "/api/error"} && verb != Methods.Get
    ensures Router.Route(Table(), verb, path) == Router.NotAllowed
  {
    GetOnly(Configured, verb, path);
  }

  /** Where the table sends each path of its own, under its own method. */
  lemma Targets<H>(hs: Handlers<H>)
    ensures DispatchOf(hs, Methods.Post, "/api/register") == Router.Call(hs.register)
    ensures DispatchOf(hs, Methods.Post, "/api/login") == Router.Call(hs.login)
    ensures DispatchOf(hs, Methods.Get, "/old-page") == Router.Call(hs.oldPage)
    ensures DispatchOf(hs, Methods.Get, "/temp-redirect") == Router.Call(hs.tempRedirect)
    ensures DispatchOf(hs, Methods.Get, "/api/status") == Router.Call(hs.status)
    ensures DispatchOf(hs, Methods.Get, "/api/error") == Router.Call(hs.error)
  {
    assert "/old-page" !in PostRoutes(hs) && "/temp-redirect" !in PostRoutes(hs);
    assert "/api/status" !in PostRoutes(hs) && "/api/error" !in PostRoutes(hs);
  }

  /** `/old-page` sends the client to the index page permanently. */
  lemma OldPageRedirects(req: HttpRequest.Request, env: Environment, users: UserStore.Store)
    requires req.verb == Methods.Get && req.path == "/old-page"
    ensures Serve(req, env, users).0.status == Status.MovedPermanently
    ensures HttpResponse.GetHeader(Serve(req, env, users).0, "Location") == Some(RedirectTarget)
  {
    Targets(Configured);
    Reaches(req, env, users, OldPage);
  }

  /** `/temp-redirect` sends the client to the index page temporarily. */
  lemma TempRedirectFound(req: HttpRequest.Request, env: Environment, users: UserStore.Store)
    requires req.verb == Methods.Get && req.path == "/temp-redirect"
    ensures Serve(req, env, users).0.status == Status.Found
    ensures HttpResponse.GetHeader(Serve(req, env, users).0, "Location") == Some(RedirectTarget)
  {
    Targets(Configured);
    Reaches(req, env, users, TempRedirect);
  }

  /** The status endpoint answers 200 with the port in its JSON. */
  lemma StatusEndpoint(req: HttpRequest.Request, env: Environment, users: UserStore.Store)
    requires req.verb == Methods.Get && req.path == "/api/status"
    ensures Serve(req, env, users).0.status == Status.Ok
    ensures Serve(req, env, users).0.body == Some(Bytes.Encode(StatusJson(env.port)))
  {
    Targets(Configured);
    Reaches(req, env, users, ServerStatus);
  }

  /** The error demo's exception reaches the client as a 500 carrying its
      message. */
  lemma ErrorEndpoint(req: HttpRequest.Request, env: Environment, users: UserStore.Store)
    requires req.verb == Methods.Get && req.path == "/api/error"
    ensures Serve(req, env, users).0.status == Status.InternalServerError
    ensures Serve(req, env, users).0.body ==
      Some(Bytes.Encode(ResponseBuilder.ErrorJson(500, Some(ErrorDemoMessage))))
  {
    Targets(Configured);
    Reaches(req, env, users, ErrorDemo);
  }

  /** Every path outside the table, under any method, goes to the static
      file handler, which refuses anything but GET itself. */
  lemma OtherPathsAreStatic(req: HttpRequest.Request, env: Environment, users: UserStore.Store)
    requires req.path !in {"/api/register", "/api/login", "/old-page", "/temp-redirect", "/api/status", "/api/error"}
    ensures Router.Route(Table(), req.verb, req.path) == Router.Call(StaticFile)
    ensures Serve(req, env, users) == (StaticFiles.Handle(req, env.date, env.files, env.codec), users)
  {
    RoutesToStatic(req.verb, req.path);
    ServeStatic(req, env, users);
  }

  /** A path outside the table reaches the default handler under any method. */
  lemma RoutesToStatic(verb: Methods.HttpMethod, path: string)
    requires path !in {"/api/register", "/api/login", "/old-page", "/temp-redirect", "/api/status", "/api/error"}
    ensures Router.Route(Table(), verb, path) == Router.Call(StaticFile)
  {
    RoutesToDefault(Configured, verb, path);
  }

  /** The same for any handlers: the table's six paths are the only ones
      routed elsewhere. */
  lemma RoutesToDefault<H>(hs: Handlers<H>, verb: Methods.HttpMethod, path: string)
    requires path !in {"/api/register", "/api/login", "/old-page", "/temp-redirect", "/api/status", "/api/error"}
    ensures Router.Route(TableOf(hs), verb, path) == Router.Call(hs.files)
  {
    assert path !in PostRoutes(hs) && path !in GetRoutes(hs);
    RouteIsDispatchOf(hs, verb, path);
  }

  /** A request routed to the default handler gets its response and leaves
      the registry alone. */
  lemma ServeStatic(req: HttpRequest.Request, env: Environment, users: UserStore.Store)
    requires Router.Route(Table(), req.verb, req.path) == Router.Call(StaticFile)
    ensures Serve(req, env, users) == (StaticFiles.Handle(req, env.date, env.files, env.codec), users)
  {
  }

  /** Only a registration changes the registry: every other request, served
      or refused, leaves it as it was. */
  lemma OnlyRegistrationWrites(req: HttpRequest.Request, env: Environment, users: UserStore.Store)
    ensures Router.Route(Table(), req.verb, req.path) != Router.Call(Registration) ==> Serve(req, env, users).1 == users
  {
    RouteIsDispatch(req.verb, req.path);
    var d := Router.Route(Table(), req.verb, req.path);
    assert Serve(req, env, users) == Respond(d, req, env, users);
    if d.Call? && d.handler != Registration {
      DispatchedHandler(Configured, req.verb, req.path);
      KeepsRegistry(d.handler, req, env, users);
    }
  }

  /** One of the seven handlers. */
  ghost predicate Among<H>(hs: Handlers<H>, h: H) {
    h == hs.register || h == hs.login || h == hs.oldPage || h == hs.tempRedirect
    || h == hs.status || h == hs.error || h == hs.files
  }

  /** The handlers of the server's table and its default. */
  ghost predicate IsTableHandler(h: Handler) {
    Among(Configured, h)
  }

  /** The table only ever dispatches to its own handlers. */
  lemma DispatchedHandler<H>(hs: Handlers<H>, verb: Methods.HttpMethod, path: string)
    ensures DispatchOf(hs, verb, path).Call? ==> Among(hs, DispatchOf(hs, verb, path).handler)
  {
    if path in PostRoutes(hs) {
      assert path == "/api/register" || path == "/api/login";
    } else if path in GetRoutes(hs) {
      assert path == "/old-page" || path == "/temp-redirect" || path == "/api/status" || path == "/api/error";
    }
  }

  /** Every handler but the registration's returns the registry unchanged. */
  lemma KeepsRegistry(h: Handler, req: HttpRequest.Request, env: Environment, users: UserStore.Store)
    requires IsTableHandler(h) && h != Registration
    ensures h(req, env, users).1 == users
  {
    if h == SignIn || h == StaticFile {
      KeepsRegistryServing(h, req, env, users);
    } else {
      KeepsRegistryDemo(h, req, env, users);
    }
  }

  lemma KeepsRegistryServing(h: Handler, req: HttpRequest.Request, env: Environment, users: UserStore.Store)
    requires h == SignIn || h == StaticFile
    ensures h(req, env, users).1 == users
  {
  }

  lemma KeepsRegistryDemo(h: Handler, req: HttpRequest.Request, env: Environment, users: UserStore.Store)
    requires h == OldPage || h == TempRedirect || h == ServerStatus || h == ErrorDemo
    ensures h(req, env, users).1 == users
  {
    if h == OldPage || h == TempRedirect {
      KeepsRegistryRedirects(h, req, env, users);
    } else {
      KeepsRegistryApi(h, req, env, users);
    }
  }

  lemma KeepsRegistryRedirects(h: Handler, req: HttpRequest.Request, env: Environment, users: UserStore.Store)
    requires h == OldPage || h == TempRedirect
    ensures h(req, env, users).1 == users
  {
  }

  lemma KeepsRegistryApi(h: Handler, req: HttpRequest.Request, env: Environment, users: UserStore.Store)
    requires h == ServerStatus || h == ErrorDemo
    ensures h(req, env, users).1 == users
  {
  }
}
