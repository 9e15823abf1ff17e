/** `Router`: an exact-match table from method and path to a handler, a
    405 for a path registered only under other methods, then the default
    handler, then 404. Handlers are named by values of a type parameter; what
    a handler does is up to the caller, and an exception it throws is an
    `Outcome` that the router turns into a 500. */
module Router {
  import opened Wrappers
  import Bytes
  import Status
  import Methods
  import HttpResponse
  import ResponseBuilder

  datatype Router<H> = Router(routes: map<Methods.HttpMethod, map<string, H>>, defaultHandler: Option<H>)

  /** Every method has a route map, as the constructor sets up. */
  predicate Valid<H>(r: Router<H>) {
    forall m: Methods.HttpMethod :: m in r.routes
  }

  /** `new Router()`: an empty route map for every method, no default. */
  function New<H>(): (r: Router<H>)
    ensures Valid(r)
    ensures forall m: Methods.HttpMethod :: r.routes[m] == map[]
    ensures r.defaultHandler.None?
  {
    assert forall m: Methods.HttpMethod :: m in Methods.AllMethods by {
      forall m: Methods.HttpMethod
        ensures m in Methods.AllMethods
      {
        Methods.AllMethodsComplete(m);
      }
    }
    Router(map m: Methods.HttpMethod | m in Methods.AllMethods :: map[], None)
  }

  /** The registration behind `get`, `post`, `put` and `delete`: the path
      maps to the handler under that method, replacing an earlier one. */
  function Add<H>(r: Router<H>, m: Methods.HttpMethod, path: string, h: H): (r': Router<H>)
    requires Valid(r)
    ensures Valid(r')
    ensures r'.routes[m] == r.routes[m][path := h]
    ensures forall other: Methods.HttpMethod :: other != m ==> r'.routes[other] == r.routes[other]
    ensures r'.defaultHandler == r.defaultHandler
  {
    r.(routes := r.routes[m := r.routes[m][path := h]])
  }

  function Get<H>(r: Router<H>, path: string, h: H): (r': Router<H>)
    requires Valid(r)
    ensures Valid(r') && r' == Add(r, Methods.Get, path, h)
  {
    Add(r, Methods.Get, path, h)
  }

  function Post<H>(r: Router<H>, path: string, h: H): (r': Router<H>)
    requires Valid(r)
    ensures Valid(r') && r' == Add(r, Methods.Post, path, h)
  {
    Add(r, Methods.Post, path, h)
  }

  function Put<H>(r: Router<H>, path: string, h: H): (r': Router<H>)
    requires Valid(r)
    ensures Valid(r') && r' == Add(r, Methods.Put, path, h)
  {
    Add(r, Methods.Put, path, h)
  }

  function Delete<H>(r: Router<H>, path: string, h: H): (r': Router<H>)
    requires Valid(r)
    ensures Valid(r') && r' == Add(r, Methods.Delete, path, h)
  {
    Add(r, Methods.Delete, path, h)
  }

  /** `setDefaultHandler`: the table is untouched. */
  function SetDefault<H>(r: Router<H>, h: H): (r': Router<H>)
    ensures r'.routes == r.routes && r'.defaultHandler == Some(h)
  {
    r.(defaultHandler := Some(h))
  }

  // ---------------------------------------------------------------------------
  // Routing
  // ---------------------------------------------------------------------------

  /** Where a request goes: a handler, a 405, or a 404. */
  datatype Dispatch<H> = Call(handler: H) | NotAllowed | NoRoute

  /** The 405 scan: some method of `ms` other than `verb` has the path. */
  function RegisteredElsewhere<H>(r: Router<H>, verb: Methods.HttpMethod, path: string, ms: seq<Methods.HttpMethod>): (b: bool)
    requires Valid(r)
    ensures b <==> exists i :: 0 <= i < |ms| && ms[i] != verb && path in r.routes[ms[i]]
  {
    if |ms| == 0 then false
    else (ms[0] != verb && path in r.routes[ms[0]]) || RegisteredElsewhere(r, verb, path, ms[1..])
  }

  /** The scan over every method finds any other method with the path. */
  lemma RegisteredElsewhereIff<H>(r: Router<H>, verb: Methods.HttpMethod, path: string)
    requires Valid(r)
    ensures RegisteredElsewhere(r, verb, path, Methods.AllMethods) <==>
      exists m: Methods.HttpMethod :: m != verb && path in r.routes[m]
  {
    if exists m: Methods.HttpMethod :: m != verb && path in r.routes[m] {
      var m: Methods.HttpMethod :| m != verb && path in r.routes[m];
      Methods.AllMethodsComplete(m);
    }
  }

  /** `route`, without running the handler: the exact match, else 405 when
      another method has the path, else the default handler, else 404. */
  function Route<H>(r: Router<H>, verb: Methods.HttpMethod, path: string): (d: Dispatch<H>)
    requires Valid(r)
    ensures path in r.routes[verb] ==> d == Call(r.routes[verb][path])
    ensures d == NotAllowed <==>
      path !in r.routes[verb] && exists m: Methods.HttpMethod :: m != verb && path in r.routes[m]
    ensures d == NoRoute <==>
      r.defaultHandler.None? && forall m: Methods.HttpMethod :: path !in r.routes[m]
    ensures d.Call? && path !in r.routes[verb] ==> r.defaultHandler == Some(d.handler)
  {
    RegisteredElsewhereIff(r, verb, path);
    if path in r.routes[verb] then Call(r.routes[verb][path])
    else if RegisteredElsewhere(r, verb, path, Methods.AllMethods) then NotAllowed
    else match r.defaultHandler
      case Some(h) => Call(h)
      case None => NoRoute
  }

  /** What running a handler gives: its response, or the message of the
      exception it threw (which may be null). */
  datatype Outcome = Returned(response: HttpResponse.Response) | Threw(message: Option<string>)

  /** The `catch` around a handler call: an exception becomes a 500 whose
      JSON message is the exception's message. */
  function Complete(o: Outcome, date: string): (r: HttpResponse.Response)
    ensures o.Returned? ==> r == o.response
    ensures o.Threw? ==> r.status == Status.InternalServerError
    ensures o.Threw? ==> r.body == Some(Bytes.Encode(ResponseBuilder.ErrorJson(500, o.message)))
  {
    match o
    case Returned(response) => response
    case Threw(message) => ResponseBuilder.InternalServerErrorMessage(date, message)
  }

  /** The response for a dispatch that calls no handler. */
  function Refuse<H>(d: Dispatch<H>, date: string): (r: HttpResponse.Response)
    requires !d.Call?
    ensures d == NotAllowed ==> r.status == Status.MethodNotAllowed
    ensures d == NoRoute ==> r.status == Status.NotFound
  {
    if d == NotAllowed then ResponseBuilder.MethodNotAllowed(date) else ResponseBuilder.NotFound(date)
  }

  // ---------------------------------------------------------------------------
  // Properties
  // ---------------------------------------------------------------------------

  /** A route just registered is the one a request for it reaches; a second
      registration of the same method and path replaces the first. */
  lemma AddThenRoute<H>(r: Router<H>, m: Methods.HttpMethod, path: string, h: H, h': H)
    requires Valid(r)
    ensures Route(Add(r, m, path, h), m, path) == Call(h)
    ensures Route(Add(Add(r, m, path, h), m, path, h'), m, path) == Call(h')
  {
  }

  /** The 405 scan sees only which methods have the path. */
  lemma {:induction false} RegisteredElsewhereSame<H>(r: Router<H>, r': Router<H>, verb: Methods.HttpMethod,
                                                      path: string, ms: seq<Methods.HttpMethod>)
    requires Valid(r) && Valid(r')
    requires forall x: Methods.HttpMethod :: path in r.routes[x] <==> path in r'.routes[x]
    ensures RegisteredElsewhere(r, verb, path, ms) == RegisteredElsewhere(r', verb, path, ms)
    decreases |ms|
  {
    if |ms| > 0 {
      RegisteredElsewhereSame(r, r', verb, path, ms[1..]);
    }
  }

  /** Registering one method and path changes nothing for a different
      method with a path that is not the registered one. */
  lemma AddLeavesOthers<H>(r: Router<H>, m: Methods.HttpMethod, path: string, h: H, verb: Methods.HttpMethod, other: string)
    requires Valid(r) && other != path
    ensures Route(Add(r, m, path, h), verb, other) == Route(r, verb, other)
  {
    var r' := Add(r, m, path, h);
    forall x: Methods.HttpMethod
      ensures other in r.routes[x] <==> other in r'.routes[x]
      ensures other in r.routes[x] ==> r'.routes[x][other] == r.routes[x][other]
    {
      if x == m {
        assert r'.routes[x] == r.routes[x][path := h];
      }
    }
    RegisteredElsewhereSame(r, r', verb, other, Methods.AllMethods);
  }

  /** A path registered under one method only reaches its handler under
      that method and is refused with 405 under any other. */
  lemma OnlyUnder<H>(r: Router<H>, m: Methods.HttpMethod, verb: Methods.HttpMethod, path: string)
    requires Valid(r) && path in r.routes[m]
    requires forall x: Methods.HttpMethod :: x != m ==> path !in r.routes[x]
    ensures Route(r, verb, path) == if verb == m then Call(r.routes[m][path]) else NotAllowed
  {
  }

  /** A path no method has goes to the default handler, or to 404. */
  lemma Unregistered<H>(r: Router<H>, verb: Methods.HttpMethod, path: string)
    requires Valid(r)
    requires forall x: Methods.HttpMethod :: path !in r.routes[x]
    ensures Route(r, verb, path) == if r.defaultHandler.Some? then Call(r.defaultHandler.value) else NoRoute
  {
  }

  /** The default handler never shadows a table entry and never answers a
      path the table has under another method. */
  lemma DefaultOnlyAsFallback<H>(r: Router<H>, h: H, verb: Methods.HttpMethod, path: string)
    requires Valid(r)
    requires path in r.routes[verb] || exists m: Methods.HttpMethod :: path in r.routes[m]
    ensures Route(SetDefault(r, h), verb, path) == Route(r, verb, path)
  {
  }

  /** A fresh router sends every request to 404, and with only a default
      handler every request goes to it. */
  lemma EmptyRouter<H>(verb: Methods.HttpMethod, path: string, h: H)
    ensures Route(New<H>(), verb, path) == NoRoute
    ensures Route(SetDefault(New<H>(), h), verb, path) == Call(h)
  {
  }
}
