/** The client's connection engine (`HttpClient`): one kept-alive connection
    reused while the host and port stay the same, a cache of Last-Modified
    dates keyed by the exact URL text that turns a GET into a conditional
    GET, and redirects followed up to a fixed depth.

    The network is the parameter `net`: the bytes a server at a host and
    port answers to the bytes of one request. They are appended to what the
    connection had read but not yet parsed, and the response is parsed from
    the front of that. What the client does to the outside world is the
    list of events it returns. */
module Client {
  import opened Wrappers
  import opened Bytes
  import Text
  import Headers
  import Methods
  import Url
  import RequestBuilder
  import ResponseParser

  /** The defaults: a 30 second socket timeout and at most 10 redirects. */
  const DefaultTimeout: nat := 30000
  const MaxRedirects: int := 10

  /** The socket: none, or one open to a host and port, with the bytes read
      from it but not yet parsed. */
  datatype Connection = Closed | Open(host: string, port: int, pending: seq<byte>)

  /** What the cache keeps per URL: the Last-Modified value and the body as
      text (null without a body). */
  datatype CacheEntry = CacheEntry(lastModified: string, content: Option<string>)

  datatype Client = Client(
    maxRedirects: int,
    followRedirects: bool,
    cache: map<string, CacheEntry>,
    conn: Connection)

  /** What the client does to the network. */
  datatype Event = Connect(host: string, port: int) | Disconnect | Send(bytes: seq<byte>)

  type Network = (string, int, seq<byte>) -> seq<byte>

  /** The IOExceptions `request` throws. */
  datatype Failure =
    | TooManyRedirects
    | InvalidUrl(url: string)
    | BadResponse(error: ResponseParser.ParseError)

  /** The result of a call, the client afterwards, and what it did. */
  datatype Reply = Reply(result: Result<ResponseParser.Response, Failure>, client: Client, events: seq<Event>)

  /** `new HttpClient()`: at most 10 redirects, following them, an empty
      cache and no connection. */
  function New(): (c: Client)
    ensures c.maxRedirects == MaxRedirects && c.followRedirects
    ensures c.cache == map[] && c.conn == Closed
  {
    Client(MaxRedirects, true, map[], Closed)
  }

  function SetFollowRedirects(c: Client, follow: bool): Client {
    c.(followRedirects := follow)
  }

  function SetMaxRedirects(c: Client, max: int): Client {
    c.(maxRedirects := max)
  }

  /** How many requests the events send. */
  function SendCount(events: seq<Event>): (n: nat)
    ensures n <= |events|
  {
    if |events| == 0 then 0
    else (if events[0].Send? then 1 else 0) + SendCount(events[1..])
  }

  lemma {:induction false} SendCountAppend(a: seq<Event>, b: seq<Event>)
    ensures SendCount(a + b) == SendCount(a) + SendCount(b)
    decreases |a|
  {
    if |a| > 0 {
      assert (a + b)[1..] == a[1..] + b;
      SendCountAppend(a[1..], b);
    } else {
      assert a + b == b;
    }
  }

  // ---------------------------------------------------------------------------
  // The connection
  // ---------------------------------------------------------------------------

  /** `closeConnection`: the socket is closed if one is open, and the
      client forgets it either way. Nothing else changes. */
  function CloseConnection(c: Client): (r: (Client, seq<Event>))
    ensures r.0.conn == Closed && r.0.(conn := c.conn) == c
    ensures r.1 == (if c.conn.Open? then [Disconnect] else [])
    ensures SendCount(r.1) == 0
  {
    (c.(conn := Closed), if c.conn.Open? then [Disconnect] else [])
  }

  /** Whether the open socket can serve a request to `host:port`. */
  predicate Reusable(conn: Connection, host: string, port: int) {
    conn.Open? && conn.host == host && conn.port == port
  }

  /** `ensureConnection`: the open socket is kept exactly when it goes to
      the same host and port; otherwise the old one is closed first and a
      new one, with nothing read yet, is opened. */
  function EnsureConnection(c: Client, host: string, port: int): (r: (Client, seq<Event>))
    ensures Reusable(r.0.conn, host, port) && r.0.(conn := c.conn) == c
    ensures r.1 == [] <==> Reusable(c.conn, host, port)
    ensures Reusable(c.conn, host, port) ==> r.0 == c
    ensures !Reusable(c.conn, host, port) ==>
      && r.1 == (if c.conn.Open? then [Disconnect] else []) + [Connect(host, port)]
      && r.0.conn.pending == []
    ensures SendCount(r.1) == 0
  {
    if Reusable(c.conn, host, port) then (c, [])
    else
      var (closed, events) := CloseConnection(c);
      SendCountAppend(events, [Connect(host, port)]);
      (closed.(conn := Open(host, port, [])), events + [Connect(host, port)])
  }

  /** `clearCache`. */
  function ClearCache(c: Client): (r: Client)
    ensures r.cache == map[] && r.(cache := c.cache) == c
  {
    c.(cache := map[])
  }

  /** `close`: the connection closed and the cache cleared. */
  function Close(c: Client): (r: (Client, seq<Event>))
    ensures r.0.conn == Closed && r.0.cache == map[]
    ensures r.0.maxRedirects == c.maxRedirects && r.0.followRedirects == c.followRedirects
    ensures r.1 == (if c.conn.Open? then [Disconnect] else [])
  {
    var (closed, events) := CloseConnection(c);
    (ClearCache(closed), events)
  }

  // ---------------------------------------------------------------------------
  // One exchange
  // ---------------------------------------------------------------------------

  const IfModifiedSince: string := "If-Modified-Since"

  /** The caller's headers, with If-Modified-Since set to the cached date
      for a GET of a URL the cache holds. */
  function ConditionalHeaders(c: Client, verb: Methods.HttpMethod, url: string, headers: Headers.Fields): (h: Headers.Fields)
    ensures verb == Methods.Get && url in c.cache ==>
      Headers.Get(h, IfModifiedSince) == Some(c.cache[url].lastModified)
    ensures forall name :: name != IfModifiedSince ==> Headers.Get(h, name) == Headers.Get(headers, name)
    ensures !(verb == Methods.Get && url in c.cache) ==> h == headers
    ensures Headers.UniqueNames(headers) ==> Headers.UniqueNames(h)
  {
    if verb == Methods.Get && url in c.cache then
      var lm := c.cache[url].lastModified;
      Headers.GetPutSame(headers, IfModifiedSince, lm);
      forall name | name != IfModifiedSince
        ensures Headers.Get(Headers.Put(headers, IfModifiedSince, lm), name) == Headers.Get(headers, name)
      {
        Headers.GetPutOther(headers, IfModifiedSince, lm, name);
      }
      assert Headers.UniqueNames(headers) ==> Headers.UniqueNames(Headers.Put(headers, IfModifiedSince, lm)) by {
        if Headers.UniqueNames(headers) {
          Headers.PutUnique(headers, IfModifiedSince, lm);
        }
      }
      Headers.Put(headers, IfModifiedSince, lm)
    else headers
  }

  /** The builder `request` fills: method, host, port and path from the
      target, each header put in order, and the body when there is one. */
  function RequestFor(verb: Methods.HttpMethod, t: Url.Target, headers: Headers.Fields, body: Option<string>): (b: RequestBuilder.Builder)
    ensures b.verb == verb && b.host == Some(t.host) && b.port == t.port && b.path == t.uri
    ensures b.query == [] && b.body == body
    ensures Headers.UniqueNames(headers) ==>
      forall name :: name in Headers.Names(headers) ==> Headers.Get(b.headers, name) == Headers.Get(headers, name)
  {
    var b := RequestBuilder.New();
    var b := RequestBuilder.WithMethod(b, verb);
    var b := RequestBuilder.WithHost(b, t.host);
    var b := RequestBuilder.WithPort(b, t.port);
    var b := RequestBuilder.WithPath(b, t.uri);
    var b := b.(headers := Headers.PutAll(b.headers, headers));
    assert Headers.UniqueNames(headers) ==>
      forall name :: name in Headers.Names(headers) ==> Headers.Get(b.headers, name) == Headers.Get(headers, name) by {
      if Headers.UniqueNames(headers) {
        forall name | name in Headers.Names(headers)
          ensures Headers.Get(b.headers, name) == Headers.Get(headers, name)
        {
          Headers.GetPutAll(RequestBuilder.New().headers, headers, name);
        }
      }
    }
    if body.Some? then RequestBuilder.WithBody(b, body.value) else b
  }

  /** The bytes written for one request. */
  function RequestBytes(c: Client, verb: Methods.HttpMethod, url: string, t: Url.Target,
                        headers: Headers.Fields, body: Option<string>): seq<byte> {
    Encode(RequestBuilder.Build(RequestFor(verb, t, ConditionalHeaders(c, verb, url, headers), body)))
  }

  /** From the cache lookup to the parsed response: the connection is made
      sure of, the request is written, and a response is parsed from what
      the connection has read. A parse failure leaves the connection open
      with its unread bytes dropped. */
  function Exchange(c: Client, verb: Methods.HttpMethod, url: string, t: Url.Target,
                    headers: Headers.Fields, body: Option<string>, net: Network): (r: Reply)
    ensures r.client.cache == c.cache
    ensures r.client.maxRedirects == c.maxRedirects && r.client.followRedirects == c.followRedirects
    ensures Reusable(r.client.conn, t.host, t.port)
    ensures r.result.Err? ==> r.result.error.BadResponse?
    ensures SendCount(r.events) == 1
    ensures r.events == EnsureConnection(c, t.host, t.port).1 + [Send(RequestBytes(c, verb, url, t, headers, body))]
  {
    var (c1, connected) := EnsureConnection(c, t.host, t.port);
    var bytes := RequestBytes(c, verb, url, t, headers, body);
    var events := connected + [Send(bytes)];
    SendCountAppend(connected, [Send(bytes)]);
    match ResponseParser.Parse(c1.conn.pending + net(t.host, t.port, bytes))
    case Err(e) => Reply(Err(BadResponse(e)), c1.(conn := Open(t.host, t.port, [])), events)
    case Ok((resp, rest)) => Reply(Ok(resp), c1.(conn := Open(t.host, t.port, rest)), events)
  }

  // ---------------------------------------------------------------------------
  // After the response
  // ---------------------------------------------------------------------------

  /** Whether a response is stored in the cache: a 200 to a GET that names
      a Last-Modified date. */
  predicate Cacheable(verb: Methods.HttpMethod, resp: ResponseParser.Response) {
    verb == Methods.Get && resp.code == 200 && ResponseParser.GetHeader(resp, "Last-Modified").Some?
  }

  /** `getBodyAsString`: null without a body. */
  function BodyText(resp: ResponseParser.Response): Option<string> {
    if resp.body.Some? then Some(Decode(resp.body.value)) else None
  }

  /** The cache after a response: the entry for the URL replaced when the
      response is cacheable. */
  function Remember(c: Client, verb: Methods.HttpMethod, url: string, resp: ResponseParser.Response): (r: Client)
    ensures r.(cache := c.cache) == c
    ensures Cacheable(verb, resp) ==>
      r.cache == c.cache[url := CacheEntry(ResponseParser.GetHeader(resp, "Last-Modified").value, BodyText(resp))]
    ensures !Cacheable(verb, resp) ==> r.cache == c.cache
  {
    if Cacheable(verb, resp) then
      c.(cache := c.cache[url := CacheEntry(ResponseParser.GetHeader(resp, "Last-Modified").value, BodyText(resp))])
    else c
  }

  /** What follows a response: return it, or request the next location. */
  datatype Next =
    | Return(client: Client, events: seq<Event>)
    | Redirect(client: Client, events: seq<Event>, verb: Methods.HttpMethod, url: string, body: Option<string>)

  /** Whether a redirect turns the request into a body-less GET. */
  predicate Downgrades(code: int) {
    code == 301 || code == 302
  }

  /** The steps after parsing: a 304 for a cached URL is returned at once;
      otherwise the cache is updated, a followed redirect with a Location
      closes the connection and names the next request, and any other
      response closes the connection unless it is kept alive. */
  function Decide(c: Client, verb: Methods.HttpMethod, url: string, t: Url.Target, body: Option<string>,
                  resp: ResponseParser.Response): (n: Next)
    ensures n.client.maxRedirects == c.maxRedirects && n.client.followRedirects == c.followRedirects
    ensures SendCount(n.events) == 0
  {
    if ResponseParser.IsNotModified(resp.code) && url in c.cache then Return(c, [])
    else
      var c1 := Remember(c, verb, url, resp);
      var location := ResponseParser.GetHeader(resp, "Location");
      if c.followRedirects && ResponseParser.IsRedirect(resp.code) && location.Some? then
        var (c2, events) := CloseConnection(c1);
        Redirect(c2, events,
                 if Downgrades(resp.code) then Methods.Get else verb,
                 Url.Resolve(location.value, t.host, t.port),
                 if Downgrades(resp.code) then None else body)
      else if !ResponseParser.IsKeepAlive(resp) then
        var (c2, events) := CloseConnection(c1);
        Return(c2, events)
      else Return(c1, [])
  }

  // ---------------------------------------------------------------------------
  // request
  // ---------------------------------------------------------------------------

  /** How many more requests a chain may send from `count` redirects on. */
  function Budget(max: int, count: nat): nat {
    if count > max then 0 else max - count + 1
  }

  /** What `Step` promises: a stopped hop is not the redirect failure and
      sends at most once, a continued one has sent exactly once, and the
      redirect settings never change. */
  predicate Keeps(c: Client, h: Hop) {
    && (h.Stop? ==> h.reply.result != Err(TooManyRedirects) && SendCount(h.reply.events) <= 1)
    && (h.Stop? ==> h.reply.client.maxRedirects == c.maxRedirects && h.reply.client.followRedirects == c.followRedirects)
    && (h.Go? ==> SendCount(h.done.events) == 1)
    && (h.Go? ==> h.client.maxRedirects == c.maxRedirects && h.client.followRedirects == c.followRedirects)
  }

  /** One hop of `request` below the redirect check: a result to return,
      or the exchange done so far and the request to make next. */
  datatype Hop =
    | Stop(reply: Reply)
    | Go(done: Reply, client: Client, verb: Methods.HttpMethod, url: string, body: Option<string>)

  /** What follows an exchange: its failure, or the decision on its
      response with the exchange's events in front. */
  function Continue(x: Reply, verb: Methods.HttpMethod, url: string, t: Url.Target, body: Option<string>): (h: Hop)
    requires SendCount(x.events) == 1 && x.result != Err(TooManyRedirects)
    ensures Keeps(x.client, h)
    ensures IsPrefix(x.events, HopEvents(h))
  {
    if x.result.Err? then Stop(x)
    else match Decide(x.client, verb, url, t, body, x.result.value)
      case Return(c', events) =>
        SendCountAppend(x.events, events);
        assert (x.events + events)[..|x.events|] == x.events;
        Stop(Reply(x.result, c', x.events + events))
      case Redirect(c', events, verb', url', body') =>
        SendCountAppend(x.events, events);
        assert (x.events + events)[..|x.events|] == x.events;
        Go(Reply(x.result, x.client, x.events + events), c', verb', url', body')
  }

  /** The URL split into its target, one exchange, and the steps after it. */
  function Step(c: Client, verb: Methods.HttpMethod, url: string, headers: Headers.Fields,
                body: Option<string>, net: Network): (h: Hop)
    ensures Keeps(c, h)
  {
    match Url.Parse(url)
    case None => Stop(Reply(Err(InvalidUrl(url)), c, []))
    case Some(u) =>
      var t := Url.TargetOf(u);
      Continue(Exchange(c, verb, url, t, headers, body, net), verb, url, t, body)
  }

  type Stepper = (Client, Methods.HttpMethod, string, Headers.Fields, Option<string>) -> Hop

  ghost predicate Lawful(step: Stepper) {
    forall c, verb, url, headers, body :: Keeps(c, step(c, verb, url, headers, body))
  }

  /** `Step` over a fixed network. */
  function StepOver(net: Network): (step: Stepper)
    ensures Lawful(step)
  {
    (c, verb, url, headers, body) => Step(c, verb, url, headers, body, net)
  }

  /** The redirect chain of `request`, from `count` redirects on: the
      check against the limit, then one hop, then the next request without
      the caller's headers. */
  function Chain(step: Stepper, c: Client, verb: Methods.HttpMethod, url: string, headers: Headers.Fields,
                 body: Option<string>, count: nat): (r: Reply)
    requires Lawful(step)
    decreases Budget(c.maxRedirects, count)
    ensures r.client.maxRedirects == c.maxRedirects && r.client.followRedirects == c.followRedirects
    ensures SendCount(r.events) <= Budget(c.maxRedirects, count)
    ensures r.result == Err(TooManyRedirects) ==> SendCount(r.events) == Budget(c.maxRedirects, count)
    ensures count > c.maxRedirects <==> r == Reply(Err(TooManyRedirects), c, [])
  {
    if count > c.maxRedirects then Reply(Err(TooManyRedirects), c, [])
    else match step(c, verb, url, headers, body)
      case Stop(reply) => reply
      case Go(done, c', verb', url', body') =>
        var next := Chain(step, c', verb', url', [], body', count + 1);
        SendCountAppend(done.events, next.events);
        Reply(next.result, next.client, done.events + next.events)
  }

  /** `request(method, url, headers, body, redirectCount)`. */
  function Request(c: Client, verb: Methods.HttpMethod, url: string, headers: Headers.Fields,
                   body: Option<string>, count: nat, net: Network): (r: Reply)
    ensures r.client.maxRedirects == c.maxRedirects && r.client.followRedirects == c.followRedirects
    ensures SendCount(r.events) <= Budget(c.maxRedirects, count)
    ensures r.result == Err(TooManyRedirects) ==> SendCount(r.events) == Budget(c.maxRedirects, count)
    ensures count > c.maxRedirects <==> r == Reply(Err(TooManyRedirects), c, [])
  {
    Chain(StepOver(net), c, verb, url, headers, body, count)
  }

  /** `get(url)`. */
  function Get(c: Client, url: string, net: Network): (r: Reply)
    ensures c.maxRedirects >= 0 ==> SendCount(r.events) <= c.maxRedirects + 1
    ensures c.maxRedirects < 0 ==> r == Reply(Err(TooManyRedirects), c, [])
  {
    Request(c, Methods.Get, url, [], None, 0, net)
  }

  /** `postJson(url, json)`: a POST with the JSON Content-Type. */
  function PostJson(c: Client, url: string, json: string, net: Network): (r: Reply)
    ensures c.maxRedirects >= 0 ==> SendCount(r.events) <= c.maxRedirects + 1
  {
    Request(c, Methods.Post, url, [Headers.Field("Content-Type", RequestBuilder.JsonType)], Some(json), 0, net)
  }

  /** `postForm(url, form)`: a POST of the pairs joined as `k=v&k=v`. */
  function PostForm(c: Client, url: string, form: Headers.Fields, net: Network): (r: Reply)
    ensures c.maxRedirects >= 0 ==> SendCount(r.events) <= c.maxRedirects + 1
  {
    Request(c, Methods.Post, url, [Headers.Field("Content-Type", RequestBuilder.FormType)],
            Some(RequestBuilder.Pairs(form)), 0, net)
  }

  // ---------------------------------------------------------------------------
  // Properties
  // ---------------------------------------------------------------------------

  predicate IsPrefix(a: seq<Event>, b: seq<Event>) {
    |a| <= |b| && b[..|a|] == a
  }

  /** A 304 for a URL the cache holds is returned as received: no cache
      update, no redirect, and the connection stays as it is even when the
      response asks to close. */
  lemma NotModifiedReturnsAsIs(c: Client, verb: Methods.HttpMethod, url: string, t: Url.Target,
                               body: Option<string>, resp: ResponseParser.Response)
    requires ResponseParser.IsNotModified(resp.code) && url in c.cache
    ensures Decide(c, verb, url, t, body, resp) == Return(c, [])
    ensures !ResponseParser.IsRedirect(resp.code)
  {
  }

  /** Apart from a 304 for a cached URL, the cache afterwards holds the
      response's Last-Modified date for the URL exactly when the response is
      a 200 to a GET that has one; no other entry changes. */
  lemma CacheUpdatedIffCacheable(c: Client, verb: Methods.HttpMethod, url: string, t: Url.Target,
                                 body: Option<string>, resp: ResponseParser.Response)
    requires !(ResponseParser.IsNotModified(resp.code) && url in c.cache)
    ensures var after := Decide(c, verb, url, t, body, resp).client.cache;
      && (Cacheable(verb, resp) ==>
            url in after && after[url].lastModified == ResponseParser.GetHeader(resp, "Last-Modified").value)
      && (!Cacheable(verb, resp) ==> after == c.cache)
      && (forall other :: other != url ==> (other in after <==> other in c.cache))
  {
  }

  /** A followed redirect with a Location closes the connection and asks
      for the resolved location; 301 and 302 turn the request into a GET
      without a body, 303, 307 and 308 keep the method and the body. */
  lemma RedirectFollowed(c: Client, verb: Methods.HttpMethod, url: string, t: Url.Target,
                         body: Option<string>, resp: ResponseParser.Response)
    requires c.followRedirects && ResponseParser.IsRedirect(resp.code)
    requires ResponseParser.GetHeader(resp, "Location").Some?
    ensures var n := Decide(c, verb, url, t, body, resp);
      && n.Redirect?
      && n.client.conn == Closed
      && n.events == (if c.conn.Open? then [Disconnect] else [])
      && n.url == Url.Resolve(ResponseParser.GetHeader(resp, "Location").value, t.host, t.port)
      && (resp.code in {301, 302} ==> n.verb == Methods.Get && n.body.None?)
      && (resp.code in {303, 307, 308} ==> n.verb == verb && n.body == body)
  {
    ResponseParser.RedirectCodes(resp.code);
  }

  /** Any other response is returned; the connection is closed first
      exactly when the response is not kept alive. */
  lemma FinalResponse(c: Client, verb: Methods.HttpMethod, url: string, t: Url.Target,
                      body: Option<string>, resp: ResponseParser.Response)
    requires !(ResponseParser.IsNotModified(resp.code) && url in c.cache)
    requires !(c.followRedirects && ResponseParser.IsRedirect(resp.code) && ResponseParser.GetHeader(resp, "Location").Some?)
    ensures var n := Decide(c, verb, url, t, body, resp);
      && n.Return?
      && (!ResponseParser.IsKeepAlive(resp) ==> n.client.conn == Closed && n.events == (if c.conn.Open? then [Disconnect] else []))
      && (ResponseParser.IsKeepAlive(resp) ==> n.client.conn == c.conn && n.events == [])
  {
  }

  /** The request header If-Modified-Since is not the Host header. */
  lemma IfModifiedSinceIsNotHost()
    ensures !RequestBuilder.IsHost(IfModifiedSince)
  {
    assert |Text.ToLower(IfModifiedSince)| != |Text.ToLower("Host")|;
  }

  /** A GET of a URL the cache holds writes an If-Modified-Since line with
      the cached date, whatever other headers the caller gave. */
  lemma ConditionalGetSent(c: Client, url: string, t: Url.Target, headers: Headers.Fields, body: Option<string>)
    requires url in c.cache && Headers.UniqueNames(headers)
    ensures var b := RequestFor(Methods.Get, t, ConditionalHeaders(c, Methods.Get, url, headers), body);
      Headers.Field(IfModifiedSince, c.cache[url].lastModified) in RequestBuilder.SentFields(b)
  {
    var h := ConditionalHeaders(c, Methods.Get, url, headers);
    var b := RequestFor(Methods.Get, t, h, body);
    assert IfModifiedSince in Headers.Names(h);
    assert Headers.Get(b.headers, IfModifiedSince) == Some(c.cache[url].lastModified);
    IfModifiedSinceIsNotHost();
  }

  /** A cached 200 makes the next GET of the same URL conditional on the
      date the response named. */
  lemma CacheThenConditional(c: Client, url: string, t: Url.Target, body: Option<string>,
                             resp: ResponseParser.Response, headers: Headers.Fields)
    requires !(ResponseParser.IsNotModified(resp.code) && url in c.cache)
    requires Cacheable(Methods.Get, resp)
    ensures var after := Decide(c, Methods.Get, url, t, body, resp).client;
      Headers.Get(ConditionalHeaders(after, Methods.Get, url, headers), IfModifiedSince) ==
        ResponseParser.GetHeader(resp, "Last-Modified")
  {
    CacheUpdatedIffCacheable(c, Methods.Get, url, t, body, resp);
  }

  /** A relative Location keeps the next request on the same server: the
      same host and port, with the location (given a leading '/') as the
      request-URI. */
  lemma RelativeRedirectStaysOnServer(c: Client, verb: Methods.HttpMethod, url: string, body: Option<string>,
                                      resp: ResponseParser.Response, path: string, query: Option<string>)
    requires Url.Parse(url).Some?
    requires c.followRedirects && ResponseParser.IsRedirect(resp.code)
    requires ResponseParser.GetHeader(resp, "Location") == Some(Url.TailText(path, query))
    requires Url.IsClean(path) && '?' !in path && Url.NoBrackets(path) && (query.Some? ==> Url.IsClean(query.value))
    requires !Url.IsAbsolute(Url.TailText(path, query))
    ensures var t := Url.TargetOf(Url.Parse(url).value);
      var n := Decide(c, verb, url, t, body, resp);
      var full := if Text.StartsWith(path, "/") then path else "/" + path;
      && Url.Parse(n.url).Some?
      && Url.TargetOf(Url.Parse(n.url).value) == Url.Target(t.host, t.port, Url.TailText(full, query))
  {
    var u := Url.Parse(url).value;
    Url.ParseWellFormed(url);
    var t := Url.TargetOf(u);
    RedirectFollowed(c, verb, url, t, body, resp);
    Url.ResolveRelative(path, query, t.host, t.port);
  }

  /** The events a hop has produced. */
  function HopEvents(h: Hop): seq<Event> {
    if h.Stop? then h.reply.events else h.done.events
  }

  lemma PrefixTransitive(a: seq<Event>, b: seq<Event>, c: seq<Event>)
    requires IsPrefix(a, b) && IsPrefix(b, c)
    ensures IsPrefix(a, c)
  {
    assert c[..|a|] == c[..|b|][..|a|];
  }

  /** A hop for a URL that parses starts with its exchange's events. */
  lemma StepStartsWithExchange(c: Client, verb: Methods.HttpMethod, url: string, headers: Headers.Fields,
                               body: Option<string>, net: Network)
    requires Url.Parse(url).Some?
    ensures var t := Url.TargetOf(Url.Parse(url).value);
      IsPrefix(Exchange(c, verb, url, t, headers, body, net).events, HopEvents(Step(c, verb, url, headers, body, net)))
  {
  }

  /** The events of a chain within its limit start with those of its first hop. */
  lemma ChainStartsWithHop(step: Stepper, c: Client, verb: Methods.HttpMethod, url: string,
                           headers: Headers.Fields, body: Option<string>, count: nat)
    requires Lawful(step) && count <= c.maxRedirects
    ensures IsPrefix(HopEvents(step(c, verb, url, headers, body)), Chain(step, c, verb, url, headers, body, count).events)
  {
    var h := step(c, verb, url, headers, body);
    if h.Go? {
      var next := Chain(step, h.client, h.verb, h.url, [], h.body, count + 1);
      assert (h.done.events + next.events)[..|h.done.events|] == h.done.events;
    }
  }

  /** The first thing `request` sends, for a URL it can parse and a count
      within the limit, is the request built from the URL's target, the
      caller's headers made conditional by the cache, and the body. */
  lemma FirstRequest(c: Client, verb: Methods.HttpMethod, url: string, headers: Headers.Fields,
                     body: Option<string>, count: nat, net: Network)
    requires count <= c.maxRedirects && Url.Parse(url).Some?
    ensures var t := Url.TargetOf(Url.Parse(url).value);
      IsPrefix(EnsureConnection(c, t.host, t.port).1 + [Send(RequestBytes(c, verb, url, t, headers, body))],
               Request(c, verb, url, headers, body, count, net).events)
  {
    var t := Url.TargetOf(Url.Parse(url).value);
    var step := StepOver(net);
    assert step(c, verb, url, headers, body) == Step(c, verb, url, headers, body, net);
    StepStartsWithExchange(c, verb, url, headers, body, net);
    ChainStartsWithHop(step, c, verb, url, headers, body, count);
    PrefixTransitive(Exchange(c, verb, url, t, headers, body, net).events,
                     HopEvents(step(c, verb, url, headers, body)),
                     Request(c, verb, url, headers, body, count, net).events);
  }

  /** `postForm` writes the pairs as the body, under the form Content-Type,
      as the first request. */
  lemma PostFormSends(c: Client, url: string, form: Headers.Fields, net: Network)
    requires c.maxRedirects >= 0 && Url.Parse(url).Some?
    ensures var t := Url.TargetOf(Url.Parse(url).value);
      var h := [Headers.Field("Content-Type", RequestBuilder.FormType)];
      var b := RequestFor(Methods.Post, t, h, Some(RequestBuilder.Pairs(form)));
      && b.verb == Methods.Post && b.body == Some(RequestBuilder.Pairs(form))
      && Headers.Get(b.headers, "Content-Type") == Some(RequestBuilder.FormType)
      && IsPrefix(EnsureConnection(c, t.host, t.port).1 + [Send(Encode(RequestBuilder.Build(b)))],
                  PostForm(c, url, form, net).events)
  {
    var t := Url.TargetOf(Url.Parse(url).value);
    var h := [Headers.Field("Content-Type", RequestBuilder.FormType)];
    var body := Some(RequestBuilder.Pairs(form));
    Headers.OneField("Content-Type", RequestBuilder.FormType);
    assert ConditionalHeaders(c, Methods.Post, url, h) == h;
    assert RequestBytes(c, Methods.Post, url, t, h, body) == Encode(RequestBuilder.Build(RequestFor(Methods.Post, t, h, body)));
    FirstRequest(c, Methods.Post, url, h, body, 0, net);
  }
}
