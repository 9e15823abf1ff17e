/** `ClientHandler.run`: the keep-alive loop of one server connection. It
    reads requests from the front of the connection's input, routes each,
    marks the response with the request's keep-alive decision and writes it,
    and stops when the input ends, a request line is malformed, a request
    asks to close, or the per-connection request limit is reached.

    What routing does is the parameter `handler` (`router.route`, which
    already turns a handler's exception into a 500), over a world `W` that a
    request may change (the user registry, for the server's table). The
    loop is defined over any
    parser that consumes input; `Run` and the properties use
    `RequestParser.Parse`. */
module ClientHandler {
  import opened Wrappers
  import opened Bytes
  import HttpRequest
  import HttpResponse
  import RequestParser
  import Wire

  /** The default limits: a 60 second read timeout and 100 requests per
      connection. */
  const DefaultTimeout: nat := 60000
  const MaxKeepAliveRequests: nat := 100

  /** Why the loop ended: the input ran out (the parser found no request
      line), a request line was malformed (the parser's I/O error, which
      closes the connection), or the loop condition failed. */
  datatype End = Closed | Malformed | Finished

  /** One connection's history: the requests read, the responses written
      (one per request, in order), the world afterwards and the count. */
  datatype Trace<W> = Trace(
    requests: seq<HttpRequest.Request>,
    responses: seq<HttpResponse.Response>,
    world: W,
    count: nat,
    end: End)

  /** The response written for a request: the routed response with the
      Connection header from the request; status and body are the router's. */
  function Answer(routed: HttpResponse.Response, keepAlive: bool): (r: HttpResponse.Response)
    ensures HttpResponse.GetHeader(r, "Connection") == Some(if keepAlive then "keep-alive" else "close")
    ensures r.status == routed.status && r.body == routed.body
  {
    HttpResponse.SetKeepAlive(routed, keepAlive)
  }

  /** `t` with the given requests and responses in front of its own. */
  function Prefixed<W>(reqs: seq<HttpRequest.Request>, resps: seq<HttpResponse.Response>, t: Trace<W>): Trace<W> {
    t.(requests := reqs + t.requests, responses := resps + t.responses)
  }

  /** Each response carries the Connection header its request decided. */
  predicate Marked(reqs: seq<HttpRequest.Request>, resps: seq<HttpResponse.Response>) {
    && |reqs| == |resps|
    && forall i :: 0 <= i < |resps| ==>
      HttpResponse.GetHeader(resps[i], "Connection") ==
        Some(if HttpRequest.IsKeepAlive(reqs[i]) then "keep-alive" else "close")
  }

  /** Every request but the last asked to keep the connection alive. */
  predicate AliveBeforeLast(reqs: seq<HttpRequest.Request>) {
    forall i :: 0 <= i < |reqs| - 1 ==> HttpRequest.IsKeepAlive(reqs[i])
  }

  /** One more served request in front keeps both properties, provided it
      asked for keep-alive whenever more requests follow. */
  lemma MarkedCons(req: HttpRequest.Request, resp: HttpResponse.Response,
                   reqs: seq<HttpRequest.Request>, resps: seq<HttpResponse.Response>)
    requires Marked(reqs, resps) && AliveBeforeLast(reqs)
    requires HttpResponse.GetHeader(resp, "Connection") ==
      Some(if HttpRequest.IsKeepAlive(req) then "keep-alive" else "close")
    requires |reqs| > 0 ==> HttpRequest.IsKeepAlive(req)
    ensures Marked([req] + reqs, [resp] + resps) && AliveBeforeLast([req] + reqs)
  {
    var rq := [req] + reqs;
    var rp := [resp] + resps;
    forall i | 0 <= i < |rp|
      ensures HttpResponse.GetHeader(rp[i], "Connection") ==
        Some(if HttpRequest.IsKeepAlive(rq[i]) then "keep-alive" else "close")
    {
      if i > 0 {
        assert rp[i] == resps[i - 1] && rq[i] == reqs[i - 1];
      }
    }
    forall i | 0 <= i < |rq| - 1
      ensures HttpRequest.IsKeepAlive(rq[i])
    {
      if i > 0 {
        assert rq[i] == reqs[i - 1];
      }
    }
  }

  type Parser = seq<byte> -> Result<RequestParser.Parsed, RequestParser.ParseError>

  /** A parser that returns a request has consumed some input. */
  ghost predicate Consumes(parse: Parser) {
    forall input :: parse(input).Ok? && parse(input).value.Some? ==> |parse(input).value.value.1| < |input|
  }

  lemma ParseConsumes()
    ensures Consumes(RequestParser.Parse)
  {
  }

  /** The loop from a given state, as a recursive definition: `count`
      requests already served, `keepAlive` the last request's decision. */
  function Loop<W>(
    parse: Parser, input: seq<byte>, handler: (HttpRequest.Request, W) -> (HttpResponse.Response, W), world: W,
    count: nat, keepAlive: bool, max: nat): (t: Trace<W>)
    requires Consumes(parse)
    decreases |input|
    ensures |t.requests| == |t.responses| && t.count == count + |t.responses|
    ensures |t.requests| == 0 ==> t.world == world
    ensures count <= max ==> t.count <= max
    ensures Marked(t.requests, t.responses)
    ensures AliveBeforeLast(t.requests)
    ensures !(keepAlive && count < max) <==> t == Trace([], [], world, count, Finished)
  {
    if !(keepAlive && count < max) then Trace([], [], world, count, Finished)
    else match parse(input)
      case Err(_) => Trace([], [], world, count, Malformed)
      case Ok(None) => Trace([], [], world, count, Closed)
      case Ok(Some((req, rest))) =>
        var ka := HttpRequest.IsKeepAlive(req);
        var (routed, world') := handler(req, world);
        var tail := Loop(parse, rest, handler, world', count + 1, ka, max);
        var resp := Answer(routed, ka);
        MarkedCons(req, resp, tail.requests, tail.responses);
        Prefixed([req], [resp], tail)
  }

  /** One turn of the loop, for a request read from the front of the input. */
  lemma LoopStep<W>(
    parse: Parser, input: seq<byte>, handler: (HttpRequest.Request, W) -> (HttpResponse.Response, W), world: W,
    count: nat, max: nat, req: HttpRequest.Request, rest: seq<byte>)
    requires Consumes(parse) && count < max
    requires parse(input) == Ok(Some((req, rest)))
    ensures Loop(parse, input, handler, world, count, true, max) ==
      Prefixed([req], [Answer(handler(req, world).0, HttpRequest.IsKeepAlive(req))],
        Loop(parse, rest, handler, handler(req, world).1, count + 1, HttpRequest.IsKeepAlive(req), max))
  {
  }

  /** A connection that ends by the loop condition while under the limit
      ended because its last request asked to close. */
  lemma {:induction false} FinishedByClose<W>(
    parse: Parser, input: seq<byte>, handler: (HttpRequest.Request, W) -> (HttpResponse.Response, W), world: W,
    count: nat, keepAlive: bool, max: nat)
    requires Consumes(parse)
    decreases |input|
    ensures EndsByClose(Loop(parse, input, handler, world, count, keepAlive, max), max)
  {
    if keepAlive && count < max && parse(input).Ok? && parse(input).value.Some? {
      var (req, rest) := parse(input).value.value;
      var (routed, world') := handler(req, world);
      var ka := HttpRequest.IsKeepAlive(req);
      LoopStep(parse, input, handler, world, count, max, req, rest);
      FinishedByClose(parse, rest, handler, world', count + 1, ka, max);
      ServedInFront(req, Answer(routed, ka), Loop(parse, rest, handler, world', count + 1, ka, max), world', count, max);
    }
  }

  /** The loop condition ended a connection under the limit only after a
      request that asked to close. */
  predicate EndsByClose<W>(t: Trace<W>, max: nat) {
    t.end == Finished && |t.requests| > 0 && t.count < max ==>
      !HttpRequest.IsKeepAlive(t.requests[|t.requests| - 1])
  }

  /** A request served in front of a history keeps `EndsByClose`: a tail
      that served nothing ended by the loop condition only if the request
      asked to close. */
  lemma ServedInFront<W>(req: HttpRequest.Request, resp: HttpResponse.Response, tail: Trace<W>, world': W, count: nat, max: nat)
    requires EndsByClose(tail, max)
    requires |tail.responses| == |tail.requests| == tail.count - count - 1
    requires |tail.requests| == 0 ==> tail.world == world'
    requires !(HttpRequest.IsKeepAlive(req) && count + 1 < max) <==> tail == Trace([], [], world', count + 1, Finished)
    ensures EndsByClose(Prefixed([req], [resp], tail), max)
  {
    var t := Prefixed([req], [resp], tail);
    if |tail.requests| > 0 {
      assert t.requests[|t.requests| - 1] == tail.requests[|tail.requests| - 1];
    } else if tail.end == Finished && tail.count < max {
      assert tail == Trace([], [], world', count + 1, Finished);
    }
  }

  /** Two prefixes in a row are one. */
  lemma PrefixedTwice<W>(reqs: seq<HttpRequest.Request>, resps: seq<HttpResponse.Response>,
                         req: HttpRequest.Request, resp: HttpResponse.Response, t: Trace<W>)
    ensures Prefixed(reqs, resps, Prefixed([req], [resp], t)) == Prefixed(reqs + [req], resps + [resp], t)
  {
    assert reqs + ([req] + t.requests) == (reqs + [req]) + t.requests;
    assert resps + ([resp] + t.responses) == (resps + [resp]) + t.responses;
  }

  /** The loop from a fresh connection, as a `while` loop, for any parser. */
  method RunWith<W>(parse: Parser, input: seq<byte>, handler: (HttpRequest.Request, W) -> (HttpResponse.Response, W), world: W, max: nat)
    returns (t: Trace<W>)
    requires Consumes(parse)
    ensures t == Loop(parse, input, handler, world, 0, true, max)
  {
    var rest := input;
    var w := world;
    var count: nat := 0;
    var keepAlive := true;
    var reqs: seq<HttpRequest.Request> := [];
    var resps: seq<HttpResponse.Response> := [];
    var end := Finished;
    var stop := false;
    assert reqs + Loop(parse, rest, handler, w, count, keepAlive, max).requests == Loop(parse, rest, handler, w, count, keepAlive, max).requests;
    assert resps + Loop(parse, rest, handler, w, count, keepAlive, max).responses == Loop(parse, rest, handler, w, count, keepAlive, max).responses;
    while !stop && keepAlive && count < max
      invariant stop ==> Loop(parse, input, handler, world, 0, true, max) == Trace(reqs, resps, w, count, end)
      invariant !stop ==> end == Finished
      invariant !stop ==>
        Loop(parse, input, handler, world, 0, true, max) == Prefixed(reqs, resps, Loop(parse, rest, handler, w, count, keepAlive, max))
      decreases |rest|, if stop then 0 else 1
    {
      match parse(rest)
      case Err(_) =>
        end := Malformed;
        stop := true;
        assert reqs + [] == reqs && resps + [] == resps;
      case Ok(None) =>
        end := Closed;
        stop := true;
        assert reqs + [] == reqs && resps + [] == resps;
      case Ok(Some((req, rest'))) =>
        LoopStep(parse, rest, handler, w, count, max, req, rest');
        keepAlive := HttpRequest.IsKeepAlive(req);
        var (routed, w') := handler(req, w);
        var resp := Answer(routed, keepAlive);
        PrefixedTwice(reqs, resps, req, resp, Loop(parse, rest', handler, w', count + 1, keepAlive, max));
        reqs := reqs + [req];
        resps := resps + [resp];
        w := w';
        count := count + 1;
        rest := rest';
    }
    if !stop {
      assert reqs + [] == reqs && resps + [] == resps;
    }
    t := Trace(reqs, resps, w, count, end);
  }

  /** `run`: the loop from a fresh connection with the request parser. */
  method Run<W>(input: seq<byte>, handler: (HttpRequest.Request, W) -> (HttpResponse.Response, W), world: W, max: nat)
    returns (t: Trace<W>)
    ensures t == Serve(input, handler, world, max)
  {
    ParseConsumes();
    t := RunWith(RequestParser.Parse, input, handler, world, max);
  }

  /** The loop with the request parser, from a given state. */
  function ServeFrom<W>(input: seq<byte>, handler: (HttpRequest.Request, W) -> (HttpResponse.Response, W), world: W,
                        count: nat, max: nat): (t: Trace<W>)
    ensures count <= max ==> t.count <= max
    ensures |t.requests| == |t.responses| && t.count == count + |t.responses|
    ensures Marked(t.requests, t.responses) && AliveBeforeLast(t.requests)
  {
    ParseConsumes();
    Loop(RequestParser.Parse, input, handler, world, count, true, max)
  }

  /** The whole history of one connection: at most `max` requests, each
      answered once and in order with the Connection header it asked for,
      every one but the last asking for keep-alive. */
  function Serve<W>(input: seq<byte>, handler: (HttpRequest.Request, W) -> (HttpResponse.Response, W), world: W, max: nat): (t: Trace<W>)
    ensures |t.requests| == |t.responses| == t.count <= max
    ensures Marked(t.requests, t.responses) && AliveBeforeLast(t.requests)
  {
    ServeFrom(input, handler, world, 0, max)
  }

  // ---------------------------------------------------------------------------
  // Properties
  // ---------------------------------------------------------------------------

  /** A request that does not keep the connection alive is the last one
      served, whatever follows it in the input; the response says close. */
  lemma CloseEndsConnection<W>(
    input: seq<byte>, handler: (HttpRequest.Request, W) -> (HttpResponse.Response, W), world: W,
    count: nat, max: nat, req: HttpRequest.Request, rest: seq<byte>)
    requires count < max
    requires RequestParser.Parse(input) == Ok(Some((req, rest)))
    requires !HttpRequest.IsKeepAlive(req)
    ensures var t := ServeFrom(input, handler, world, count, max);
      && t.requests == [req]
      && |t.responses| == 1
      && HttpResponse.GetHeader(t.responses[0], "Connection") == Some("close")
      && t.end == Finished
  {
    ParseConsumes();
    LoopStep(RequestParser.Parse, input, handler, world, count, max, req, rest);
  }

  /** Input with no request line ends the loop with nothing served. */
  lemma LoopEnds<W>(parse: Parser, input: seq<byte>, handler: (HttpRequest.Request, W) -> (HttpResponse.Response, W), world: W,
                    count: nat, max: nat)
    requires Consumes(parse) && count < max
    requires parse(input) == Ok(None)
    ensures Loop(parse, input, handler, world, count, true, max) == Trace([], [], world, count, Closed)
  {
  }

  /** A connection whose input has no request line gets no response. */
  lemma NoRequestNoResponse<W>(handler: (HttpRequest.Request, W) -> (HttpResponse.Response, W), world: W, max: nat)
    requires max > 0
    ensures var t := Serve([], handler, world, max);
      t.responses == [] && t.world == world && t.end == Closed
  {
    assert Wire.ReadLine([]).0.None?;
    assert RequestParser.Parse([]) == Ok(None);
    ParseConsumes();
    LoopEnds(RequestParser.Parse, [], handler, world, 0, max);
  }
}
