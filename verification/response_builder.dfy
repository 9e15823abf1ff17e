/** The server's ready-made responses (`ResponseBuilder`): one factory per
    status the handlers send, each on a fresh response carrying the date
    given as `date`, and the factories' own JSON string escape. */
module ResponseBuilder {
  import opened Wrappers
  import opened Bytes
  import Numbers
  import Headers
  import Status
  import Json
  import ResponseParser
  import HttpResponse

  const TextPlain: string := "text/plain; charset=UTF-8"
  const TextHtml: string := "text/html; charset=UTF-8"
  const ApplicationJson: string := "application/json; charset=UTF-8"

  // ---------------------------------------------------------------------------
  // escapeJson: a chain of String.replace calls
  // ---------------------------------------------------------------------------

  /** `s.replace(c, rep)` for a one-char target: every `c` becomes `rep`. */
  function Replace(s: string, c: char, rep: string): (r: string)
    ensures c !in rep ==> c !in r
    ensures c !in s ==> r == s
  {
    if |s| == 0 then ""
    else (if s[0] == c then rep else [s[0]]) + Replace(s[1..], c, rep)
  }

  lemma {:induction false} ReplaceAppend(a: string, b: string, c: char, rep: string)
    ensures Replace(a + b, c, rep) == Replace(a, c, rep) + Replace(b, c, rep)
    decreases |a|
  {
    if |a| == 0 {
      assert a + b == b;
    } else {
      assert (a + b)[1..] == a[1..] + b;
      ReplaceAppend(a[1..], b, c, rep);
    }
  }

  /** The five replacements in source order: backslash first, so the
      backslashes the later ones insert are not doubled again. */
  function ReplaceChain(s: string): string {
    Replace(Replace(Replace(Replace(Replace(s, '\\', "\\\\"), '"', "\\\""), '\n', "\\n"), '\r', "\\r"), '\t', "\\t")
  }

  /** The escape of one char that the chain amounts to. */
  function EscapeChar(c: char): (r: string)
    ensures 1 <= |r| <= 2
    ensures |r| == 1 <==> r == [c]
  {
    if c == '\\' then "\\\\"
    else if c == '"' then "\\\""
    else if c == '\n' then "\\n"
    else if c == '\r' then "\\r"
    else if c == '\t' then "\\t"
    else [c]
  }

  /** The per-char escape: the reference the replace chain is proved against. */
  function EscapeEach(s: string): (r: string)
    ensures |r| >= |s|
  {
    if |s| == 0 then "" else EscapeChar(s[0]) + EscapeEach(s[1..])
  }

  lemma ReplaceChainAppend(a: string, b: string)
    ensures ReplaceChain(a + b) == ReplaceChain(a) + ReplaceChain(b)
  {
    var s1a, s1b := Replace(a, '\\', "\\\\"), Replace(b, '\\', "\\\\");
    ReplaceAppend(a, b, '\\', "\\\\");
    var s2a, s2b := Replace(s1a, '"', "\\\""), Replace(s1b, '"', "\\\"");
    ReplaceAppend(s1a, s1b, '"', "\\\"");
    var s3a, s3b := Replace(s2a, '\n', "\\n"), Replace(s2b, '\n', "\\n");
    ReplaceAppend(s2a, s2b, '\n', "\\n");
    var s4a, s4b := Replace(s3a, '\r', "\\r"), Replace(s3b, '\r', "\\r");
    ReplaceAppend(s3a, s3b, '\r', "\\r");
    ReplaceAppend(s4a, s4b, '\t', "\\t");
  }

  /** Literal one-step facts about `Replace` on short texts. */
  lemma ReplaceOne(x: char, c: char, rep: string)
    ensures Replace([x], c, rep) == if x == c then rep else [x]
  {
    assert [x][1..] == [];
  }

  lemma ReplaceTwo(x: char, y: char, c: char, rep: string)
    ensures Replace([x, y], c, rep) == (if x == c then rep else [x]) + (if y == c then rep else [y])
  {
    assert [x, y][1..] == [y];
    ReplaceOne(y, c, rep);
  }

  lemma ReplaceChainChar(c: char)
    ensures ReplaceChain([c]) == EscapeChar(c)
  {
    ReplaceOne(c, '\\', "\\\\");
    if c == '\\' {
      ReplaceTwo('\\', '\\', '"', "\\\"");
      ReplaceTwo('\\', '\\', '\n', "\\n");
      ReplaceTwo('\\', '\\', '\r', "\\r");
      ReplaceTwo('\\', '\\', '\t', "\\t");
    } else {
      ReplaceOne(c, '"', "\\\"");
      if c == '"' {
        ReplaceTwo('\\', '"', '\n', "\\n");
        ReplaceTwo('\\', '"', '\r', "\\r");
        ReplaceTwo('\\', '"', '\t', "\\t");
      } else {
        ReplaceOne(c, '\n', "\\n");
        if c == '\n' {
          ReplaceTwo('\\', 'n', '\r', "\\r");
          ReplaceTwo('\\', 'n', '\t', "\\t");
        } else {
          ReplaceOne(c, '\r', "\\r");
          if c == '\r' {
            ReplaceTwo('\\', 'r', '\t', "\\t");
          } else {
            ReplaceOne(c, '\t', "\\t");
          }
        }
      }
    }
  }

  /** The chain of replacements is the per-char escape. */
  lemma {:induction false} ReplaceChainIsEscapeEach(s: string)
    ensures ReplaceChain(s) == EscapeEach(s)
    decreases |s|
  {
    if |s| > 0 {
      assert s == [s[0]] + s[1..];
      ReplaceChainAppend([s[0]], s[1..]);
      ReplaceChainChar(s[0]);
      ReplaceChainIsEscapeEach(s[1..]);
    }
  }

  /** `escapeJson(text)`: null gives the empty string. */
  function EscapeJson(text: Option<string>): string {
    if text.None? then "" else ReplaceChain(text.value)
  }

  /** The escaped text holds no raw line feed, carriage return or tab. */
  lemma {:induction false} EscapeEachNoBreaks(s: string)
    ensures forall i :: 0 <= i < |EscapeEach(s)| ==>
      EscapeEach(s)[i] != '\n' && EscapeEach(s)[i] != '\r' && EscapeEach(s)[i] != '\t'
    decreases |s|
  {
    if |s| > 0 {
      EscapeEachNoBreaks(s[1..]);
      var c := EscapeChar(s[0]);
      assert EscapeEach(s) == c + EscapeEach(s[1..]);
      assert forall i :: 0 <= i < |c| ==> c[i] != '\n' && c[i] != '\r' && c[i] != '\t';
    }
  }

  lemma EscapeJsonNoBreaks(text: Option<string>)
    ensures text.None? ==> EscapeJson(text) == ""
    ensures (forall i :: 0 <= i < |EscapeJson(text)| ==>
            EscapeJson(text)[i] != '\n' && EscapeJson(text)[i] != '\r' && EscapeJson(text)[i] != '\t')
  {
    if text.Some? {
      ReplaceChainIsEscapeEach(text.value);
      EscapeEachNoBreaks(text.value);
    }
  }

  lemma UnescapeEscapeChar(c: char, t: string)
    ensures Json.Unescape(EscapeChar(c) + t) == [c] + Json.Unescape(t)
  {
    var e := EscapeChar(c);
    if |e| == 2 {
      assert (e + t)[2..] == t;
    } else {
      assert (e + t)[1..] == t;
    }
  }

  /** The handlers' `unescapeJson` undoes this escape on every text, control
      chars included (they are left raw on both sides). */
  lemma {:induction false} UnescapeEscapeEach(s: string)
    ensures Json.Unescape(EscapeEach(s)) == s
    decreases |s|
  {
    if |s| > 0 {
      assert s == [s[0]] + s[1..];
      UnescapeEscapeChar(s[0], EscapeEach(s[1..]));
      UnescapeEscapeEach(s[1..]);
    }
  }

  lemma UnescapeEscapeJson(s: string)
    ensures Json.Unescape(EscapeJson(Some(s))) == s
  {
    ReplaceChainIsEscapeEach(s);
    UnescapeEscapeEach(s);
  }

  // ---------------------------------------------------------------------------
  // Bodies
  // ---------------------------------------------------------------------------

  /** The error reply body `{"code":N,"message":"escaped"}`. */
  function ErrorJson(code: int, message: Option<string>): string {
    "{\"code\":" + Numbers.IntToString(code) + ",\"message\":\"" + EscapeJson(message) + "\"}"
  }

  /** The message of an error reply sits, escaped, between a fixed prefix
      and `"}`, and unescapes to the message. */
  lemma ErrorJsonMessage(code: int, m: string)
    ensures var p := "{\"code\":" + Numbers.IntToString(code) + ",\"message\":\"";
      var r := ErrorJson(code, Some(m));
      |p| + 2 <= |r| && r[..|p|] == p && r[|r| - 2..] == "\"}"
      && Json.Unescape(r[|p|..|r| - 2]) == m
  {
    var p := "{\"code\":" + Numbers.IntToString(code) + ",\"message\":\"";
    var e := EscapeJson(Some(m));
    var r := ErrorJson(code, Some(m));
    assert r == p + e + "\"}";
    assert r[|p|..|r| - 2] == e;
    UnescapeEscapeJson(m);
  }

  /** The redirect page that names the target twice. */
  function RedirectPage(title: string, location: string): string {
    "<html><body><h1>" + title + "</h1><p>Redirecting to <a href=\"" + location + "\">" + location + "</a></p></body></html>"
  }

  const NotFoundPage: string :=
    "<html><body><h1>404 Not Found</h1><p>The requested resource was not found on this server.</p></body></html>"
  const MethodNotAllowedPage: string :=
    "<html><body><h1>405 Method Not Allowed</h1><p>The request method is not supported for this resource.</p></body></html>"
  const InternalServerErrorPage: string :=
    "<html><body><h1>500 Internal Server Error</h1><p>An unexpected error occurred.</p></body></html>"

  // ---------------------------------------------------------------------------
  // Factories
  // ---------------------------------------------------------------------------

  /** A fresh response with the given status, content type and text body:
      the body is the UTF-8 text and Content-Length counts its bytes. */
  function Page(date: string, s: Status.HttpStatus, contentType: string, body: seq<byte>): (r: HttpResponse.Response)
    ensures r.status == s && r.version == "HTTP/1.1" && r.body == Some(body)
    ensures HttpResponse.GetHeader(r, "Content-Type") == Some(contentType)
    ensures HttpResponse.GetHeader(r, "Content-Length") == Some(Numbers.IntToString(|body|))
    ensures HttpResponse.GetHeader(r, "Server") == Some(HttpResponse.ServerName)
    ensures HttpResponse.GetHeader(r, "Date") == Some(date)
  {
    var r0 := HttpResponse.SetStatus(HttpResponse.New(date), s);
    assert Headers.Get(r0.headers, "Server") == Some(HttpResponse.ServerName);
    assert Headers.Get(r0.headers, "Date") == Some(date);
    var r1 := HttpResponse.SetContentType(r0, contentType);
    assert "Server" != "Content-Type" && "Date" != "Content-Type";
    assert "Server" != "Content-Length" && "Date" != "Content-Length" && "Content-Type" != "Content-Length";
    HttpResponse.SetBody(r1, Some(body))
  }

  /** `ok()`: 200 with the fresh headers and no body. */
  function Ok(date: string): (r: HttpResponse.Response)
    ensures r.status == Status.Ok && r.body.None?
    ensures r.headers == HttpResponse.New(date).headers
  {
    HttpResponse.SetStatus(HttpResponse.New(date), Status.Ok)
  }

  /** `ok(body)`: 200, plain text. */
  function OkText(date: string, body: string): (r: HttpResponse.Response)
    ensures r.status == Status.Ok && r.body == Some(Encode(body))
    ensures HttpResponse.GetHeader(r, "Content-Type") == Some(TextPlain)
    ensures HttpResponse.GetHeader(r, "Content-Length") == Some(Numbers.IntToString(|Encode(body)|))
  {
    Page(date, Status.Ok, TextPlain, Encode(body))
  }

  /** `html(content)`: 200, HTML. */
  function Html(date: string, content: string): (r: HttpResponse.Response)
    ensures r.status == Status.Ok && r.body == Some(Encode(content))
    ensures HttpResponse.GetHeader(r, "Content-Type") == Some(TextHtml)
  {
    Page(date, Status.Ok, TextHtml, Encode(content))
  }

  /** `json(content)`: 200, JSON. */
  function JsonPage(date: string, content: string): (r: HttpResponse.Response)
    ensures r.status == Status.Ok && r.body == Some(Encode(content))
    ensures HttpResponse.GetHeader(r, "Content-Type") == Some(ApplicationJson)
    ensures HttpResponse.GetHeader(r, "Content-Length") == Some(Numbers.IntToString(|Encode(content)|))
  {
    Page(date, Status.Ok, ApplicationJson, Encode(content))
  }

  /** `binary(data, contentType)`: 200 with the bytes as given. */
  function Binary(date: string, data: seq<byte>, contentType: string): (r: HttpResponse.Response)
    ensures r.status == Status.Ok && r.body == Some(data)
    ensures HttpResponse.GetHeader(r, "Content-Type") == Some(contentType)
    ensures HttpResponse.GetHeader(r, "Content-Length") == Some(Numbers.IntToString(|data|))
  {
    Page(date, Status.Ok, contentType, data)
  }

  /** The redirect factories: the status, then Location, an HTML page that
      links to the target. */
  function Redirect(date: string, s: Status.HttpStatus, title: string, location: string): (r: HttpResponse.Response)
    ensures r.status == s
    ensures HttpResponse.GetHeader(r, "Location") == Some(location)
    ensures HttpResponse.GetHeader(r, "Content-Type") == Some(TextHtml)
    ensures r.body == Some(Encode(RedirectPage(title, location)))
  {
    var r0 := HttpResponse.SetLocation(HttpResponse.SetStatus(HttpResponse.New(date), s), location);
    var r1 := HttpResponse.SetContentType(r0, TextHtml);
    HttpResponse.SetBodyText(r1, RedirectPage(title, location))
  }

  /** `movedPermanently(location)`. */
  function MovedPermanently(date: string, location: string): (r: HttpResponse.Response)
    ensures r.status == Status.MovedPermanently
    ensures HttpResponse.GetHeader(r, "Location") == Some(location)
    ensures r.body == Some(Encode(RedirectPage("301 Moved Permanently", location)))
  {
    Redirect(date, Status.MovedPermanently, "301 Moved Permanently", location)
  }

  /** `found(location)`. */
  function Found(date: string, location: string): (r: HttpResponse.Response)
    ensures r.status == Status.Found
    ensures HttpResponse.GetHeader(r, "Location") == Some(location)
    ensures r.body == Some(Encode(RedirectPage("302 Found", location)))
  {
    Redirect(date, Status.Found, "302 Found", location)
  }

  /** The client recognises what the redirect and 304 factories send. */
  lemma FactoryCodesRecognised()
    ensures Status.Code(Status.MovedPermanently) == 301 && ResponseParser.IsRedirect(301)
    ensures Status.Code(Status.Found) == 302 && ResponseParser.IsRedirect(302)
    ensures Status.Code(Status.NotModified) == 304 && ResponseParser.IsNotModified(304)
  {
  }

  /** `notModified()`: 304 with no body, hence no Content-Length. */
  function NotModified(date: string): (r: HttpResponse.Response)
    ensures r.status == Status.NotModified
    ensures r.body.None? && HttpResponse.GetHeader(r, "Content-Length").None?
  {
    HttpResponse.SetStatus(HttpResponse.New(date), Status.NotModified)
  }

  /** `badRequest(message)`: 400 with the JSON error body. */
  function BadRequest(date: string, message: Option<string>): (r: HttpResponse.Response)
    ensures r.status == Status.BadRequest
    ensures r.body == Some(Encode(ErrorJson(400, message)))
    ensures HttpResponse.GetHeader(r, "Content-Type") == Some(ApplicationJson)
  {
    Page(date, Status.BadRequest, ApplicationJson, Encode(ErrorJson(400, message)))
  }

  /** `notFound()`: 404 with the fixed HTML page. */
  function NotFound(date: string): (r: HttpResponse.Response)
    ensures r.status == Status.NotFound
    ensures r.body == Some(Encode(NotFoundPage))
    ensures HttpResponse.GetHeader(r, "Content-Type") == Some(TextHtml)
  {
    Page(date, Status.NotFound, TextHtml, Encode(NotFoundPage))
  }

  /** `notFound(message)`: 404 with the JSON error body. */
  function NotFoundMessage(date: string, message: Option<string>): (r: HttpResponse.Response)
    ensures r.status == Status.NotFound
    ensures r.body == Some(Encode(ErrorJson(404, message)))
    ensures HttpResponse.GetHeader(r, "Content-Type") == Some(ApplicationJson)
  {
    Page(date, Status.NotFound, ApplicationJson, Encode(ErrorJson(404, message)))
  }

  /** `methodNotAllowed()`: 405 with the fixed HTML page. */
  function MethodNotAllowed(date: string): (r: HttpResponse.Response)
    ensures r.status == Status.MethodNotAllowed
    ensures r.body == Some(Encode(MethodNotAllowedPage))
    ensures HttpResponse.GetHeader(r, "Content-Type") == Some(TextHtml)
  {
    Page(date, Status.MethodNotAllowed, TextHtml, Encode(MethodNotAllowedPage))
  }

  /** `internalServerError()`: 500 with the fixed HTML page. */
  function InternalServerError(date: string): (r: HttpResponse.Response)
    ensures r.status == Status.InternalServerError
    ensures r.body == Some(Encode(InternalServerErrorPage))
    ensures HttpResponse.GetHeader(r, "Content-Type") == Some(TextHtml)
  {
    Page(date, Status.InternalServerError, TextHtml, Encode(InternalServerErrorPage))
  }

  /** `internalServerError(message)`: 500 with the JSON error body. */
  function InternalServerErrorMessage(date: string, message: Option<string>): (r: HttpResponse.Response)
    ensures r.status == Status.InternalServerError
    ensures r.body == Some(Encode(ErrorJson(500, message)))
    ensures HttpResponse.GetHeader(r, "Content-Type") == Some(ApplicationJson)
  {
    Page(date, Status.InternalServerError, ApplicationJson, Encode(ErrorJson(500, message)))
  }
}
