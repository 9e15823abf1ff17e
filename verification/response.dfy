/** The server's response object (`HttpResponse`): version, status, an
    insertion-ordered header map and an optional body, and its serialisation. */
module HttpResponse {
  import opened Wrappers
  import opened Bytes
  import Text
  import Numbers
  import Headers
  import Status
  import Wire
  import ResponseParser

  const ServerName: string := "SimpleHttpServer/1.0"
  const KeepAliveParams: string := "timeout=60, max=100"

  datatype Response = Response(
    version: string,
    status: Status.HttpStatus,
    headers: Headers.Fields,
    body: Option<seq<byte>>)

  /** `new HttpResponse()`: HTTP/1.1, 200, and the Server then Date headers.
      The formatted current date is the parameter `date`. */
  function New(date: string): (r: Response)
    ensures r.version == "HTTP/1.1" && r.status == Status.Ok && r.body.None?
    ensures r.headers == [Headers.Field("Server", ServerName), Headers.Field("Date", date)]
  {
    var h := Headers.Put(Headers.Put([], "Server", ServerName), "Date", date);
    Response("HTTP/1.1", Status.Ok, h, None)
  }

  /** `setHeader`: last write wins, the position of an existing name is kept. */
  function SetHeader(r: Response, name: string, value: string): (r': Response)
    ensures Headers.Get(r'.headers, name) == Some(value)
    ensures forall other :: other != name ==> Headers.Get(r'.headers, other) == Headers.Get(r.headers, other)
    ensures r'.status == r.status && r'.body == r.body && r'.version == r.version
  {
    Headers.GetPutSame(r.headers, name, value);
    assert forall other :: other != name ==>
      Headers.Get(Headers.Put(r.headers, name, value), other) == Headers.Get(r.headers, other) by {
      forall other | other != name
        ensures Headers.Get(Headers.Put(r.headers, name, value), other) == Headers.Get(r.headers, other)
      {
        Headers.GetPutOther(r.headers, name, value, other);
      }
    }
    r.(headers := Headers.Put(r.headers, name, value))
  }

  /** `getHeader`: exact-case lookup, unlike the request's. */
  function GetHeader(r: Response, name: string): Option<string> {
    Headers.Get(r.headers, name)
  }

  function SetStatus(r: Response, s: Status.HttpStatus): Response {
    r.(status := s)
  }

  /** `setBody(byte[])`: a non-null body also sets Content-Length to its length. */
  function SetBody(r: Response, body: Option<seq<byte>>): (r': Response)
    ensures r'.body == body && r'.status == r.status && r'.version == r.version
    ensures body.Some? ==> GetHeader(r', "Content-Length") == Some(Numbers.IntToString(|body.value|))
    ensures body.None? ==> r'.headers == r.headers
    ensures forall other :: other != "Content-Length" ==> GetHeader(r', other) == GetHeader(r, other)
  {
    match body
    case None => r.(body := None)
    case Some(b) => SetHeader(r, "Content-Length", Numbers.IntToString(|b|)).(body := body)
  }

  /** `setBody(String)`: the UTF-8 bytes of the text. */
  function SetBodyText(r: Response, text: string): (r': Response)
    ensures r'.body == Some(Encode(text))
  {
    SetBody(r, Some(Encode(text)))
  }

  function SetContentType(r: Response, contentType: string): Response {
    SetHeader(r, "Content-Type", contentType)
  }

  function SetLocation(r: Response, location: string): Response {
    SetHeader(r, "Location", location)
  }

  /** `setLastModified`: the formatted date text is the parameter. */
  function SetLastModified(r: Response, date: string): Response {
    SetHeader(r, "Last-Modified", date)
  }

  /** `setKeepAlive`: keep-alive also advertises its limits; close sets only
      the Connection header and leaves an earlier Keep-Alive in place. */
  function SetKeepAlive(r: Response, keepAlive: bool): (r': Response)
    ensures keepAlive ==> GetHeader(r', "Connection") == Some("keep-alive")
    ensures keepAlive ==> GetHeader(r', "Keep-Alive") == Some(KeepAliveParams)
    ensures !keepAlive ==> GetHeader(r', "Connection") == Some("close")
    ensures !keepAlive ==> GetHeader(r', "Keep-Alive") == GetHeader(r, "Keep-Alive")
    ensures r'.status == r.status && r'.body == r.body
  {
    if keepAlive then SetHeader(SetHeader(r, "Connection", "keep-alive"), "Keep-Alive", KeepAliveParams)
    else SetHeader(r, "Connection", "close")
  }

  /** The status line and header block, through the empty line. */
  function Head(r: Response): string {
    ResponseParser.StatusLine(r.version, Status.Code(r.status), Status.Reason(r.status))
      + "\r\n" + (Wire.FieldLines(r.headers) + "\r\n")
  }

  /** The body bytes that `build` writes: none unless the body is non-empty. */
  function Payload(r: Response): seq<byte> {
    if r.body.Some? && |r.body.value| > 0 then r.body.value else []
  }

  /** `build`: status line, headers in insertion order, the empty line, then
      the body when it is non-empty. */
  function Build(r: Response): (bs: seq<byte>)
    ensures Encode(ResponseParser.StatusLine(r.version, Status.Code(r.status), Status.Reason(r.status))) + CRLF <= bs
    ensures r.body.Some? && |r.body.value| > 0 ==> |r.body.value| <= |bs| && bs[|bs| - |r.body.value|..] == r.body.value
    ensures r.body.None? || r.body == Some([]) ==> bs == Encode(Head(r))
  {
    var line := ResponseParser.StatusLine(r.version, Status.Code(r.status), Status.Reason(r.status));
    Wire.EncodeLine(line, Wire.FieldLines(r.headers) + "\r\n");
    Encode(Head(r)) + Payload(r)
  }

  // ---------------------------------------------------------------------------
  // Round trip through the client's parser
  // ---------------------------------------------------------------------------

  lemma ReasonsAreLines0()
    ensures Wire.IsLineText("OK")
    ensures Wire.IsLineText("Created")
    ensures Wire.IsLineText("Moved Permanently")
    ensures Wire.IsLineText("Found")
  {
  }

  lemma ReasonsAreLines1()
    ensures Wire.IsLineText("Not Modified")
    ensures Wire.IsLineText("Bad Request")
    ensures Wire.IsLineText("Unauthorized")
    ensures Wire.IsLineText("Forbidden")
  {
  }

  lemma ReasonsAreLines2()
    ensures Wire.IsLineText("Not Found")
    ensures Wire.IsLineText("Method Not Allowed")
    ensures Wire.IsLineText("Internal Server Error")
    ensures Wire.IsLineText("Not Implemented")
    ensures Wire.IsLineText("Service Unavailable")
  {
  }

  /** Every reason phrase is printable ASCII. */
  lemma ReasonIsLine(s: Status.HttpStatus)
    ensures Wire.IsLineText(Status.Reason(s))
  {
    ReasonsAreLines0();
    ReasonsAreLines1();
    ReasonsAreLines2();
  }

  lemma IntToStringIsLine(n: int)
    ensures Wire.IsLineText(Numbers.IntToString(n)) && ' ' !in Numbers.IntToString(n)
    ensures Wire.IsTrimmed(Numbers.IntToString(n))
  {
    var s := Numbers.IntToString(n);
    Numbers.IntToStringChars(n);
    assert forall i :: 0 <= i < |s| ==> s[i] == '-' || '0' <= s[i] <= '9';
    Text.TrimOfTrimmed(s);
  }

  lemma StatusLineIsLine(version: string, s: Status.HttpStatus)
    requires Wire.IsLineText(version)
    ensures Wire.IsLineText(ResponseParser.StatusLine(version, Status.Code(s), Status.Reason(s)))
  {
    var c := Numbers.IntToString(Status.Code(s));
    IntToStringIsLine(Status.Code(s));
    ReasonIsLine(s);
    Wire.LineTextAppend(version, " ");
    Wire.LineTextAppend(version + " ", c);
    Wire.LineTextAppend(version + " " + c, " ");
    Wire.LineTextAppend(version + " " + c + " ", Status.Reason(s));
  }

  /** What the client's parser needs of a response to read it back. */
  predicate WellFormed(r: Response) {
    && Wire.IsLineText(r.version) && ' ' !in r.version
    && Headers.UniqueNames(r.headers)
    && (forall k :: 0 <= k < |r.headers| ==> Wire.WellFormedField(r.headers[k]))
    && (forall k :: 0 <= k < |r.headers| && Text.EqualsIgnoreCase(r.headers[k].name, "Content-Length") ==>
          r.headers[k].name == "Content-Length")
  }

  lemma ContentLengthFieldWellFormed(n: int)
    ensures Wire.WellFormedField(Headers.Field("Content-Length", Numbers.IntToString(n)))
  {
    IntToStringIsLine(n);
    ContentLengthName();
  }

  lemma ContentLengthName()
    ensures Wire.IsLineText("Content-Length") && ':' !in "Content-Length"
    ensures Wire.IsTrimmed("Content-Length")
  {
  }

  /** `put` of a well-formed field keeps every field well-formed and keeps
      Content-Length spelt exactly. */
  lemma PutWellFormed(h: Headers.Fields, f: Headers.Field)
    requires forall k :: 0 <= k < |h| ==> Wire.WellFormedField(h[k])
    requires forall k :: 0 <= k < |h| && Text.EqualsIgnoreCase(h[k].name, "Content-Length") ==>
      h[k].name == "Content-Length"
    requires Wire.WellFormedField(f)
    requires Text.EqualsIgnoreCase(f.name, "Content-Length") ==> f.name == "Content-Length"
    ensures var h' := Headers.Put(h, f.name, f.value);
      && (forall k :: 0 <= k < |h'| ==> Wire.WellFormedField(h'[k]))
      && (forall k :: 0 <= k < |h'| && Text.EqualsIgnoreCase(h'[k].name, "Content-Length") ==>
            h'[k].name == "Content-Length")
  {
    Headers.PutElements(h, f.name, f.value);
  }

  /** `setBody` keeps a response well-formed and makes its Content-Length
      the one header the client reads the length from. */
  lemma SetBodyWellFormed(r: Response, b: seq<byte>)
    requires WellFormed(r) && Numbers.IsInt32(|b|)
    ensures WellFormed(SetBody(r, Some(b)))
    ensures Headers.ContentLength(SetBody(r, Some(b)).headers) == |b|
  {
    var v := Numbers.IntToString(|b|);
    var f := Headers.Field("Content-Length", v);
    var h := SetBody(r, Some(b)).headers;
    assert h == Headers.Put(r.headers, f.name, f.value);
    Headers.PutUnique(r.headers, f.name, f.value);
    ContentLengthFieldWellFormed(|b|);
    PutWellFormed(r.headers, f);
    Headers.ContentLengthExact(h, |b|);
  }

  /** Parsing after a valid status line: the status line's parts, then the
      header block and the body step. */
  lemma ParseAfterStatusLine(r: Response, more: seq<byte>)
    requires Wire.IsLineText(r.version) && ' ' !in r.version
    ensures var fields := Wire.ReadFields(more, []);
      var body := ResponseParser.ReadBody(fields.0, fields.1);
      var line := ResponseParser.StatusLine(r.version, Status.Code(r.status), Status.Reason(r.status));
      body.Ok? ==>
        ResponseParser.Parse(Encode(line) + CRLF + more)
        == Ok((ResponseParser.Response(r.version, Status.Code(r.status), Status.Reason(r.status), fields.0, body.value.0), body.value.1))
  {
    var line := ResponseParser.StatusLine(r.version, Status.Code(r.status), Status.Reason(r.status));
    StatusLineIsLine(r.version, r.status);
    Wire.ReadLineOfLine(line, more);
    assert line != "";
    ResponseParser.ParseStatusLineOf(r.version, Status.Code(r.status), Status.Reason(r.status));
  }

  /** The `HttpStatus.toString` text after a version is the status line the
      server writes, and the client's status-line parser reads it back into
      the version, the code and the reason, whose code names the status again. */
  lemma StatusTextReadsBack(version: string, s: Status.HttpStatus)
    requires ' ' !in version
    ensures ResponseParser.StatusLine(version, Status.Code(s), Status.Reason(s)) == version + " " + Status.ToString(s)
    ensures ResponseParser.ParseStatusLine(version + " " + Status.ToString(s))
      == Ok((version, Status.Code(s), Status.Reason(s)))
    ensures Status.FromCode(Status.Code(s)) == s
  {
    var c := Numbers.IntToString(Status.Code(s));
    var text := Status.ToString(s);
    assert text == c + " " + Status.Reason(s);
    assert version + " " + c + " " + Status.Reason(s) == version + " " + text;
    Status.CodeRange(s);
    ResponseParser.ParseStatusLineOf(version, Status.Code(s), Status.Reason(s));
    Status.FromCodeOfCode(s);
  }

  /** The bytes of a response with a non-empty body, split at the status line. */
  lemma BuildSplits(r: Response, rest: seq<byte>)
    requires r.body.Some? && |r.body.value| > 0
    ensures Build(r) + rest
      == Encode(ResponseParser.StatusLine(r.version, Status.Code(r.status), Status.Reason(r.status))) + CRLF
         + (Encode(Wire.FieldLines(r.headers) + "\r\n") + (r.body.value + rest))
  {
    var line := ResponseParser.StatusLine(r.version, Status.Code(r.status), Status.Reason(r.status));
    var block := Encode(Wire.FieldLines(r.headers) + "\r\n");
    Wire.EncodeLine(line, Wire.FieldLines(r.headers) + "\r\n");
    assert Build(r) == Encode(line) + CRLF + block + r.body.value;
    Wire.AppendAssoc(Encode(line), CRLF, block, r.body.value + rest);
  }

  /** A positive Content-Length makes the client read exactly that many bytes. */
  lemma ReadBodyOfLength(h: Headers.Fields, b: seq<byte>, rest: seq<byte>)
    requires Headers.ContentLength(h) == |b| > 0
    ensures ResponseParser.ReadBody(h, b + rest) == Ok((Some(b), rest))
  {
    Wire.ReadFixedExact(b, rest);
  }

  /** The header block of a well-formed response reads back as its headers. */
  lemma ReadHeadersBack(r: Response, after: seq<byte>)
    requires WellFormed(r)
    ensures Wire.ReadFields(Encode(Wire.FieldLines(r.headers) + "\r\n") + after, []) == (r.headers, after)
  {
    Wire.ReadFieldsRoundTrip(r.headers, after);
  }

  /** A response with a non-empty body parses back into its parts once its
      status line is valid and its header block and body read back exactly. */
  lemma ParseBuilt(r: Response, b: seq<byte>, rest: seq<byte>)
    requires Wire.IsLineText(r.version) && ' ' !in r.version
    requires r.body == Some(b) && |b| > 0
    requires Wire.ReadFields(Encode(Wire.FieldLines(r.headers) + "\r\n") + (b + rest), []) == (r.headers, b + rest)
    requires ResponseParser.ReadBody(r.headers, b + rest) == Ok((Some(b), rest))
    ensures ResponseParser.Parse(Build(r) + rest)
      == Ok((ResponseParser.Response(r.version, Status.Code(r.status), Status.Reason(r.status), r.headers, Some(b)), rest))
  {
    var line := ResponseParser.StatusLine(r.version, Status.Code(r.status), Status.Reason(r.status));
    var more := Encode(Wire.FieldLines(r.headers) + "\r\n") + (b + rest);
    var parsed := ResponseParser.Response(r.version, Status.Code(r.status), Status.Reason(r.status), r.headers, Some(b));
    calc {
      ResponseParser.Parse(Build(r) + rest);
      { BuildSplits(r, rest); }
      ResponseParser.Parse(Encode(line) + CRLF + more);
      { ParseAfterStatusLine(r, more); }
      Ok((parsed, rest));
    }
  }

  /** Server-to-client round trip: the client's parser reads a built
      response with a non-empty body set by `setBody` back into its version,
      status code, reason phrase, headers and body, and stops right after it. */
  lemma BuildParseRoundTrip(r: Response, b: seq<byte>, rest: seq<byte>)
    requires WellFormed(r) && 0 < |b| <= Numbers.IntMax
    ensures var rb := SetBody(r, Some(b));
      ResponseParser.Parse(Build(rb) + rest)
      == Ok((ResponseParser.Response(r.version, Status.Code(r.status), Status.Reason(r.status), rb.headers, Some(b)), rest))
  {
    var rb := SetBody(r, Some(b));
    SetBodyWellFormed(r, b);
    ReadHeadersBack(rb, b + rest);
    ReadBodyOfLength(rb.headers, b, rest);
    ParseBuilt(rb, b, rest);
  }
}
