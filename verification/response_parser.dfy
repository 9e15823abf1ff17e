/** The client's response reader (`HttpResponseParser`): status line, header
    block, and a body framed by Content-Length or by chunked coding. */
module ResponseParser {
  import opened Wrappers
  import opened Bytes
  import Text
  import Numbers
  import Headers
  import Wire

  datatype Response = Response(
    version: string,
    code: int,
    reason: string,
    headers: Headers.Fields,
    body: Option<seq<byte>>)

  /** The IOExceptions of `parse`, and the NegativeArraySizeException that a
      negative chunk size raises. */
  datatype ParseError =
    | EmptyResponse
    | InvalidStatusLine(line: string)
    | InvalidStatusCode(token: string)
    | NegativeChunkSize

  /** `parseStatusLine`: at most three parts on ' '; the second must be an
      int; the reason phrase is the third part, spaces and all, or "". */
  function ParseStatusLine(line: string): (r: Result<(string, int, string), ParseError>)
    ensures r.Err? ==> r.error.InvalidStatusLine? || r.error.InvalidStatusCode?
    ensures r.Err? && r.error.InvalidStatusLine? <==> ' ' !in line
    ensures r.Ok? ==> Numbers.IsInt32(r.value.1)
    ensures r.Ok? ==> ' ' !in r.value.0
  {
    var parts := Text.SplitLimit(line, ' ', 3);
    if |parts| < 2 then
      assert parts == [line];
      Err(InvalidStatusLine(line))
    else
      assert ' ' in line by {
        Text.JoinCons(parts[0], parts[1..], ' ');
        assert parts == [parts[0]] + parts[1..];
        assert line[|parts[0]|] == ' ';
      }
      match Numbers.ParseInt(parts[1], 10)
      case None => Err(InvalidStatusCode(parts[1]))
      case Some(code) => Ok((parts[0], code, if |parts| > 2 then parts[2] else ""))
  }

  /** `isChunkedTransfer`: Transfer-Encoding equals "chunked" ignoring case. */
  predicate IsChunkedTransfer(h: Headers.Fields) {
    var te := Headers.GetIgnoreCase(h, "Transfer-Encoding");
    te.Some? && Text.EqualsIgnoreCase(te.value, "chunked")
  }

  /** The body step of `parse`: a positive Content-Length wins; otherwise
      chunked coding when Transfer-Encoding says so; otherwise no body. */
  function ReadBody(h: Headers.Fields, input: seq<byte>): (r: Result<(Option<seq<byte>>, seq<byte>), ParseError>)
    ensures Headers.ContentLength(h) > 0 ==>
      r.Ok? && r.value.0.Some? && |r.value.0.value| == Headers.ContentLength(h)
    ensures Headers.ContentLength(h) <= 0 && !IsChunkedTransfer(h) ==> r == Ok((None, input))
    ensures r.Err? ==> r.error == NegativeChunkSize && IsChunkedTransfer(h)
    ensures r.Ok? ==> |r.value.1| <= |input|
  {
    var n := Headers.ContentLength(h);
    if n > 0 then
      var (body, rest) := Wire.ReadFixed(input, n);
      Ok((Some(body), rest))
    else if IsChunkedTransfer(h) then
      match Wire.ReadChunked(input, [])
      case None => Err(NegativeChunkSize)
      case Some((body, rest)) => Ok((Some(body), rest))
    else Ok((None, input))
  }

  /** `parse`: the response at the front of `input` and what follows it. */
  function Parse(input: seq<byte>): (r: Result<(Response, seq<byte>), ParseError>)
    ensures var line := Wire.ReadLine(input).0;
      (r.Err? && r.error == EmptyResponse) <==> (line.None? || line.value == "")
    ensures r.Ok? ==> |r.value.1| < |input|
  {
    var (line, rest) := Wire.ReadLine(input);
    if line.None? || line.value == "" then Err(EmptyResponse)
    else
      var (version, code, reason) :- ParseStatusLine(line.value);
      var (fields, rest2) := Wire.ReadFields(rest, []);
      var (body, rest3) :- ReadBody(fields, rest2);
      Ok((Response(version, code, reason, fields, body), rest3))
  }

  /** `getHeader`: case-insensitive over the stored names. */
  function GetHeader(r: Response, name: string): (v: Option<string>)
    ensures v.None? <==> forall i :: 0 <= i < |r.headers| ==> !Text.EqualsIgnoreCase(r.headers[i].name, name)
  {
    Headers.GetIgnoreCase(r.headers, name)
  }

  function IsKeepAlive(r: Response): bool {
    Headers.KeepAlive(r.headers, r.version)
  }

  /** `isRedirect`: 301, 302, 303, 307 or 308. */
  predicate IsRedirect(code: int) {
    code == 301 || code == 302 || code == 303 || code == 307 || code == 308
  }

  /** `isNotModified`: 304. */
  predicate IsNotModified(code: int) {
    code == 304
  }

  /** The redirect codes are exactly five, all in the 3xx class, and 304 is
      not among them. */
  lemma RedirectCodes(code: int)
    ensures IsRedirect(code) <==> code in {301, 302, 303, 307, 308}
    ensures IsRedirect(code) ==> 300 <= code < 400 && !IsNotModified(code)
  {
  }

  /** The status line `version SP code SP reason` as the server writes it. */
  function StatusLine(version: string, code: int, reason: string): string {
    version + " " + Numbers.IntToString(code) + " " + reason
  }

  /** A status line written with an int code and a version without spaces
      parses back into its three parts; the reason may contain spaces. */
  lemma ParseStatusLineOf(version: string, code: int, reason: string)
    requires ' ' !in version && Numbers.IsInt32(code)
    ensures ParseStatusLine(StatusLine(version, code, reason)) == Ok((version, code, reason))
  {
    var c := Numbers.IntToString(code);
    Numbers.IntToStringChars(code);
    assert ' ' !in c by {
      forall i | 0 <= i < |c| ensures c[i] != ' ' {
        assert c[i] == '-' || '0' <= c[i] <= '9';
      }
    }
    assert StatusLine(version, code, reason) == version + [' '] + c + [' '] + reason;
    Text.SplitLimitThree(version, c, reason, ' ');
    Numbers.ParseIntToString(code);
  }
}
