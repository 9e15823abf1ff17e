/** The server's request reader (`RequestParser.parse`): one request from the
    front of the connection's input, with the input that remains. */
module RequestParser {
  import opened Wrappers
  import opened Bytes
  import Text
  import Headers
  import Methods
  import Wire
  import HttpRequest

  datatype ParseError = InvalidRequestLine(line: string)

  /** The outcome of reading a request line: none, or the request and the rest. */
  type Parsed = Option<(HttpRequest.Request, seq<byte>)>

  /** `parse`. No request (Java's null) when the first line is missing or
      empty; an error when the line does not split on ' ' into exactly three
      tokens; otherwise the header block and, only for a positive
      Content-Length, a body of exactly that many bytes. */
  function Parse(input: seq<byte>): (r: Result<Parsed, ParseError>)
    ensures var line := Wire.ReadLine(input).0;
      (r.Ok? && r.value.None?) <==> (line.None? || line.value == "")
    ensures var line := Wire.ReadLine(input).0;
      r.Err? <==> (line.Some? && line.value != "" && |Text.Split(line.value, ' ')| != 3)
    ensures r.Ok? && r.value.Some? ==> |r.value.value.1| < |input|
  {
    var (line, rest) := Wire.ReadLine(input);
    if line.None? || line.value == "" then Ok(None)
    else
      var parts := Text.Split(line.value, ' ');
      if |parts| != 3 then Err(InvalidRequestLine(line.value))
      else
        var (fields, rest2) := Wire.ReadFields(rest, []);
        var req := HttpRequest.FromRequestLine(parts[0], parts[1], parts[2]).(headers := fields);
        Ok(Some(ReadBody(req, rest2)))
  }

  /** The body step of `parse`: with a positive Content-Length, exactly that
      many bytes (zero-padded at end of input) become the body and the form
      data is parsed from it; otherwise there is no body and nothing is read.
      Transfer-Encoding is not consulted. */
  function ReadBody(req: HttpRequest.Request, input: seq<byte>): (r: (HttpRequest.Request, seq<byte>))
    ensures r.0.headers == req.headers && r.0.verb == req.verb && r.0.uri == req.uri && r.0.version == req.version
    ensures Headers.ContentLength(req.headers) <= 0 ==> r == (req, input)
    ensures Headers.ContentLength(req.headers) > 0 ==>
      r.0.body.Some? && |r.0.body.value| == Headers.ContentLength(req.headers)
    ensures |r.1| <= |input|
  {
    var n := Headers.ContentLength(req.headers);
    if n > 0 then
      var (body, rest) := Wire.ReadFixed(input, n);
      (req.(body := Some(body), formData := HttpRequest.FormData(req.headers, Some(body))), rest)
    else
      (req, input)
  }

  /** A request-line token: line text without spaces. */
  predicate IsToken(s: string) {
    Wire.IsLineText(s) && ' ' !in s
  }

  /** The request line `token SP uri SP version`. */
  function RequestLine(token: string, uri: string, version: string): string {
    token + " " + uri + " " + version
  }

  lemma RequestLineIsLine(token: string, uri: string, version: string)
    requires IsToken(token) && IsToken(uri) && IsToken(version) && version != ""
    ensures Wire.IsLineText(RequestLine(token, uri, version))
    ensures Text.Split(RequestLine(token, uri, version), ' ') == [token, uri, version]
  {
    Wire.LineTextAppend(token, " ");
    Wire.LineTextAppend(token + " ", uri);
    Wire.LineTextAppend(token + " " + uri, " ");
    Wire.LineTextAppend(token + " " + uri + " ", version);
    assert RequestLine(token, uri, version) == token + [' '] + uri + [' '] + version;
    Text.SplitThree(token, uri, version, ' ');
  }

  /** The request head followed by the body and more input, split at the
      request line. */
  lemma HeadSplits(line: string, fs: Headers.Fields, body: seq<byte>, rest: seq<byte>)
    ensures Encode(line + "\r\n" + (Wire.FieldLines(fs) + "\r\n")) + body + rest
         == Encode(line) + CRLF + (Encode(Wire.FieldLines(fs) + "\r\n") + (body + rest))
  {
    Wire.EncodeLine(line, Wire.FieldLines(fs) + "\r\n");
    var a, b := Encode(line), Encode(Wire.FieldLines(fs) + "\r\n");
    assert (a + CRLF + b) + body + rest == a + CRLF + (b + (body + rest));
  }

  /** A well-formed request line is accepted and the rest is read as head and body. */
  lemma ParseAfterLine(token: string, uri: string, version: string, more: seq<byte>)
    requires IsToken(token) && IsToken(uri) && IsToken(version) && version != ""
    ensures Parse(Encode(RequestLine(token, uri, version)) + CRLF + more)
         == Ok(Some(ReadBody(
              HttpRequest.FromRequestLine(token, uri, version).(headers := Wire.ReadFields(more, []).0),
              Wire.ReadFields(more, []).1)))
  {
    var line := RequestLine(token, uri, version);
    RequestLineIsLine(token, uri, version);
    Wire.ReadLineOfLine(line, more);
    assert line != "";
  }

  /** A line that does not split into three tokens is an error. */
  lemma RejectedLine(line: string, more: seq<byte>)
    requires Wire.IsLineText(line) && line != "" && |Text.Split(line, ' ')| != 3
    ensures Parse(Encode(line) + CRLF + more).Err?
  {
    Wire.ReadLineOfLine(line, more);
  }

  /** A doubled space in the request line makes four tokens, which `parse`
      rejects, although each token on its own is fine. */
  lemma DoubleSpaceRejected(token: string, uri: string, version: string, more: seq<byte>)
    requires IsToken(token) && IsToken(uri) && IsToken(version) && version != ""
    ensures Parse(Encode(token + "  " + uri + " " + version) + CRLF + more).Err?
  {
    DoubleSpaceLine(token, uri, version);
    RejectedLine(token + "  " + uri + " " + version, more);
  }

  lemma DoubleSpaceLine(token: string, uri: string, version: string)
    requires IsToken(token) && IsToken(uri) && IsToken(version) && version != ""
    ensures Wire.IsLineText(token + "  " + uri + " " + version)
    ensures Text.Split(token + "  " + uri + " " + version, ' ') == [token, "", uri, version]
  {
    var line := token + "  " + uri + " " + version;
    Wire.LineTextAppend(token, "  ");
    Wire.LineTextAppend(token + "  ", uri);
    Wire.LineTextAppend(token + "  " + uri, " ");
    Wire.LineTextAppend(token + "  " + uri + " ", version);
    assert line == token + [' '] + ([' '] + (uri + [' '] + version));
    Text.SplitDoubleSeparator(token, uri, version, ' ');
  }

  /** Server-side round trip: a request line of three tokens, a well-formed
      header block whose Content-Length states the body's length, and the
      body are parsed back into exactly those parts, and parsing stops where
      the body ends. */
  lemma ParseRoundTrip(token: string, uri: string, version: string, fs: Headers.Fields,
                       body: seq<byte>, rest: seq<byte>)
    requires IsToken(token) && IsToken(uri) && IsToken(version) && version != ""
    requires Headers.UniqueNames(fs)
    requires forall k :: 0 <= k < |fs| ==> Wire.WellFormedField(fs[k])
    requires Headers.ContentLength(fs) == |body|
    ensures var r := Parse(Encode(RequestLine(token, uri, version) + "\r\n" + (Wire.FieldLines(fs) + "\r\n")) + body + rest);
      && r.Ok? && r.value.Some?
      && r.value.value.0.verb == Methods.FromString(Some(token))
      && r.value.value.0.uri == uri
      && r.value.value.0.version == version
      && r.value.value.0.headers == fs
      && r.value.value.0.body == (if |body| > 0 then Some(body) else None)
      && r.value.value.1 == rest
  {
    var line := RequestLine(token, uri, version);
    HeadSplits(line, fs, body, rest);
    var afterLine := Encode(Wire.FieldLines(fs) + "\r\n") + (body + rest);
    ParseAfterLine(token, uri, version, afterLine);
    Wire.ReadFieldsRoundTrip(fs, body + rest);
    var req := HttpRequest.FromRequestLine(token, uri, version).(headers := fs);
    if |body| > 0 {
      Wire.ReadFixedExact(body, rest);
      assert ReadBody(req, body + rest).1 == rest;
    } else {
      assert body + rest == rest;
    }
  }
}
