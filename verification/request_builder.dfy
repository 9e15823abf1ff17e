/** The client's request serialiser (`HttpRequestBuilder`): a fluent builder
    whose `build` writes the request line, a Host line, the stored headers,
    a Content-Length for a non-empty body, the empty line and the body.
    URL encoding of query and form pairs (`URLEncoder`) is the identity here. */
module RequestBuilder {
  import opened Wrappers
  import opened Bytes
  import Text
  import Numbers
  import Headers
  import Methods
  import Wire
  import HttpRequest
  import RequestParser
  import HttpResponse

  const UserAgent: string := "SimpleHttpClient/1.0"
  const JsonType: string := "application/json; charset=UTF-8"
  const FormType: string := HttpRequest.FormType
  const Version: string := "HTTP/1.1"

  /** The builder's fields. A null host is `None`. The stored headers and
      the query parameters are `LinkedHashMap`s. */
  datatype Builder = Builder(
    verb: Methods.HttpMethod,
    host: Option<string>,
    port: int,
    path: string,
    headers: Headers.Fields,
    query: Headers.Fields,
    body: Option<string>)

  /** `new HttpRequestBuilder()`: GET, port 80, path "/", no host, no query,
      no body, and the User-Agent, Accept and keep-alive headers in order. */
  function New(): (b: Builder)
    ensures b.verb == Methods.Get && b.port == 80 && b.path == "/"
    ensures b.host.None? && b.query == [] && b.body.None?
    ensures Headers.Names(b.headers) == ["User-Agent", "Accept", "Connection"]
    ensures Headers.Get(b.headers, "User-Agent") == Some(UserAgent)
    ensures Headers.Get(b.headers, "Accept") == Some("*/*")
    ensures Headers.Get(b.headers, "Connection") == Some("keep-alive")
    ensures Headers.UniqueNames(b.headers)
  {
    var h := [Headers.Field("User-Agent", UserAgent), Headers.Field("Accept", "*/*"), Headers.Field("Connection", "keep-alive")];
    Builder(Methods.Get, None, 80, "/", h, [], None)
  }

  function WithMethod(b: Builder, m: Methods.HttpMethod): Builder {
    b.(verb := m)
  }

  function WithHost(b: Builder, host: string): Builder {
    b.(host := Some(host))
  }

  function WithPort(b: Builder, port: int): Builder {
    b.(port := port)
  }

  function WithPath(b: Builder, path: string): Builder {
    b.(path := path)
  }

  function WithBody(b: Builder, body: string): Builder {
    b.(body := Some(body))
  }

  /** `header(name, value)`: last write wins at the name's first position;
      nothing else changes. */
  function Header(b: Builder, name: string, value: string): (r: Builder)
    ensures Headers.Get(r.headers, name) == Some(value)
    ensures forall other :: other != name ==> Headers.Get(r.headers, other) == Headers.Get(b.headers, other)
    ensures Headers.Names(r.headers) ==
      if name in Headers.Names(b.headers) then Headers.Names(b.headers) else Headers.Names(b.headers) + [name]
    ensures Headers.UniqueNames(b.headers) ==> Headers.UniqueNames(r.headers)
    ensures r.(headers := b.headers) == b
  {
    Headers.GetPutSame(b.headers, name, value);
    forall other | other != name
      ensures Headers.Get(Headers.Put(b.headers, name, value), other) == Headers.Get(b.headers, other)
    {
      Headers.GetPutOther(b.headers, name, value, other);
    }
    Headers.PutNames(b.headers, name, value);
    assert Headers.UniqueNames(b.headers) ==> Headers.UniqueNames(Headers.Put(b.headers, name, value)) by {
      if Headers.UniqueNames(b.headers) {
        Headers.PutUnique(b.headers, name, value);
      }
    }
    b.(headers := Headers.Put(b.headers, name, value))
  }

  /** `queryParam(name, value)`, with the same map semantics. */
  function QueryParam(b: Builder, name: string, value: string): (r: Builder)
    ensures Headers.Get(r.query, name) == Some(value)
    ensures forall other :: other != name ==> Headers.Get(r.query, other) == Headers.Get(b.query, other)
    ensures Headers.UniqueNames(b.query) ==> Headers.UniqueNames(r.query)
    ensures r.(query := b.query) == b
  {
    Headers.GetPutSame(b.query, name, value);
    forall other | other != name
      ensures Headers.Get(Headers.Put(b.query, name, value), other) == Headers.Get(b.query, other)
    {
      Headers.GetPutOther(b.query, name, value, other);
    }
    assert Headers.UniqueNames(b.query) ==> Headers.UniqueNames(Headers.Put(b.query, name, value)) by {
      if Headers.UniqueNames(b.query) {
        Headers.PutUnique(b.query, name, value);
      }
    }
    b.(query := Headers.Put(b.query, name, value))
  }

  /** `k=v` for each pair, in order. */
  function PairTexts(q: Headers.Fields): (r: seq<string>)
    ensures |r| == |q|
    ensures forall i :: 0 <= i < |q| ==> r[i] == q[i].name + "=" + q[i].value
  {
    seq(|q|, i requires 0 <= i < |q| => q[i].name + "=" + q[i].value)
  }

  /** The pairs joined with '&' (the form body and the query string). */
  function Pairs(q: Headers.Fields): string {
    Text.Join(PairTexts(q), '&')
  }

  /** `jsonBody(json)`: the body and the JSON Content-Type. */
  function JsonBody(b: Builder, json: string): (r: Builder)
    ensures r.body == Some(json)
    ensures Headers.Get(r.headers, "Content-Type") == Some(JsonType)
  {
    Header(b, "Content-Type", JsonType).(body := Some(json))
  }

  /** `formBody(formData)`: the pairs as the body and the form Content-Type. */
  function FormBody(b: Builder, form: Headers.Fields): (r: Builder)
    ensures r.body == Some(Pairs(form))
    ensures Headers.Get(r.headers, "Content-Type") == Some(FormType)
  {
    Header(b, "Content-Type", FormType).(body := Some(Pairs(form)))
  }

  /** `ifModifiedSince(date)`. */
  function IfModifiedSince(b: Builder, date: string): (r: Builder)
    ensures Headers.Get(r.headers, "If-Modified-Since") == Some(date)
  {
    Header(b, "If-Modified-Since", date)
  }

  /** `buildUri`: the path alone without parameters, otherwise the path, '?'
      and the pairs. */
  function Uri(b: Builder): string {
    if b.query == [] then b.path else b.path + "?" + Pairs(b.query)
  }

  // ---------------------------------------------------------------------------
  // build
  // ---------------------------------------------------------------------------

  /** The Host value: the host (Java writes "null" for a missing one) and the
      port unless it is 80. */
  function HostValue(b: Builder): string {
    var host := if b.host.Some? then b.host.value else "null";
    if b.port == 80 then host else host + ":" + Numbers.IntToString(b.port)
  }

  predicate IsHost(name: string) {
    Text.EqualsIgnoreCase(name, "Host")
  }

  /** `x` comes before `y` in `h`. */
  predicate OrderedIn(h: Headers.Fields, x: Headers.Field, y: Headers.Field) {
    exists a, b :: 0 <= a < b < |h| && h[a] == x && h[b] == y
  }

  /** Any two fields of `r` appear in `h` in the same order. */
  predicate KeepsOrder(r: Headers.Fields, h: Headers.Fields) {
    forall i, j {:trigger OrderedIn(h, r[i], r[j])} :: 0 <= i < j < |r| ==> OrderedIn(h, r[i], r[j])
  }

  /** An order kept in the rest of `h` is kept in `h`, also with `h`'s
      first field put in front. */
  lemma OrderAfterHead(h: Headers.Fields, tail: Headers.Fields)
    requires |h| > 0 && KeepsOrder(tail, h[1..])
    requires forall f :: f in tail ==> f in h[1..]
    ensures KeepsOrder(tail, h)
    ensures KeepsOrder([h[0]] + tail, h)
  {
    forall i, j | 0 <= i < j < |tail| ensures OrderedIn(h, tail[i], tail[j]) {
      assert OrderedIn(h[1..], tail[i], tail[j]);
      var a, b :| 0 <= a < b < |h[1..]| && h[1..][a] == tail[i] && h[1..][b] == tail[j];
      assert h[a + 1] == tail[i] && h[b + 1] == tail[j];
    }
    var r := [h[0]] + tail;
    forall i, j | 0 <= i < j < |r| ensures OrderedIn(h, r[i], r[j]) {
      assert r[j] == tail[j - 1];
      if i == 0 {
        assert r[j] in h[1..];
        var b :| 0 <= b < |h[1..]| && h[1..][b] == r[j];
        assert h[0] == r[0] && h[b + 1] == r[j];
      } else {
        assert r[i] == tail[i - 1];
        assert OrderedIn(h, tail[i - 1], tail[j - 1]);
      }
    }
  }

  /** The stored headers that are written: those not named Host in any
      case, in the order the builder holds them. */
  function WithoutHost(h: Headers.Fields): (r: Headers.Fields)
    ensures forall f :: f in r <==> f in h && !IsHost(f.name)
    ensures KeepsOrder(r, h)
    ensures |r| <= |h|
    ensures Headers.UniqueNames(h) ==> Headers.UniqueNames(r)
  {
    if |h| == 0 then []
    else
      var tail := WithoutHost(h[1..]);
      assert forall f :: f in h <==> f == h[0] || f in h[1..];
      assert Headers.UniqueNames(h) ==> forall f :: f in tail ==> f.name != h[0].name by {
        if Headers.UniqueNames(h) {
          forall f | f in tail ensures f.name != h[0].name {
            var k :| 0 <= k < |h[1..]| && h[1..][k] == f;
            assert h[k + 1] == f;
          }
        }
      }
      OrderAfterHead(h, tail);
      if IsHost(h[0].name) then tail else [h[0]] + tail
  }

  /** Whether a Content-Length line and the body are written. */
  predicate HasBody(b: Builder) {
    b.body.Some? && b.body.value != ""
  }

  /** The text of the body as written (nothing for a null or empty body). */
  function BodyText(b: Builder): string {
    if HasBody(b) then b.body.value else ""
  }

  /** The Content-Length line, when there is a body. */
  function LengthField(body: string): (r: Headers.Fields)
    ensures body == "" <==> r == []
    ensures body != "" ==> r == [Headers.Field("Content-Length", Numbers.IntToString(|Encode(body)|))]
  {
    if body == "" then [] else [Headers.Field("Content-Length", Numbers.IntToString(|Encode(body)|))]
  }

  /** The header lines `build` writes, in order: Host, the stored headers but
      Host, and Content-Length as the UTF-8 length of a non-empty body. */
  function SentFields(b: Builder): (r: Headers.Fields)
    ensures |r| >= 1 && r[0] == Headers.Field("Host", HostValue(b))
    ensures forall f :: f in r[1..] && f.name != "Content-Length" ==> f in b.headers && !IsHost(f.name)
    ensures forall f :: f in b.headers && !IsHost(f.name) ==> f in r
    ensures |r| >= 1 + |WithoutHost(b.headers)| && KeepsOrder(r[1..1 + |WithoutHost(b.headers)|], b.headers)
    ensures HasBody(b) ==>
      r[|r| - 1] == Headers.Field("Content-Length", Numbers.IntToString(|Encode(b.body.value)|))
  {
    [Headers.Field("Host", HostValue(b))] + WithoutHost(b.headers) + LengthField(BodyText(b))
  }

  /** The request line, the header lines and the empty line. */
  function Head(b: Builder): string {
    RequestParser.RequestLine(Methods.Name(b.verb), Uri(b), Version) + "\r\n"
      + (Wire.FieldLines(SentFields(b)) + "\r\n")
  }

  /** `build`: the request line with version HTTP/1.1, the header lines, the
      empty line, then the body text verbatim. */
  function Build(b: Builder): string {
    Head(b) + BodyText(b)
  }

  // ---------------------------------------------------------------------------
  // Properties
  // ---------------------------------------------------------------------------

  /** The query string `buildUri` writes is the one the server's
      `parseQueryString` reads back, pair for pair, when names are free of
      '&' and '=' and values of '&'. */
  lemma QueryRoundTrip(q: Headers.Fields, i: nat)
    requires 1 <= |q| && i < |q| && Headers.UniqueNames(q)
    requires forall k :: 0 <= k < |q| ==> '&' !in q[k].name && '=' !in q[k].name && '&' !in q[k].value
    ensures q[i].name in HttpRequest.ParsePairs(Pairs(q))
    ensures HttpRequest.ParsePairs(Pairs(q))[q[i].name] == q[i].value
  {
    var ps := PairTexts(q);
    forall k | 0 <= k < |ps| ensures '&' !in ps[k] {
      assert ps[k] == q[k].name + "=" + q[k].value;
    }
    Text.SplitJoin(ps, '&');
    assert Pairs(q) != "" by {
      assert |Pairs(q)| >= |ps[0]| by { JoinLength(ps, '&'); }
    }
    forall k | 0 <= k < |ps|
      ensures HttpRequest.PairKey(ps[k]) == q[k].name && HttpRequest.PairValue(ps[k]) == q[k].value
    {
      PairParts(q[k].name, q[k].value);
    }
    HttpRequest.PutPairsLastWins(map[], ps, i);
  }

  /** The form body `formBody` writes, sent with its Content-Type, is the
      form data the server's `parseFormData` reads, pair for pair, under the
      conditions of the query string and for ASCII text. */
  lemma FormRoundTrip(b: Builder, h: Headers.Fields, q: Headers.Fields, i: nat)
    requires Headers.GetIgnoreCase(h, "Content-Type") == Headers.Get(FormBody(b, q).headers, "Content-Type")
    requires 1 <= |q| && i < |q| && Headers.UniqueNames(q)
    requires forall k :: 0 <= k < |q| ==> '&' !in q[k].name && '=' !in q[k].name && '&' !in q[k].value
    requires forall k :: 0 <= k < |q| ==> IsAscii(q[k].name) && IsAscii(q[k].value)
    ensures q[i].name in HttpRequest.FormData(h, Some(Encode(FormBody(b, q).body.value)))
    ensures HttpRequest.FormData(h, Some(Encode(FormBody(b, q).body.value)))[q[i].name] == q[i].value
  {
    FormPairsRoundTrip(h, q, i);
  }

  /** The pairs joined with '&', posted with the form type, read back. */
  lemma FormPairsRoundTrip(h: Headers.Fields, q: Headers.Fields, i: nat)
    requires Headers.GetIgnoreCase(h, "Content-Type") == Some(FormType)
    requires 1 <= |q| && i < |q| && Headers.UniqueNames(q)
    requires forall k :: 0 <= k < |q| ==> '&' !in q[k].name && '=' !in q[k].name && '&' !in q[k].value
    requires forall k :: 0 <= k < |q| ==> IsAscii(q[k].name) && IsAscii(q[k].value)
    ensures q[i].name in HttpRequest.FormData(h, Some(Encode(Pairs(q))))
    ensures HttpRequest.FormData(h, Some(Encode(Pairs(q))))[q[i].name] == q[i].value
  {
    var text := Pairs(q);
    var ps := PairTexts(q);
    PairTextsAscii(q);
    JoinAscii(ps, '&');
    DecodeEncode(text);
    assert |text| > 0 by {
      JoinLength(ps, '&');
      assert ps[0] == q[0].name + "=" + q[0].value;
    }
    Text.ContainsSelf(FormType);
    assert HttpRequest.IsForm(h, Some(Encode(text)));
    QueryRoundTrip(q, i);
  }

  /** Each `name=value` of ASCII names and values is ASCII. */
  lemma PairTextsAscii(q: Headers.Fields)
    requires forall k :: 0 <= k < |q| ==> IsAscii(q[k].name) && IsAscii(q[k].value)
    ensures forall k :: 0 <= k < |q| ==> IsAscii(PairTexts(q)[k])
  {
    forall k | 0 <= k < |q| ensures IsAscii(PairTexts(q)[k]) {
      AsciiAppend(q[k].name, "=");
      AsciiAppend(q[k].name + "=", q[k].value);
    }
  }

  /** Joining ASCII pieces with an ASCII separator gives ASCII text. */
  lemma {:induction false} JoinAscii(ps: seq<string>, sep: char)
    requires sep < 128 as char
    requires forall k :: 0 <= k < |ps| ==> IsAscii(ps[k])
    ensures IsAscii(Text.Join(ps, sep))
    decreases |ps|
  {
    if |ps| > 1 {
      JoinAscii(ps[1..], sep);
      AsciiAppend(ps[0], [sep]);
      AsciiAppend(ps[0] + [sep], Text.Join(ps[1..], sep));
    }
  }

  lemma JoinLength(ps: seq<string>, sep: char)
    requires |ps| >= 1
    ensures |Text.Join(ps, sep)| >= |ps[0]|
  {
  }

  /** `k=v` splits back at its first '=' when the key has none. */
  lemma PairParts(k: string, v: string)
    requires '=' !in k
    ensures HttpRequest.PairKey(k + "=" + v) == k && HttpRequest.PairValue(k + "=" + v) == v
  {
    Text.IndexOfAfterPrefix(k, '=', v);
    assert k + "=" + v == k + ['='] + v;
    var p := k + "=" + v;
    assert p[..|k|] == k && p[|k| + 1..] == v;
  }

  /** The URI splits back into the path and the query string at the '?' the
      builder inserts, when the path has none. */
  lemma UriRoundTrip(b: Builder)
    requires '?' !in b.path
    ensures HttpRequest.ParseUri(Some(Uri(b))) == (b.path, if b.query == [] then "" else Pairs(b.query))
  {
    if b.query != [] {
      Text.IndexOfAfterPrefix(b.path, '?', Pairs(b.query));
      assert Uri(b) == b.path + ['?'] + Pairs(b.query);
      var u := Uri(b);
      assert u[..|b.path|] == b.path && u[|b.path| + 1..] == Pairs(b.query);
    }
  }

  /** What the server's parser needs of a builder to read its output back:
      a URI without spaces, a Host line and stored headers that survive
      `Name: Value` serialisation, distinct stored names, no stored
      Content-Length in any letter case, and a body whose UTF-8 length is an
      int. */
  predicate Sendable(b: Builder) {
    && RequestParser.IsToken(Uri(b))
    && Wire.WellFormedField(Headers.Field("Host", HostValue(b)))
    && Headers.UniqueNames(b.headers)
    && (forall k :: 0 <= k < |b.headers| ==> Wire.WellFormedField(b.headers[k]))
    && (forall k :: 0 <= k < |b.headers| ==> !Text.EqualsIgnoreCase(b.headers[k].name, "Content-Length"))
    && Numbers.IsInt32(|Encode(BodyText(b))|)
  }

  lemma HostIsNotContentLength()
    ensures !Text.EqualsIgnoreCase("Host", "Content-Length")
    ensures IsHost("Host")
  {
    assert |Text.ToLower("Host")| != |Text.ToLower("Content-Length")|;
  }

  /** A Host line, then fields named neither Host nor Content-Length, then
      at most a Content-Length line: no name repeats. */
  lemma BlockUnique(host: Headers.Field, kept: Headers.Fields, length: Headers.Fields)
    requires host.name == "Host" && Headers.UniqueNames(kept)
    requires forall f :: f in kept ==> f.name != "Host" && f.name != "Content-Length"
    requires length == [] || (|length| == 1 && length[0].name == "Content-Length")
    ensures Headers.UniqueNames([host] + kept + length)
  {
    var fs := [host] + kept + length;
    forall i, j | 0 <= i < j < |fs| ensures fs[i].name != fs[j].name {
      if 0 < i && j <= |kept| {
        assert fs[i] == kept[i - 1] && fs[j] == kept[j - 1];
      } else if j <= |kept| {
        assert fs[j] in kept;
      } else if i > 0 {
        assert fs[i] in kept;
      }
    }
  }

  /** The fields `build` writes are all well-formed. */
  lemma BlockWellFormed(b: Builder)
    requires Sendable(b)
    ensures forall k :: 0 <= k < |SentFields(b)| ==> Wire.WellFormedField(SentFields(b)[k])
  {
    KeptWellFormed(b.headers);
    LengthWellFormed(BodyText(b));
    JoinWellFormed(Headers.Field("Host", HostValue(b)), WithoutHost(b.headers), LengthField(BodyText(b)));
  }

  /** Dropping Host keeps only well-formed fields of well-formed ones. */
  lemma KeptWellFormed(h: Headers.Fields)
    requires forall k :: 0 <= k < |h| ==> Wire.WellFormedField(h[k])
    ensures forall f :: f in WithoutHost(h) ==> Wire.WellFormedField(f)
  {
    forall f | f in WithoutHost(h) ensures Wire.WellFormedField(f) {
      var k :| 0 <= k < |h| && h[k] == f;
    }
  }

  /** The Content-Length line, if any, is well-formed. */
  lemma LengthWellFormed(body: string)
    ensures forall f :: f in LengthField(body) ==> Wire.WellFormedField(f)
  {
    if body != "" {
      HttpResponse.ContentLengthFieldWellFormed(|Encode(body)|);
    }
  }

  /** A well-formed first field, then well-formed fields: all well-formed. */
  lemma JoinWellFormed(host: Headers.Field, kept: Headers.Fields, length: Headers.Fields)
    requires Wire.WellFormedField(host)
    requires forall f :: f in kept ==> Wire.WellFormedField(f)
    requires forall f :: f in length ==> Wire.WellFormedField(f)
    ensures forall k :: 0 <= k < |[host] + kept + length| ==> Wire.WellFormedField(([host] + kept + length)[k])
  {
    var fs := [host] + kept + length;
    forall k | 0 <= k < |fs| ensures Wire.WellFormedField(fs[k]) {
      if 0 < k < 1 + |kept| {
        assert fs[k] == kept[k - 1];
      } else if k > 0 {
        assert fs[k] == length[k - 1 - |kept|];
      }
    }
  }

  /** The Content-Length the server reads from a Host line, fields not
      named Content-Length, and the length line is the UTF-8 length of the
      body, and 0 without a body. */
  lemma BlockContentLength(host: Headers.Field, kept: Headers.Fields, body: string)
    requires !Text.EqualsIgnoreCase(host.name, "Content-Length")
    requires forall k :: 0 <= k < |kept| ==> !Text.EqualsIgnoreCase(kept[k].name, "Content-Length")
    requires Numbers.IsInt32(|Encode(body)|)
    ensures Headers.ContentLength([host] + kept + LengthField(body)) == |Encode(body)|
  {
    var fs := [host] + kept + LengthField(body);
    forall k | 0 <= k < 1 + |kept|
      ensures !Text.EqualsIgnoreCase(fs[k].name, "Content-Length")
    {
      if k > 0 {
        assert fs[k] == kept[k - 1];
      }
    }
    if body != "" {
      Text.EqualsIgnoreCaseRefl("Content-Length");
      Headers.ContentLengthOf(fs, |fs| - 1, |Encode(body)|);
    } else {
      assert Headers.GetIgnoreCase(fs, "Content-Length").None?;
    }
  }

  /** The written header block has distinct, well-formed names, and its
      Content-Length is the UTF-8 length of the body written. */
  lemma SentFieldsReadable(b: Builder)
    requires Sendable(b)
    ensures Headers.UniqueNames(SentFields(b))
    ensures forall k :: 0 <= k < |SentFields(b)| ==> Wire.WellFormedField(SentFields(b)[k])
    ensures Headers.ContentLength(SentFields(b)) == |Encode(BodyText(b))|
  {
    var kept := WithoutHost(b.headers);
    HostIsNotContentLength();
    Text.EqualsIgnoreCaseRefl("Content-Length");
    forall f | f in kept ensures f.name != "Host" && f.name != "Content-Length" {
      assert f in b.headers;
    }
    assert forall k :: 0 <= k < |kept| ==> !Text.EqualsIgnoreCase(kept[k].name, "Content-Length") by {
      forall k | 0 <= k < |kept| ensures !Text.EqualsIgnoreCase(kept[k].name, "Content-Length") {
        assert kept[k] in kept;
        assert kept[k] in b.headers;
      }
    }
    BlockUnique(Headers.Field("Host", HostValue(b)), kept, LengthField(BodyText(b)));
    BlockWellFormed(b);
    BlockContentLength(Headers.Field("Host", HostValue(b)), kept, BodyText(b));
  }

  /** Encoding the built text: the head, then the body bytes. */
  lemma EncodeBuild(b: Builder, rest: seq<byte>)
    ensures Encode(Build(b)) + rest == Encode(Head(b)) + Encode(BodyText(b)) + rest
  {
    EncodeAppend(Head(b), BodyText(b));
  }

  /** Text of printable non-space chars is a request-line token. */
  lemma PrintableIsToken(s: string)
    requires forall i :: 0 <= i < |s| ==> '!' <= s[i] <= '~'
    ensures RequestParser.IsToken(s)
  {
  }

  lemma NameAndVersionAreTokens(m: Methods.HttpMethod)
    ensures RequestParser.IsToken(Methods.Name(m)) && RequestParser.IsToken(Version)
  {
    var n := Methods.Name(m);
    assert forall i :: 0 <= i < |n| ==> 'A' <= n[i] <= 'Z';
    PrintableIsToken(n);
    assert forall i :: 0 <= i < |Version| ==> '!' <= Version[i] <= '~';
    PrintableIsToken(Version);
  }

  /** The body goes on the wire exactly when there is a non-empty one. */
  lemma BodyBytes(b: Builder)
    ensures |Encode(BodyText(b))| > 0 <==> HasBody(b)
    ensures HasBody(b) ==> Encode(BodyText(b)) == Encode(b.body.value)
  {
    if !HasBody(b) {
      assert BodyText(b) == "";
    }
  }

  /** The server's parse of an HTTP/1.1 request head followed by `bytes`. */
  lemma HeadParses(token: string, uri: string, fs: Headers.Fields, bytes: seq<byte>, rest: seq<byte>)
    requires RequestParser.IsToken(token) && RequestParser.IsToken(uri) && RequestParser.IsToken(Version)
    requires Headers.UniqueNames(fs)
    requires forall k :: 0 <= k < |fs| ==> Wire.WellFormedField(fs[k])
    requires Headers.ContentLength(fs) == |bytes|
    ensures var r := RequestParser.Parse(
        Encode(RequestParser.RequestLine(token, uri, Version) + "\r\n" + (Wire.FieldLines(fs) + "\r\n")) + bytes + rest);
      && r.Ok? && r.value.Some?
      && r.value.value.0.verb == Methods.FromString(Some(token))
      && r.value.value.0.uri == uri
      && r.value.value.0.version == Version
      && r.value.value.0.headers == fs
      && r.value.value.0.body == (if |bytes| > 0 then Some(bytes) else None)
      && r.value.value.1 == rest
  {
    RequestParser.ParseRoundTrip(token, uri, Version, fs, bytes, rest);
  }

  /** Client-to-server round trip: the bytes of `build()`, followed by
      anything, parse on the server as one request with the builder's
      method, URI and version, exactly the header lines written, the body's
      UTF-8 bytes when there is a body, and the rest of the input untouched. */
  lemma BuildParses(b: Builder, rest: seq<byte>)
    requires Sendable(b)
    ensures var r := RequestParser.Parse(Encode(Build(b)) + rest);
      && r.Ok? && r.value.Some?
      && r.value.value.0.verb == b.verb
      && r.value.value.0.uri == Uri(b)
      && r.value.value.0.version == Version
      && r.value.value.0.headers == SentFields(b)
      && r.value.value.1 == rest
    ensures HasBody(b) ==> RequestParser.Parse(Encode(Build(b)) + rest).value.value.0.body == Some(Encode(BodyText(b)))
    ensures !HasBody(b) ==> RequestParser.Parse(Encode(Build(b)) + rest).value.value.0.body.None?
  {
    Methods.FromStringName(b.verb);
    NameAndVersionAreTokens(b.verb);
    BodyBytes(b);
    SentFieldsReadable(b);
    EncodeBuild(b, rest);
    var bytes := Encode(BodyText(b));
    HeadParses(Methods.Name(b.verb), Uri(b), SentFields(b), bytes, rest);
    var r := RequestParser.Parse(Encode(Build(b)) + rest);
    assert r.value.value.0.body == (if |bytes| > 0 then Some(bytes) else None);
    if HasBody(b) {
      assert |bytes| > 0;
      assert r.value.value.0.body == Some(bytes);
    } else {
      assert |bytes| == 0;
      assert r.value.value.0.body == None;
    }
  }

  /** The server sees the builder's Host value, whatever Host header the
      caller stored, and its keep-alive default. */
  lemma ServerSeesHost(b: Builder)
    ensures Headers.GetIgnoreCase(SentFields(b), "Host") == Some(HostValue(b))
  {
    Text.EqualsIgnoreCaseRefl("Host");
  }
}
