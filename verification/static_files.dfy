/** `StaticFileHandler`: serves files under the document root to GET
    requests, maps "/" to "/index.html", refuses paths containing "..", and
    answers a conditional GET with 304 when the file is not newer than the
    client's copy. The file system is a map from the requested path to what
    `java.io.File` reports about it; the HTTP-date formatter and parser are a
    pair of parameters. */
module StaticFiles {
  import opened Wrappers
  import opened Bytes
  import Text
  import Status
  import Methods
  import HttpRequest
  import HttpResponse
  import ResponseBuilder
  import Mime

  const InvalidPath: string := "Invalid path"
  const ReadFailed: string := "Failed to read file"
  const IndexPage: string := "/index.html"

  /** What the handler learns about one path: whether it is a regular file,
      its modification time in milliseconds since 1970, and its contents, or
      nothing when reading fails. */
  datatype FileEntry = FileEntry(isFile: bool, lastModified: nat, content: Option<seq<byte>>)

  type FileSystem = map<string, FileEntry>

  /** `SimpleDateFormat("EEE, dd MMM yyyy HH:mm:ss z")` in GMT: formatting a
      time in milliseconds, and parsing a header value back, or failing. */
  datatype DateCodec = DateCodec(format: int -> string, parse: string -> Option<int>)

  /** The format has one-second resolution: a whole-second time from 1970 on
      survives a format and a parse. The pattern has no era field, so an
      instant before year 1 would not come back, and none is asked for. */
  ghost predicate SecondsRoundTrip(codec: DateCodec) {
    forall t: int :: 0 <= t && t % 1000 == 0 ==> codec.parse(codec.format(t)) == Some(t)
  }

  // ---------------------------------------------------------------------------
  // Times
  // ---------------------------------------------------------------------------

  /** `(ms / 1000) * 1000` with Java's division, which truncates toward zero. */
  function TruncateToSecond(ms: int): (t: int)
    ensures t % 1000 == 0
    ensures ms >= 0 ==> 0 <= t <= ms < t + 1000
    ensures ms < 0 ==> t - 1000 < ms <= t <= 0
  {
    if ms >= 0 then (ms / 1000) * 1000 else -(((-ms) / 1000) * 1000)
  }

  /** Truncating twice is truncating once. */
  lemma TruncateIdempotent(ms: int)
    ensures TruncateToSecond(TruncateToSecond(ms)) == TruncateToSecond(ms)
  {
    var t := TruncateToSecond(ms);
    assert t == (t / 1000) * 1000;
  }

  // ---------------------------------------------------------------------------
  // Paths
  // ---------------------------------------------------------------------------

  /** The path the handler looks up: "/" means the index page. */
  function Resolve(path: string): (p: string)
    ensures path != "/" ==> p == path
    ensures p != "/"
  {
    if path == "/" then IndexPage else path
  }

  /** `java.io.File` normalises its path by dropping trailing separators. */
  function DropTrailingSlashes(path: string): (q: string)
    ensures |q| <= |path| && q == path[..|q|]
    ensures forall k :: |q| <= k < |path| ==> path[k] == '/'
    ensures |q| == 0 || q[|q| - 1] != '/'
  {
    if |path| > 0 && path[|path| - 1] == '/' then DropTrailingSlashes(path[..|path| - 1]) else path
  }

  /** The text after the last '/'. */
  function LastSegment(path: string): (n: string)
    ensures '/' !in n
    ensures |n| <= |path| && n == path[|path| - |n|..]
    ensures |n| < |path| ==> path[|path| - |n| - 1] == '/'
  {
    match Text.LastIndexOf(path, '/')
    case None => path
    case Some(i) => path[i + 1..]
  }

  /** `n` sits in `path` at `i`, right after a '/' or at the start, and only
      slashes follow it. */
  predicate LastNameAt(path: string, n: string, i: int) {
    && 0 <= i <= |path| - |n| && path[i..i + |n|] == n && (i == 0 || path[i - 1] == '/')
    && forall k :: i + |n| <= k < |path| ==> path[k] == '/'
  }

  /** `File.getName()`: the last segment of the normalised path. The name
      holds no '/', sits in the path right after a '/' or at its start, and
      only slashes follow it; it is empty only for a path of slashes. */
  function FileName(path: string): (n: string)
    ensures '/' !in n
    ensures exists i :: LastNameAt(path, n, i)
    ensures n == "" <==> forall k :: 0 <= k < |path| ==> path[k] == '/'
  {
    var q := DropTrailingSlashes(path);
    var n := LastSegment(q);
    var i := |q| - |n|;
    assert path[i..i + |n|] == n;
    assert n == "" ==> q == "";
    assert n != "" ==> path[|q| - 1] == n[|n| - 1];
    assert LastNameAt(path, n, i);
    n
  }

  /** A trailing '/' does not change the name. */
  lemma FileNameTrailingSlash(path: string)
    ensures FileName(path + "/") == FileName(path)
  {
    assert (path + "/")[..|path|] == path;
  }

  /** A tail of a name that holds a '.' has the name's extension. */
  lemma ExtensionOfTail(path: string, k: nat, n: string)
    requires k <= |path| && path[k..] == n && '.' in n
    ensures Mime.Extension(path) == Mime.Extension(n)
  {
    var j := Text.LastIndexOf(n, '.').value;
    assert path[k + j] == '.';
    assert path[k + j + 1..] == n[j + 1..];
    Text.LastIndexOfAt(path, '.', k + j);
    assert path[k + j..] == n[j..];
    Mime.ExtensionAt(n, j);
    Mime.ExtensionAt(path, k + j);
  }

  /** A dot in the last segment: both share the extension. */
  lemma MimeOfSegmentDot(path: string)
    requires '.' in LastSegment(path)
    ensures Mime.Extension(path) == Mime.Extension(LastSegment(path))
  {
    var n := LastSegment(path);
    ExtensionOfTail(path, |path| - |n|, n);
  }

  /** No dot in the last segment: any extension of the whole path holds a
      '/', and no key of the table does. */
  lemma MimeOfSegmentNoDot(path: string)
    requires '.' !in LastSegment(path)
    ensures Mime.Extension(path).None? || Mime.Extension(path).value !in Mime.Types
  {
    var n := LastSegment(path);
    var k := |path| - |n|;
    if '.' in path {
      var j := Text.LastIndexOf(path, '.').value;
      assert path[k..] == n;
      assert j < k;
      var e := Text.ToLower(path[j..]);
      assert e[k - 1 - j] == '/';
      if e in Mime.Types {
        Mime.TypesKeys(e);
      }
    }
  }

  /** The type of the last segment is the type of the whole path. */
  lemma MimeOfLastSegment(path: string)
    ensures Mime.MimeType(Some(LastSegment(path))) == Mime.MimeType(Some(path))
  {
    if '.' in LastSegment(path) {
      MimeOfSegmentDot(path);
    } else {
      MimeOfSegmentNoDot(path);
    }
  }

  /** The type of the file's name is the type of the normalised path, so a
      trailing '/' does not change the type. */
  lemma MimeOfFileName(path: string)
    ensures Mime.MimeType(Some(FileName(path))) == Mime.MimeType(Some(DropTrailingSlashes(path)))
  {
    MimeOfLastSegment(DropTrailingSlashes(path));
  }

  // ---------------------------------------------------------------------------
  // The handler
  // ---------------------------------------------------------------------------

  /** The path names an existing regular file. */
  predicate IsServed(fs: FileSystem, path: string) {
    path in fs && fs[path].isFile
  }

  /** The request carries an If-Modified-Since date that parses and is not
      older than the file's truncated modification time. */
  predicate ClientCopyCurrent(req: HttpRequest.Request, codec: DateCodec, lastModified: int) {
    var since := HttpRequest.GetHeader(req, "If-Modified-Since");
    since.Some? && codec.parse(since.value).Some? && lastModified <= codec.parse(since.value).value
  }

  /** The part of `handle` after the path checks, for an existing file:
      304 for a current client copy, 500 when the contents cannot be read,
      else 200 with the contents and their type. Both the 304 and the 200
      carry the truncated modification time. */
  function ServeFile(req: HttpRequest.Request, date: string, path: string, file: FileEntry, codec: DateCodec): (r: HttpResponse.Response)
    ensures ClientCopyCurrent(req, codec, TruncateToSecond(file.lastModified)) ==>
      && r.status == Status.NotModified && r.body.None?
      && HttpResponse.GetHeader(r, "Last-Modified") == Some(codec.format(TruncateToSecond(file.lastModified)))
    ensures !ClientCopyCurrent(req, codec, TruncateToSecond(file.lastModified)) && file.content.None? ==>
      && r.status == Status.InternalServerError
      && r.body == Some(Encode(ResponseBuilder.ErrorJson(500, Some(ReadFailed))))
    ensures !ClientCopyCurrent(req, codec, TruncateToSecond(file.lastModified)) && file.content.Some? ==>
      && r.status == Status.Ok && r.body == file.content
      && HttpResponse.GetHeader(r, "Content-Type") == Some(Mime.MimeType(Some(DropTrailingSlashes(path))))
      && HttpResponse.GetHeader(r, "Last-Modified") == Some(codec.format(TruncateToSecond(file.lastModified)))
  {
    var lastModified := TruncateToSecond(file.lastModified);
    if ClientCopyCurrent(req, codec, lastModified) then Unmodified(date, codec.format(lastModified))
    else match file.content
      case None => ResponseBuilder.InternalServerErrorMessage(date, Some(ReadFailed))
      case Some(content) => Contents(date, path, content, codec.format(lastModified))
  }

  /** The 304 for a current client copy, stamped with Last-Modified. */
  function Unmodified(date: string, stamp: string): (r: HttpResponse.Response)
    ensures r.status == Status.NotModified && r.body.None?
    ensures HttpResponse.GetHeader(r, "Last-Modified") == Some(stamp)
  {
    HttpResponse.SetLastModified(ResponseBuilder.NotModified(date), stamp)
  }

  /** The 200 carrying a file's contents, typed after its name and stamped
      with Last-Modified. */
  function Contents(date: string, path: string, content: seq<byte>, stamp: string): (r: HttpResponse.Response)
    ensures r.status == Status.Ok && r.body == Some(content)
    ensures HttpResponse.GetHeader(r, "Content-Type") == Some(Mime.MimeType(Some(DropTrailingSlashes(path))))
    ensures HttpResponse.GetHeader(r, "Last-Modified") == Some(stamp)
  {
    MimeOfFileName(path);
    var served := ResponseBuilder.Binary(date, content, Mime.MimeType(Some(FileName(path))));
    HttpResponse.SetLastModified(served, stamp)
  }

  /** `handle`, in source order: 405 for anything but GET, the index alias,
      400 for "..", 404 for a missing file or a directory, then the file. */
  function Handle(req: HttpRequest.Request, date: string, fs: FileSystem, codec: DateCodec): (r: HttpResponse.Response)
    ensures r.status == Status.MethodNotAllowed <==> req.verb != Methods.Get
    ensures r.status == Status.BadRequest <==>
      req.verb == Methods.Get && Text.Contains(Resolve(req.path), "..")
    ensures r.status == Status.NotFound <==>
      req.verb == Methods.Get && !Text.Contains(Resolve(req.path), "..") && !IsServed(fs, Resolve(req.path))
    ensures req.verb == Methods.Get && !Text.Contains(Resolve(req.path), "..") && IsServed(fs, Resolve(req.path)) ==>
      r == ServeFile(req, date, Resolve(req.path), fs[Resolve(req.path)], codec)
  {
    if req.verb != Methods.Get then ResponseBuilder.MethodNotAllowed(date)
    else HandleGet(req, date, Resolve(req.path), fs, codec)
  }

  /** The GET branch of `handle` on the resolved path: 400 for "..", else
      the lookup. */
  function HandleGet(req: HttpRequest.Request, date: string, path: string, fs: FileSystem, codec: DateCodec): (r: HttpResponse.Response)
    ensures r.status != Status.MethodNotAllowed
    ensures r.status == Status.BadRequest <==> Text.Contains(path, "..")
    ensures r.status == Status.NotFound <==> !Text.Contains(path, "..") && !IsServed(fs, path)
    ensures !Text.Contains(path, "..") && IsServed(fs, path) ==> r == ServeFile(req, date, path, fs[path], codec)
  {
    if Text.Contains(path, "..") then ResponseBuilder.BadRequest(date, Some(InvalidPath))
    else Lookup(req, date, path, fs, codec)
  }

  /** 404 for a missing file or a directory, else the file. */
  function Lookup(req: HttpRequest.Request, date: string, path: string, fs: FileSystem, codec: DateCodec): (r: HttpResponse.Response)
    ensures r.status == Status.NotFound || r.status == Status.Ok || r.status == Status.NotModified || r.status == Status.InternalServerError
    ensures r.status == Status.NotFound <==> !IsServed(fs, path)
    ensures IsServed(fs, path) ==> r == ServeFile(req, date, path, fs[path], codec)
  {
    if !IsServed(fs, path) then ResponseBuilder.NotFound(date)
    else ServeFile(req, date, path, fs[path], codec)
  }

  // ---------------------------------------------------------------------------
  // Properties across requests
  // ---------------------------------------------------------------------------

  /** "/" and "/index.html" are answered alike. */
  lemma IndexAlias(req: HttpRequest.Request, date: string, fs: FileSystem, codec: DateCodec)
    requires req.path == "/"
    ensures Handle(req, date, fs, codec) == Handle(req.(path := IndexPage), date, fs, codec)
  {
    var alias := req.(path := IndexPage);
    assert Resolve(alias.path) == Resolve(req.path);
    assert HttpRequest.GetHeader(alias, "If-Modified-Since") == HttpRequest.GetHeader(req, "If-Modified-Since");
  }

  /** A 200 or a 304 answers a GET for an existing file, on a path free
      of "..". */
  lemma ServedPath(req: HttpRequest.Request, date: string, fs: FileSystem, codec: DateCodec)
    requires Handle(req, date, fs, codec).status in {Status.Ok, Status.NotModified}
    ensures req.verb == Methods.Get && !Text.Contains(Resolve(req.path), "..") && IsServed(fs, Resolve(req.path))
  {
  }

  /** Nothing is served from a path containing "..". */
  lemma NoTraversal(req: HttpRequest.Request, date: string, fs: FileSystem, codec: DateCodec)
    requires Handle(req, date, fs, codec).status in {Status.Ok, Status.NotModified}
    ensures !Text.Contains(req.path, "..")
  {
    ServedPath(req, date, fs, codec);
    CleanBeforeResolve(req.path);
  }

  /** The index alias brings in no "..". */
  lemma CleanBeforeResolve(path: string)
    requires !Text.Contains(Resolve(path), "..")
    ensures !Text.Contains(path, "..")
  {
    if path == "/" {
      Mime.MissingCharNotContains("/", "..", 0);
    }
  }

  /** The cache round trip: a client that sends back, as If-Modified-Since,
      the Last-Modified a 200 gave it gets 304 without a body as long as the
      file is unchanged. */
  lemma RevalidateUnchanged(req: HttpRequest.Request, again: HttpRequest.Request, date: string, date2: string,
                            fs: FileSystem, codec: DateCodec)
    requires SecondsRoundTrip(codec)
    requires Handle(req, date, fs, codec).status == Status.Ok
    requires again.verb == req.verb && again.path == req.path
    requires HttpRequest.GetHeader(again, "If-Modified-Since") == HttpResponse.GetHeader(Handle(req, date, fs, codec), "Last-Modified")
    ensures Handle(again, date2, fs, codec).status == Status.NotModified
    ensures Handle(again, date2, fs, codec).body.None?
  {
    var t := TruncateToSecond(fs[Resolve(req.path)].lastModified);
    assert codec.parse(codec.format(t)) == Some(t);
  }

  /** A file modified after the client's copy is sent again in full. */
  lemma RevalidateChanged(req: HttpRequest.Request, date: string, fs: FileSystem, codec: DateCodec, since: int)
    requires req.verb == Methods.Get && !Text.Contains(Resolve(req.path), "..") && IsServed(fs, Resolve(req.path))
    requires fs[Resolve(req.path)].content.Some?
    requires HttpRequest.GetHeader(req, "If-Modified-Since").Some?
    requires codec.parse(HttpRequest.GetHeader(req, "If-Modified-Since").value) == Some(since)
    requires TruncateToSecond(fs[Resolve(req.path)].lastModified) > since
    ensures Handle(req, date, fs, codec).status == Status.Ok
    ensures Handle(req, date, fs, codec).body == fs[Resolve(req.path)].content
  {
  }

  /** A request without If-Modified-Since is never answered 304. */
  lemma UnconditionalNeverNotModified(req: HttpRequest.Request, date: string, fs: FileSystem, codec: DateCodec)
    requires HttpRequest.GetHeader(req, "If-Modified-Since").None?
    ensures Handle(req, date, fs, codec).status != Status.NotModified
  {
  }
}
