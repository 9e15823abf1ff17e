/** The server's view of a request (`HttpRequest`): request-line parts, the
    path and query split off the URI, query and form parameters, headers and
    an optional body. URL decoding is the identity in this model. */
module HttpRequest {
  import opened Wrappers
  import Bytes
  import Text
  import Numbers
  import Headers
  import Methods

  type Params = map<string, string>

  /** The media type `parseFormData` looks for. */
  const FormType: string := "application/x-www-form-urlencoded"

  datatype Request = Request(
    verb: Methods.HttpMethod,
    uri: string,
    path: string,
    queryString: string,
    queryParams: Params,
    version: string,
    headers: Headers.Fields,
    body: Option<seq<Bytes.byte>>,
    formData: Params)

  // ---------------------------------------------------------------------------
  // URI and parameters
  // ---------------------------------------------------------------------------

  /** `parseUri`: the path before the first '?' and the raw query after it;
      a null URI is path "/" with an empty query. */
  function ParseUri(uri: Option<string>): (r: (string, string))
    ensures uri.None? ==> r == ("/", "")
    ensures uri.Some? && '?' !in uri.value ==> r == (uri.value, "")
    ensures uri.Some? && '?' in uri.value ==> uri.value == r.0 + "?" + r.1 && '?' !in r.0
    ensures uri.Some? ==> r.0 + (if '?' in uri.value then "?" + r.1 else "") == uri.value
  {
    match uri
    case None => ("/", "")
    case Some(u) =>
      match Text.IndexOf(u, '?')
      case None => (u, "")
      case Some(i) =>
        assert u == u[..i] + "?" + u[i + 1..];
        (u[..i], u[i + 1..])
  }

  /** The key of one `k=v` pair: the text before the first '=', or the whole
      pair when there is none. */
  function PairKey(p: string): (k: string)
    ensures '=' !in p ==> k == p
    ensures '=' in p ==> '=' !in k && p == k + "=" + PairValue(p)
  {
    match Text.IndexOf(p, '=')
    case None => p
    case Some(i) =>
      assert p == p[..i] + "=" + p[i + 1..];
      p[..i]
  }

  /** The value of one pair: the text after the first '=', or "" without one. */
  function PairValue(p: string): (v: string)
    ensures '=' !in p ==> v == ""
    ensures |v| <= |p|
  {
    match Text.IndexOf(p, '=')
    case None => ""
    case Some(i) => p[i + 1..]
  }

  /** The loop of `parseQueryString` / `parseFormData`: each pair is `put`
      into the map in order. */
  function PutPairs(m: Params, pairs: seq<string>): (r: Params)
    ensures m.Keys <= r.Keys
    decreases |pairs|
  {
    if |pairs| == 0 then m
    else PutPairs(m[PairKey(pairs[0]) := PairValue(pairs[0])], pairs[1..])
  }

  /** Query or form text split on '&' into pairs; "" gives no parameters.
      Otherwise the keys are exactly those the pieces name, and each holds
      the value of the last piece naming it. */
  function ParsePairs(s: string): (r: Params)
    ensures s == "" ==> r == map[]
    ensures s != "" ==> forall k :: k in r <==> exists j :: 0 <= j < |Text.Split(s, '&')| && PairKey(Text.Split(s, '&')[j]) == k
    ensures s != "" ==> forall j :: 0 <= j < |Text.Split(s, '&')| && LastNamed(Text.Split(s, '&'), j) ==>
      PairKey(Text.Split(s, '&')[j]) in r && r[PairKey(Text.Split(s, '&')[j])] == PairValue(Text.Split(s, '&')[j])
  {
    if s == "" then map[]
    else
      var ps := Text.Split(s, '&');
      PutPairsMeaning(ps);
      PutPairs(map[], ps)
  }

  /** No pair after the one at `j` has its key. */
  predicate LastNamed(pairs: seq<string>, j: nat)
    requires j < |pairs|
  {
    forall j' :: j < j' < |pairs| ==> PairKey(pairs[j']) != PairKey(pairs[j])
  }

  /** Putting the pairs into an empty map: the keys are those the pairs name,
      each holding the value of its last pair. */
  lemma PutPairsMeaning(pairs: seq<string>)
    ensures forall k :: k in PutPairs(map[], pairs) <==> exists j :: 0 <= j < |pairs| && PairKey(pairs[j]) == k
    ensures forall j :: 0 <= j < |pairs| && LastNamed(pairs, j) ==>
      PairKey(pairs[j]) in PutPairs(map[], pairs) && PutPairs(map[], pairs)[PairKey(pairs[j])] == PairValue(pairs[j])
  {
    forall k | k in PutPairs(map[], pairs)
      ensures exists j :: 0 <= j < |pairs| && PairKey(pairs[j]) == k
    {
      PutPairsKeys(map[], pairs, k);
    }
    forall k, j | 0 <= j < |pairs| && PairKey(pairs[j]) == k
      ensures k in PutPairs(map[], pairs)
    {
      PutPairsNamed(map[], pairs, j);
    }
    forall j | 0 <= j < |pairs| && LastNamed(pairs, j)
      ensures PairKey(pairs[j]) in PutPairs(map[], pairs)
      ensures PutPairs(map[], pairs)[PairKey(pairs[j])] == PairValue(pairs[j])
    {
      PutPairsLastWins(map[], pairs, j);
    }
  }

  /** Every key a pair names ends up in the map. */
  lemma {:induction false} PutPairsNamed(m: Params, pairs: seq<string>, j: nat)
    requires j < |pairs|
    ensures PairKey(pairs[j]) in PutPairs(m, pairs)
    decreases |pairs|
  {
    var m1 := m[PairKey(pairs[0]) := PairValue(pairs[0])];
    if j > 0 {
      assert pairs[1..][j - 1] == pairs[j];
      PutPairsNamed(m1, pairs[1..], j - 1);
    }
  }

  /** A repeated key keeps its last value: the pair at `i` decides its key
      when no later pair has the same key. */
  lemma {:induction false} PutPairsLastWins(m: Params, pairs: seq<string>, i: nat)
    requires i < |pairs|
    requires forall j :: i < j < |pairs| ==> PairKey(pairs[j]) != PairKey(pairs[i])
    ensures PairKey(pairs[i]) in PutPairs(m, pairs)
    ensures PutPairs(m, pairs)[PairKey(pairs[i])] == PairValue(pairs[i])
    decreases |pairs|
  {
    var m1 := m[PairKey(pairs[0]) := PairValue(pairs[0])];
    var rest := pairs[1..];
    var k := PairKey(pairs[i]);
    assert forall j :: 0 <= j < |rest| ==> rest[j] == pairs[j + 1];
    if i == 0 {
      forall j | 0 <= j < |rest| ensures PairKey(rest[j]) != k {
        assert i < j + 1;
      }
      PutPairsUntouched(m1, rest, k);
    } else {
      assert rest[i - 1] == pairs[i];
      forall j | i - 1 < j < |rest| ensures PairKey(rest[j]) != PairKey(rest[i - 1]) {
        assert i < j + 1;
      }
      PutPairsLastWins(m1, rest, i - 1);
    }
  }

  /** Keys that no pair names keep their membership and value. */
  lemma {:induction false} PutPairsUntouched(m: Params, pairs: seq<string>, k: string)
    requires forall j :: 0 <= j < |pairs| ==> PairKey(pairs[j]) != k
    ensures (k in PutPairs(m, pairs)) == (k in m)
    ensures k in m ==> PutPairs(m, pairs)[k] == m[k]
    decreases |pairs|
  {
    if |pairs| > 0 {
      PutPairsUntouched(m[PairKey(pairs[0]) := PairValue(pairs[0])], pairs[1..], k);
    }
  }

  /** Every key in the result comes from `m` or from some pair. */
  lemma {:induction false} PutPairsKeys(m: Params, pairs: seq<string>, k: string)
    requires k in PutPairs(m, pairs)
    ensures k in m || exists j :: 0 <= j < |pairs| && PairKey(pairs[j]) == k
    decreases |pairs|
  {
    if |pairs| > 0 {
      var m1 := m[PairKey(pairs[0]) := PairValue(pairs[0])];
      PutPairsKeys(m1, pairs[1..], k);
      if k !in m1 {
        var j :| 0 <= j < |pairs[1..]| && PairKey(pairs[1..][j]) == k;
        assert PairKey(pairs[j + 1]) == k;
      }
    }
  }

  // ---------------------------------------------------------------------------
  // Header-derived properties
  // ---------------------------------------------------------------------------

  /** `getHeader`: case-insensitive over the stored names. */
  function GetHeader(r: Request, name: string): (v: Option<string>)
    ensures v.None? <==> forall i :: 0 <= i < |r.headers| ==> !Text.EqualsIgnoreCase(r.headers[i].name, name)
  {
    Headers.GetIgnoreCase(r.headers, name)
  }

  function IsKeepAlive(r: Request): bool {
    Headers.KeepAlive(r.headers, r.version)
  }

  /** A Content-Type containing the form media type and a non-empty body. */
  predicate IsForm(h: Headers.Fields, body: Option<seq<Bytes.byte>>) {
    && Headers.GetIgnoreCase(h, "Content-Type").Some?
    && Text.Contains(Headers.GetIgnoreCase(h, "Content-Type").value, FormType)
    && body.Some? && |body.value| > 0
  }

  /** `parseFormData`: the body is form data only when Content-Type contains
      the form media type and the body text is non-empty; then its pairs are
      read as a query string is. */
  function FormData(h: Headers.Fields, body: Option<seq<Bytes.byte>>): (r: Params)
    ensures body.None? || body == Some([]) ==> r == map[]
    ensures Headers.GetIgnoreCase(h, "Content-Type").None? ==> r == map[]
    ensures r != map[] ==> IsForm(h, body)
    ensures IsForm(h, body) ==> r == ParsePairs(Bytes.Decode(body.value))
  {
    match Headers.GetIgnoreCase(h, "Content-Type")
    case None => map[]
    case Some(ct) =>
      if Text.Contains(ct, FormType) && body.Some? && |body.value| > 0
      then ParsePairs(Bytes.Decode(body.value))
      else map[]
  }

  /** The request object once its request line has been set: method, URI with
      its derived path, query and parameters, and version. */
  function FromRequestLine(token: string, uri: string, version: string): (r: Request)
    ensures r.uri == uri && r.version == version
    ensures r.verb == Methods.FromString(Some(token))
    ensures r.headers == [] && r.body.None? && r.formData == map[]
    ensures r.path + (if '?' in uri then "?" + r.queryString else "") == uri
  {
    var (path, query) := ParseUri(Some(uri));
    Request(Methods.FromString(Some(token)), uri, path, query,
            if '?' in uri then ParsePairs(query) else map[],
            version, [], None, map[])
  }

  /** `getBodyAsString`: null without a body, otherwise the body text. */
  function BodyAsString(r: Request): (s: Option<string>)
    ensures s.None? <==> r.body.None?
    ensures s.Some? ==> |s.value| == |r.body.value|
  {
    if r.body.None? then None else Some(Bytes.Decode(r.body.value))
  }
}
