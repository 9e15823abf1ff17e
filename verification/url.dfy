/** The part of `java.net.URI` the client relies on: an absolute URL
    `scheme://host[:port][path][?query][#fragment]` split into the raw parts
    that `getHost`, `getPort`, `getRawPath` and `getRawQuery` return, and
    the target `request` derives from them. The grammar follows the URI
    parser's rules for a server authority: the host is an IPv4 address or a
    domain name whose labels start and end with a letter or digit, a path
    holds no '[' or ']', every '%' starts an escape pair, and there is at
    most one '#'. It is narrower than `java.net.URI` in four ways: it admits
    printable ASCII only, it refuses user information before the host, it
    refuses an IPv6 host, and it refuses a URL without a host, which the
    client would still send (with `Host: null`, over a socket to the
    loopback address). `Parse` gives `None` for a refused string, and the
    client model then sends nothing. */
module Url {
  import opened Wrappers
  import Text
  import Numbers

  /** The raw components. An absent port is `getPort() == -1`; an absent
      query is `getRawQuery() == null`; the path may be empty. */
  datatype Url = Url(scheme: string, host: string, port: Option<int>, path: string, query: Option<string>)

  /** The characters a URL may hold: printable ASCII, no space, none of the
      characters `java.net.URI` rejects outright. */
  predicate IsUrlChar(c: char) {
    && '!' <= c <= '~'
    && c != '"' && c != '<' && c != '>' && c != '\\' && c != '^' && c != '`'
    && c != '{' && c != '|' && c != '}'
  }

  predicate IsUrlText(s: string) {
    forall i {:trigger IsUrlChar(s[i])} :: 0 <= i < |s| ==> IsUrlChar(s[i])
  }

  predicate IsAlpha(c: char) {
    'a' <= c <= 'z' || 'A' <= c <= 'Z'
  }

  predicate IsDigit(c: char) {
    '0' <= c <= '9'
  }

  /** A scheme: a letter, then letters, digits, '+', '-' or '.'. */
  predicate IsScheme(s: string) {
    && |s| > 0 && IsAlpha(s[0])
    && forall i :: 0 <= i < |s| ==> IsAlpha(s[i]) || IsDigit(s[i]) || s[i] == '+' || s[i] == '-' || s[i] == '.'
  }

  predicate IsAlnum(c: char) {
    IsAlpha(c) || IsDigit(c)
  }

  predicate IsHex(c: char) {
    IsDigit(c) || 'a' <= c <= 'f' || 'A' <= c <= 'F'
  }

  /** The character at `i` is not '%', or it starts an escape pair: two
      hex digits follow it. */
  predicate EscapeAt(s: string, i: nat)
    requires i < |s|
  {
    s[i] == '%' ==> i + 2 < |s| && IsHex(s[i + 1]) && IsHex(s[i + 2])
  }

  /** Every '%' starts an escape pair. */
  predicate EscapesComplete(s: string) {
    forall i {:trigger EscapeAt(s, i)} :: 0 <= i < |s| ==> EscapeAt(s, i)
  }

  /** At most one '#': the fragment holds none. */
  predicate OneFragment(s: string) {
    forall i, j :: 0 <= i < j < |s| && s[i] == '#' ==> s[j] != '#'
  }

  /** A character a host may hold: a letter, a digit, '-' or '.'. */
  predicate HostCharAt(s: string, i: nat)
    requires i < |s|
  {
    IsAlnum(s[i]) || s[i] == '-' || s[i] == '.'
  }

  predicate HostChars(s: string) {
    forall i {:trigger HostCharAt(s, i)} :: 0 <= i < |s| ==> HostCharAt(s, i)
  }

  /** One byte of a dotted-quad address: decimal digits worth at most 255. */
  predicate IsOctet(p: string) {
    |p| > 0 && Numbers.AllDigits(p, 10) && Numbers.Magnitude(p, 10) <= 255
  }

  /** Dots at `a < b < c` cut `s` into four octets. */
  predicate OctetsAt(s: string, a: nat, b: nat, c: nat) {
    && a < b < c < |s|
    && IsOctet(s[..a]) && IsOctet(s[a + 1..b]) && IsOctet(s[b + 1..c]) && IsOctet(s[c + 1..])
    && s[a] == '.' && s[b] == '.' && s[c] == '.'
  }

  /** An IPv4 address: four octets separated by '.'. */
  predicate IsIPv4(s: string) {
    exists a: nat, b: nat, c: nat :: a < b < c < |s| && OctetsAt(s, a, b, c)
  }

  /** The '.' at `i` sits between two labels: a letter or digit ends the
      label before it, and one starts the label after it, if any. */
  predicate LabelBreak(s: string, i: nat)
    requires i < |s|
  {
    i > 0 && IsAlnum(s[i - 1]) && (i + 1 < |s| ==> IsAlnum(s[i + 1]))
  }

  /** A label starting at `k` after a '.', with no '.' after it but a
      final one, is the top label, and it starts with a letter. */
  predicate TopLabelAt(s: string, k: nat)
    requires 0 < k < |s|
  {
    s[k - 1] == '.' && '.' !in s[k..|s| - 1] ==> IsAlpha(s[k])
  }

  /** When there is more than one label, the last one starts with a letter;
      a final '.' is allowed and ends no label. */
  predicate TopLabelAlpha(s: string) {
    forall k {:trigger TopLabelAt(s, k)} :: 0 < k < |s| ==> TopLabelAt(s, k)
  }

  /** A domain name: labels of letters, digits and '-' that start and end
      with a letter or digit, separated by single dots, with an optional
      final dot, and a top label starting with a letter. */
  predicate IsDomainName(s: string) {
    && |s| > 0 && HostChars(s)
    && IsAlnum(s[0]) && (IsAlnum(s[|s| - 1]) || s[|s| - 1] == '.')
    && (forall i {:trigger LabelBreak(s, i)} :: 0 <= i < |s| && s[i] == '.' ==> LabelBreak(s, i))
    && TopLabelAlpha(s)
  }

  /** `java.net.URI`'s server host: an IPv4 address, or else a domain name.
      Anything else makes the authority registry-based, with no host. */
  predicate IsHostName(s: string) {
    HostChars(s) && (IsIPv4(s) || IsDomainName(s))
  }

  /** A path holds no '[' or ']', which only an IPv6 host may use. */
  predicate NoBrackets(s: string) {
    '[' !in s && ']' !in s
  }

  /** Where the authority ends: at the first '/' or '?', or at the end. */
  function AuthorityEnd(s: string): (n: nat)
    ensures n <= |s|
    ensures forall j :: 0 <= j < n ==> s[j] != '/' && s[j] != '?'
    ensures n < |s| ==> s[n] == '/' || s[n] == '?'
  {
    if |s| == 0 || s[0] == '/' || s[0] == '?' then 0 else 1 + AuthorityEnd(s[1..])
  }

  /** Host and port of a server authority: the port after a ':' is decimal
      digits within an int, or empty (no port). */
  function ParseAuthority(a: string): (r: Option<(string, Option<int>)>)
    ensures r.Some? ==> IsHostName(r.value.0)
    ensures r.Some? && r.value.1.Some? ==> 0 <= r.value.1.value <= Numbers.IntMax
  {
    match Text.IndexOf(a, ':')
    case None => if IsHostName(a) then Some((a, None)) else None
    case Some(j) => HostAndPort(a[..j], a[j + 1..])
  }

  /** The two sides of the first ':' of an authority. */
  function HostAndPort(host: string, digits: string): (r: Option<(string, Option<int>)>)
    ensures r.Some? ==> IsHostName(r.value.0)
    ensures r.Some? && r.value.1.Some? ==> 0 <= r.value.1.value <= Numbers.IntMax
  {
    if !IsHostName(host) then None
    else if digits == "" then Some((host, None))
    else if !Numbers.AllDigits(digits, 10) then None
    else match Numbers.ParseInt(digits, 10)
      case None => None
      case Some(p) =>
        assert digits[0] != '-';
        Some((host, Some(p)))
  }

  /** The text before the first '#': the fragment is not part of any
      component the client reads. */
  function Fragmentless(s: string): (b: string)
    ensures '#' !in b && Text.StartsWith(s, b)
    ensures |b| < |s| ==> s[|b|] == '#'
  {
    match Text.IndexOf(s, '#')
    case Some(k) => s[..k]
    case None => s
  }

  /** The path and the raw query of what follows the authority: they split
      at the first '?'. */
  function SplitTail(tail: string): (r: (string, Option<string>))
    requires tail != "" ==> tail[0] == '/' || tail[0] == '?'
    ensures '?' !in r.0 && (r.0 != "" ==> r.0[0] == '/')
    ensures tail == r.0 + QueryText(r.1)
    ensures r.0 == tail[..|r.0|] && (r.1.Some? ==> |r.0| < |tail| && r.1.value == tail[|r.0| + 1..])
  {
    match Text.IndexOf(tail, '?')
    case None => (tail, None)
    case Some(k) =>
      var path := tail[..k];
      var query := tail[k + 1..];
      assert k > 0 ==> path[0] == '/';
      assert tail == path + ("?" + query) by {
        assert tail[k] == '?';
        var t := path + ("?" + query);
        assert |t| == |tail|;
        forall j | 0 <= j < |tail| ensures t[j] == tail[j] {
          if j > k {
            assert t[j] == query[j - k - 1];
          }
        }
      }
      (path, Some(query))
  }

  /** The server part after "//": the authority up to the first '/' or '?',
      then the path and query. */
  function ParseServer(scheme: string, rest: string): (r: Option<Url>)
    ensures r.Some? ==> r.value.scheme == scheme && IsHostName(r.value.host)
    ensures r.Some? ==> '?' !in r.value.path && (r.value.path != "" ==> r.value.path[0] == '/')
    ensures r.Some? ==> NoBrackets(r.value.path)
  {
    var n := AuthorityEnd(rest);
    var hp :- ParseAuthority(rest[..n]);
    var (path, query) := SplitTail(rest[n..]);
    if !NoBrackets(path) then None
    else Some(Url(scheme, hp.0, hp.1, path, query))
  }

  /** An absolute URL: a scheme, ':' and "//", then the server part. */
  function ParseAbsolute(body: string): (r: Option<Url>)
    ensures r.Some? ==> IsScheme(r.value.scheme) && IsHostName(r.value.host)
    ensures r.Some? ==> '?' !in r.value.path && (r.value.path != "" ==> r.value.path[0] == '/')
    ensures r.Some? ==> NoBrackets(r.value.path)
  {
    match Text.IndexOf(body, ':')
    case None => None
    case Some(i) =>
      var scheme := body[..i];
      var after := body[i + 1..];
      if !IsScheme(scheme) || !Text.StartsWith(after, "//") then None
      else ParseServer(scheme, after[2..])
  }

  /** `new URI(url)` followed by the component getters; `None` when the
      text is not an absolute URL with a server authority and a host. */
  function Parse(s: string): (r: Option<Url>)
    ensures !IsUrlText(s) || !EscapesComplete(s) || !OneFragment(s) ==> r.None?
    ensures r.Some? ==> IsScheme(r.value.scheme) && IsHostName(r.value.host)
    ensures r.Some? ==> '?' !in r.value.path && (r.value.path != "" ==> r.value.path[0] == '/')
    ensures r.Some? ==> NoBrackets(r.value.path)
  {
    if !IsUrlText(s) || !EscapesComplete(s) || !OneFragment(s) then None
    else ParseAbsolute(Fragmentless(s))
  }

  // ---------------------------------------------------------------------------
  // Writing a URL
  // ---------------------------------------------------------------------------

  function PortText(port: Option<int>): string {
    if port.Some? then ":" + Numbers.IntToString(port.value) else ""
  }

  function QueryText(query: Option<string>): string {
    if query.Some? then "?" + query.value else ""
  }

  function AuthorityText(host: string, port: Option<int>): string {
    host + PortText(port)
  }

  function TailText(path: string, query: Option<string>): string {
    path + QueryText(query)
  }

  /** The URL's text, as `URI.toString` gives it back. */
  function Format(u: Url): string {
    u.scheme + ":" + ("//" + (AuthorityText(u.host, u.port) + TailText(u.path, u.query)))
  }

  /** The components `Parse` can produce. */
  predicate WellFormed(u: Url) {
    && IsScheme(u.scheme)
    && IsHostName(u.host)
    && (u.port.Some? ==> 0 <= u.port.value <= Numbers.IntMax)
    && (u.path != "" ==> u.path[0] == '/')
    && IsClean(u.path) && '?' !in u.path && NoBrackets(u.path)
    && (u.query.Some? ==> IsClean(u.query.value))
  }

  // ---------------------------------------------------------------------------
  // The request target
  // ---------------------------------------------------------------------------

  /** Where `request` sends a URL: the host, the port (80 when absent), and
      the raw path ("/" when empty) followed by '?' and the raw query when
      there is one. */
  datatype Target = Target(host: string, port: int, uri: string)

  function TargetOf(u: Url): (t: Target)
    ensures t.host == u.host
    ensures u.port.None? <==> t.port == 80 && u.port != Some(80)
    ensures u.port.Some? ==> t.port == u.port.value
  {
    var path := if u.path == "" then "/" else u.path;
    Target(u.host, if u.port.None? then 80 else u.port.value, TailText(path, u.query))
  }

  /** A relative Location: one not starting with "http://" or "https://". */
  predicate IsAbsolute(location: string) {
    Text.StartsWith(location, "http://") || Text.StartsWith(location, "https://")
  }

  /** The redirect target: an absolute Location as it is, a relative one
      resolved against the current host and port, with ":port" left out for
      port 80 and a '/' put in front of a path that lacks one. */
  function Resolve(location: string, host: string, port: int): (r: string)
    ensures IsAbsolute(location) ==> r == location
  {
    if IsAbsolute(location) then location
    else
      var path := if Text.StartsWith(location, "/") then location else "/" + location;
      "http" + ":" + ("//" + (AuthorityText(host, if port != 80 then Some(port) else None) + path))
  }

  // ---------------------------------------------------------------------------
  // Properties
  // ---------------------------------------------------------------------------

  /** The authority ends after `a` when `a` holds neither '/' nor '?' and
      `t` starts with one of them or is empty. */
  lemma {:induction false} AuthorityEndOf(a: string, t: string)
    requires '/' !in a && '?' !in a
    requires t != "" ==> t[0] == '/' || t[0] == '?'
    ensures AuthorityEnd(a + t) == |a|
    decreases |a|
  {
    if |a| > 0 {
      assert (a + t)[0] == a[0];
      assert (a + t)[1..] == a[1..] + t;
      AuthorityEndOf(a[1..], t);
    } else {
      assert a + t == t;
    }
  }

  /** The rendering of a port is all digits. */
  lemma PortDigits(p: int)
    requires 0 <= p <= Numbers.IntMax
    ensures Numbers.AllDigits(Numbers.IntToString(p), 10)
    ensures Numbers.ParseInt(Numbers.IntToString(p), 10) == Some(p)
    ensures forall i :: 0 <= i < |Numbers.IntToString(p)| ==> IsDigit(Numbers.IntToString(p)[i])
  {
    Numbers.DigitsAreDigits(p, 10);
    Numbers.ParseIntToString(p);
    var d := Numbers.IntToString(p);
    forall i | 0 <= i < |d| ensures IsDigit(d[i]) {
      assert Numbers.DigitValue(d[i], 10).Some?;
    }
  }

  /** A host name holds no ':', '/' or '?'. */
  lemma HostNameChars(host: string)
    requires IsHostName(host)
    ensures ':' !in host && '/' !in host && '?' !in host
  {
    forall i | 0 <= i < |host| ensures host[i] != ':' && host[i] != '/' && host[i] != '?' {
      assert HostCharAt(host, i);
    }
  }

  /** An authority written from a host name and a port reads back as them. */
  lemma ParseAuthorityOf(host: string, port: Option<int>)
    requires IsHostName(host)
    requires port.Some? ==> 0 <= port.value <= Numbers.IntMax
    ensures ParseAuthority(host + PortText(port)) == Some((host, port))
  {
    HostNameChars(host);
    if port.Some? {
      ParseAuthorityWithPort(host, port.value);
      HostAndPortOf(host, port.value);
    } else {
      assert host + PortText(port) == host;
      assert Text.IndexOf(host, ':').None?;
    }
  }

  /** An authority with a port splits at its first ':', which ends the host. */
  lemma ParseAuthorityWithPort(host: string, p: int)
    requires ':' !in host
    ensures ParseAuthority(host + PortText(Some(p))) == HostAndPort(host, Numbers.IntToString(p))
  {
    var d := Numbers.IntToString(p);
    Text.IndexOfAfterPrefix(host, ':', d);
    var a := host + [':'] + d;
    assert host + PortText(Some(p)) == a;
    assert a[..|host|] == host;
    assert a[|host| + 1..] == d;
  }

  lemma HostAndPortOf(host: string, p: int)
    requires IsHostName(host)
    requires 0 <= p <= Numbers.IntMax
    ensures HostAndPort(host, Numbers.IntToString(p)) == Some((host, Some(p)))
  {
    PortDigits(p);
  }

  /** The authority of a well-formed URL holds neither '/' nor '?'. */
  lemma AuthorityChars(host: string, port: Option<int>)
    requires IsHostName(host)
    requires port.Some? ==> 0 <= port.value <= Numbers.IntMax
    ensures '/' !in AuthorityText(host, port) && '?' !in AuthorityText(host, port)
  {
    HostNameChars(host);
    var p := PortText(port);
    if port.Some? {
      PortDigits(port.value);
      assert p == [':'] + Numbers.IntToString(port.value);
    }
    assert '/' !in p && '?' !in p;
    assert AuthorityText(host, port) == host + p;
  }

  /** The parts after "//" split into authority, path and query. */
  lemma ParseRest(u: Url)
    requires WellFormed(u)
    ensures var rest := AuthorityText(u.host, u.port) + TailText(u.path, u.query);
      var n := AuthorityEnd(rest);
      && ParseAuthority(rest[..n]) == Some((u.host, u.port))
      && rest[n..] == TailText(u.path, u.query)
  {
    var a := AuthorityText(u.host, u.port);
    var t := TailText(u.path, u.query);
    AuthorityChars(u.host, u.port);
    assert t != "" ==> t[0] == '/' || t[0] == '?';
    AuthorityEndOf(a, t);
    assert (a + t)[..|a|] == a && (a + t)[|a|..] == t;
    ParseAuthorityOf(u.host, u.port);
  }

  /** The path and query split at the first '?'. */
  lemma SplitPathQuery(path: string, query: Option<string>)
    requires '?' !in path && (path != "" ==> path[0] == '/')
    ensures SplitTail(TailText(path, query)) == (path, query)
  {
    var t := TailText(path, query);
    if query.Some? {
      Text.IndexOfAfterPrefix(path, '?', query.value);
      assert t == path + ['?'] + query.value;
      assert t[..|path|] == path && t[|path| + 1..] == query.value;
    } else {
      assert t == path;
    }
  }

  /** URL characters other than '#', with complete escape pairs. */
  predicate IsClean(s: string) {
    IsUrlText(s) && '#' !in s && EscapesComplete(s)
  }

  /** Joining clean texts keeps them clean: an escape pair of `a` ends
      inside `a`. */
  lemma CleanAppend(a: string, b: string)
    requires IsClean(a) && IsClean(b)
    ensures IsClean(a + b)
  {
    var s := a + b;
    forall i | 0 <= i < |s| ensures IsUrlChar(s[i]) && s[i] != '#' {
      if i < |a| {
        assert s[i] == a[i];
      } else {
        assert s[i] == b[i - |a|];
      }
    }
    forall i | 0 <= i < |s| ensures EscapeAt(s, i) {
      if i < |a| {
        assert EscapeAt(a, i);
        if s[i] == '%' {
          assert s[i] == a[i] && s[i + 1] == a[i + 1] && s[i + 2] == a[i + 2];
        }
      } else {
        assert EscapeAt(b, i - |a|);
        if s[i] == '%' {
          assert s[i] == b[i - |a|] && s[i + 1] == b[i - |a| + 1] && s[i + 2] == b[i - |a| + 2];
        }
      }
    }
  }

  /** A host and port written out are clean: letters, digits, '-', '.'
      and ':'. */
  lemma AuthorityClean(host: string, port: Option<int>)
    requires HostChars(host)
    requires port.Some? ==> 0 <= port.value <= Numbers.IntMax
    ensures IsClean(AuthorityText(host, port))
  {
    var p := PortText(port);
    assert IsClean(p) by {
      if port.Some? {
        PortDigits(port.value);
        assert p == [':'] + Numbers.IntToString(port.value);
        assert forall i :: 0 <= i < |p| ==> p[i] == ':' || IsDigit(p[i]);
      }
    }
    assert IsClean(host) by {
      forall i | 0 <= i < |host| ensures IsUrlChar(host[i]) && host[i] != '#' && EscapeAt(host, i) {
        assert HostCharAt(host, i);
      }
    }
    CleanAppend(host, p);
  }

  /** A clean path and query written out are clean. */
  lemma TailClean(path: string, query: Option<string>)
    requires IsClean(path)
    requires query.Some? ==> IsClean(query.value)
    ensures IsClean(TailText(path, query))
  {
    var q := QueryText(query);
    assert IsClean(q) by {
      if query.Some? {
        assert IsClean("?");
        CleanAppend("?", query.value);
      }
    }
    CleanAppend(path, q);
  }

  /** A scheme and its ':' are clean. */
  lemma SchemeClean(scheme: string)
    requires IsScheme(scheme)
    ensures IsClean(scheme + ":")
  {
    assert IsClean(scheme) by {
      forall i | 0 <= i < |scheme| ensures IsUrlChar(scheme[i]) && scheme[i] != '#' && EscapeAt(scheme, i) {
        assert IsAlpha(scheme[i]) || IsDigit(scheme[i]) || scheme[i] == '+' || scheme[i] == '-' || scheme[i] == '.';
      }
    }
    assert IsClean(":");
    CleanAppend(scheme, ":");
  }

  /** The text of a well-formed URL is made of URL characters, none '#',
      with complete escape pairs. */
  lemma FormatChars(u: Url)
    requires WellFormed(u)
    ensures IsClean(Format(u))
  {
    var rest := AuthorityText(u.host, u.port) + TailText(u.path, u.query);
    AuthorityClean(u.host, u.port);
    TailClean(u.path, u.query);
    CleanAppend(AuthorityText(u.host, u.port), TailText(u.path, u.query));
    assert IsClean("//");
    CleanAppend("//", rest);
    SchemeClean(u.scheme);
    CleanAppend(u.scheme + ":", "//" + rest);
  }

  /** The server part of a well-formed URL reads back as its components. */
  lemma ParseServerOf(u: Url)
    requires WellFormed(u)
    ensures ParseServer(u.scheme, AuthorityText(u.host, u.port) + TailText(u.path, u.query)) == Some(u)
  {
    ParseRest(u);
    SplitPathQuery(u.path, u.query);
  }

  /** The scheme of a well-formed URL ends at its first ':'. */
  lemma ParseAbsoluteOf(u: Url)
    requires WellFormed(u)
    ensures ParseAbsolute(Format(u)) == Some(u)
  {
    var s := Format(u);
    var rest := AuthorityText(u.host, u.port) + TailText(u.path, u.query);
    assert ':' !in u.scheme by {
      forall i | 0 <= i < |u.scheme| ensures u.scheme[i] != ':' {
        assert IsAlpha(u.scheme[i]) || IsDigit(u.scheme[i]) || u.scheme[i] == '+' || u.scheme[i] == '-' || u.scheme[i] == '.';
      }
    }
    assert s == u.scheme + [':'] + ("//" + rest);
    Text.IndexOfAfterPrefix(u.scheme, ':', "//" + rest);
    assert s[..|u.scheme|] == u.scheme;
    assert s[|u.scheme| + 1..] == "//" + rest;
    assert ("//" + rest)[2..] == rest;
    ParseServerOf(u);
  }

  /** Writing a well-formed URL and parsing it gives the same components:
      `Parse` reads exactly what `Format` writes. */
  lemma ParseFormat(u: Url)
    requires WellFormed(u)
    ensures Parse(Format(u)) == Some(u)
  {
    FormatChars(u);
    assert Fragmentless(Format(u)) == Format(u);
    ParseAbsoluteOf(u);
  }

  /** A slice of URL text is URL text. */
  lemma UrlTextSlice(s: string, i: nat, j: nat)
    requires IsUrlText(s) && i <= j <= |s|
    ensures IsUrlText(s[i..j])
  {
    var t := s[i..j];
    forall k | 0 <= k < |t| ensures IsUrlChar(t[k]) {
      assert t[k] == s[i + k] && IsUrlChar(s[i + k]);
    }
  }

  /** A slice of text with complete escapes keeps them when it ends where
      no hex digit follows. */
  lemma EscapesSlice(s: string, i: nat, j: nat)
    requires EscapesComplete(s) && i <= j <= |s|
    requires j < |s| ==> !IsHex(s[j])
    ensures EscapesComplete(s[i..j])
  {
    var t := s[i..j];
    forall k | 0 <= k < |t| ensures EscapeAt(t, k) {
      assert EscapeAt(s, i + k);
      if t[k] == '%' {
        assert s[i + k] == '%';
        assert i + k + 1 != j && i + k + 2 != j;
      }
    }
  }

  /** A slice of clean text is clean when it ends where no hex digit
      follows. */
  lemma CleanSlice(s: string, i: nat, j: nat)
    requires IsClean(s) && i <= j <= |s|
    requires j < |s| ==> !IsHex(s[j])
    ensures IsClean(s[i..j])
  {
    UrlTextSlice(s, i, j);
    EscapesSlice(s, i, j);
    var t := s[i..j];
    forall k | 0 <= k < |t| ensures t[k] != '#' {
      assert t[k] == s[i + k];
    }
  }

  /** The path and query of a clean tail are clean. */
  lemma SplitTailClean(tail: string)
    requires IsClean(tail) && (tail != "" ==> tail[0] == '/' || tail[0] == '?')
    ensures IsClean(SplitTail(tail).0)
    ensures SplitTail(tail).1.Some? ==> IsClean(SplitTail(tail).1.value)
  {
    var (path, query) := SplitTail(tail);
    CleanParts(tail, path, query);
  }

  /** The two sides of a clean path-and-query text are clean. */
  lemma CleanParts(tail: string, path: string, query: Option<string>)
    requires IsClean(tail) && tail == path + QueryText(query)
    ensures IsClean(path)
    ensures query.Some? ==> IsClean(query.value)
  {
    if query.Some? {
      assert tail[|path|] == '?';
      CleanSlice(tail, |path| + 1, |tail|);
      assert tail[|path| + 1..|tail|] == query.value;
    }
    CleanSlice(tail, 0, |path|);
    assert tail[0..|path|] == path;
  }

  /** The server part keeps the characters of its input. */
  lemma ParseServerClean(scheme: string, rest: string)
    requires IsClean(rest) && ParseServer(scheme, rest).Some?
    ensures IsClean(ParseServer(scheme, rest).value.path)
    ensures ParseServer(scheme, rest).value.query.Some? ==> IsClean(ParseServer(scheme, rest).value.query.value)
  {
    ServerTail(scheme, rest);
    var n := AuthorityEnd(rest);
    CleanSlice(rest, n, |rest|);
    assert rest[n..|rest|] == rest[n..];
    SplitTailClean(rest[n..]);
  }

  /** The path and query of a server part are those of the text after its
      authority. */
  lemma ServerTail(scheme: string, rest: string)
    requires ParseServer(scheme, rest).Some?
    ensures var u := ParseServer(scheme, rest).value;
      (u.path, u.query) == SplitTail(rest[AuthorityEnd(rest)..])
  {
  }

  /** `Parse` gives only well-formed components. */
  lemma ParseWellFormed(s: string)
    requires Parse(s).Some?
    ensures WellFormed(Parse(s).value)
  {
    var body := Fragmentless(s);
    assert body == s[0..|body|];
    UrlTextSlice(s, 0, |body|);
    EscapesSlice(s, 0, |body|);
    assert Parse(s) == ParseAbsolute(body);
    ParseAbsoluteClean(body);
  }

  /** An absolute URL keeps the characters of its clean text. */
  lemma ParseAbsoluteClean(body: string)
    requires IsClean(body) && ParseAbsolute(body).Some?
    ensures IsClean(ParseAbsolute(body).value.path)
    ensures ParseAbsolute(body).value.query.Some? ==> IsClean(ParseAbsolute(body).value.query.value)
  {
    AbsoluteServerPart(body);
    var i := Text.IndexOf(body, ':').value;
    CleanSlice(body, i + 3, |body|);
    assert body[i + 3..|body|] == body[i + 3..];
    ParseServerClean(body[..i], body[i + 3..]);
  }

  /** An absolute URL is its scheme, ':' and "//", then the server part. */
  lemma AbsoluteServerPart(body: string)
    requires ParseAbsolute(body).Some?
    ensures Text.IndexOf(body, ':').Some?
    ensures var i := Text.IndexOf(body, ':').value;
      i + 3 <= |body| && ParseAbsolute(body) == ParseServer(body[..i], body[i + 3..])
  {
    var i := Text.IndexOf(body, ':').value;
    assert body[i + 1..][2..] == body[i + 3..];
  }

  /** A relative Location sends the next request to the same host and port,
      with the location (given a leading '/') as its path and query. */
  lemma ResolveRelative(path: string, query: Option<string>, host: string, port: int)
    requires IsHostName(host) && 0 <= port <= Numbers.IntMax
    requires IsClean(path) && '?' !in path && NoBrackets(path)
    requires query.Some? ==> IsClean(query.value)
    requires !IsAbsolute(TailText(path, query))
    ensures var full := if Text.StartsWith(path, "/") then path else "/" + path;
      && Parse(Resolve(TailText(path, query), host, port)) ==
           Some(Url("http", host, if port != 80 then Some(port) else None, full, query))
      && TargetOf(Parse(Resolve(TailText(path, query), host, port)).value) ==
           Target(host, port, TailText(full, query))
  {
    var full := if Text.StartsWith(path, "/") then path else "/" + path;
    var u := Url("http", host, if port != 80 then Some(port) else None, full, query);
    ResolveIsFormat(path, query, host, port);
    HttpIsScheme();
    SlashedClean(path);
    assert WellFormed(u);
    ParseFormat(u);
  }

  lemma HttpIsScheme()
    ensures IsScheme("http")
  {
    var h := "http";
    assert forall i :: 0 <= i < |h| ==> IsAlpha(h[i]);
  }

  /** Giving a clean path a leading '/' keeps it clean and free of '?',
      '[' and ']'. */
  lemma SlashedClean(path: string)
    requires IsClean(path) && '?' !in path && NoBrackets(path)
    ensures var full := if Text.StartsWith(path, "/") then path else "/" + path;
      IsClean(full) && '?' !in full && NoBrackets(full)
  {
    if !Text.StartsWith(path, "/") {
      assert IsClean("/");
      CleanAppend("/", path);
      var full := "/" + path;
      assert forall i :: 0 < i < |full| ==> full[i] == path[i - 1];
    }
  }

  /** A path and query text starts with '/' exactly when the path does. */
  lemma TailStartsWithSlash(path: string, query: Option<string>)
    ensures Text.StartsWith(TailText(path, query), "/") <==> Text.StartsWith(path, "/")
  {
    var loc := TailText(path, query);
    if |path| > 0 {
      assert loc[0] == path[0];
    } else if query.Some? {
      assert loc[0] == '?';
    }
  }

  /** The path `Resolve` puts after the authority, for a relative location. */
  lemma ResolvedPath(path: string, query: Option<string>)
    ensures var loc := TailText(path, query);
      var full := if Text.StartsWith(path, "/") then path else "/" + path;
      (if Text.StartsWith(loc, "/") then loc else "/" + loc) == TailText(full, query)
  {
    TailStartsWithSlash(path, query);
    if !Text.StartsWith(path, "/") {
      assert "/" + (path + QueryText(query)) == ("/" + path) + QueryText(query);
    }
  }

  /** A relative location resolves to the text of the URL with the current
      host and port and the location as path and query. */
  lemma ResolveIsFormat(path: string, query: Option<string>, host: string, port: int)
    requires !IsAbsolute(TailText(path, query))
    ensures var full := if Text.StartsWith(path, "/") then path else "/" + path;
      Resolve(TailText(path, query), host, port) ==
        Format(Url("http", host, if port != 80 then Some(port) else None, full, query))
  {
    var loc := TailText(path, query);
    var auth := AuthorityText(host, if port != 80 then Some(port) else None);
    var tail := if Text.StartsWith(loc, "/") then loc else "/" + loc;
    assert Resolve(loc, host, port) == "http" + ":" + ("//" + (auth + tail));
    ResolvedPath(path, query);
  }

  /** Every character of an IPv4 address is a digit or a dot. */
  lemma IPv4Chars(s: string, a: nat, b: nat, c: nat)
    requires OctetsAt(s, a, b, c)
    ensures forall i :: 0 <= i < |s| ==> IsDigit(s[i]) || s[i] == '.'
  {
    forall i | 0 <= i < |s| ensures IsDigit(s[i]) || s[i] == '.' {
      if i < a {
        assert s[..a][i] == s[i] && Numbers.DigitValue(s[..a][i], 10).Some?;
      } else if a < i < b {
        assert s[a + 1..b][i - a - 1] == s[i] && Numbers.DigitValue(s[a + 1..b][i - a - 1], 10).Some?;
      } else if b < i < c {
        assert s[b + 1..c][i - b - 1] == s[i] && Numbers.DigitValue(s[b + 1..c][i - b - 1], 10).Some?;
      } else if c < i {
        assert s[c + 1..][i - c - 1] == s[i] && Numbers.DigitValue(s[c + 1..][i - c - 1], 10).Some?;
      }
    }
  }

  /** A host name starts with a letter or digit and ends with one or with
      '.', and no '-' begins or ends a label. So "-a" or "a-.b" has no host. */
  lemma HostNameEnds(s: string)
    requires IsHostName(s)
    ensures |s| > 0 && IsAlnum(s[0]) && (IsAlnum(s[|s| - 1]) || s[|s| - 1] == '.')
    ensures forall i :: 0 <= i < |s| && s[i] == '-' ==> 0 < i < |s| - 1 && s[i - 1] != '.' && s[i + 1] != '.'
  {
    if IsIPv4(s) {
      var a: nat, b: nat, c: nat :| a < b < c < |s| && OctetsAt(s, a, b, c);
      IPv4Chars(s, a, b, c);
      assert s[0] == s[..a][0] && IsDigit(s[0]);
      assert s[|s| - 1] == s[c + 1..][|s| - c - 2] && IsDigit(s[|s| - 1]);
    } else {
      forall i | 0 <= i < |s| && s[i] == '-' ensures 0 < i < |s| - 1 && s[i - 1] != '.' && s[i + 1] != '.' {
        assert 0 < i < |s| - 1;
        var before := LabelBreak(s, i - 1);
        var after := LabelBreak(s, i + 1);
      }
    }
  }

  /** The target's request-URI splits back into the URL's path (or "/")
      and its raw query, as the server's `parseUri` splits it. */
  lemma TargetUriParses(u: Url)
    requires WellFormed(u)
    ensures SplitTail(TargetOf(u).uri) == (if u.path == "" then "/" else u.path, u.query)
  {
    var path := if u.path == "" then "/" else u.path;
    SplitPathQuery(path, u.query);
  }
}
