/** The request-method enumeration (`HttpMethod`) and its lenient parser. */
module Methods {
  import opened Wrappers
  import Text

  datatype HttpMethod = Get | Post | Put | Delete | Head | Options | Patch | Unknown

  /** The constants in declaration order, as `values()` lists them. */
  const AllMethods: seq<HttpMethod> := [Get, Post, Put, Delete, Head, Options, Patch, Unknown]

  /** `name()`: the upper-case token of the constant. */
  function Name(m: HttpMethod): string {
    match m
    case Get => "GET"
    case Post => "POST"
    case Put => "PUT"
    case Delete => "DELETE"
    case Head => "HEAD"
    case Options => "OPTIONS"
    case Patch => "PATCH"
    case Unknown => "UNKNOWN"
  }

  lemma AllMethodsComplete(m: HttpMethod)
    ensures m in AllMethods
  {
  }

  /** `valueOf(name)`: the constant whose name is exactly `name`. */
  function ValueOf(name: string): (r: Option<HttpMethod>)
    ensures r.Some? ==> Name(r.value) == name
    ensures r.None? ==> forall m: HttpMethod :: Name(m) != name
  {
    match name
    case "GET" => Some(Get)
    case "POST" => Some(Post)
    case "PUT" => Some(Put)
    case "DELETE" => Some(Delete)
    case "HEAD" => Some(Head)
    case "OPTIONS" => Some(Options)
    case "PATCH" => Some(Patch)
    case "UNKNOWN" => Some(Unknown)
    case _ => None
  }

  /** `HttpMethod.fromString`: null and unrecognised tokens give Unknown; the
      match ignores case. */
  function FromString(token: Option<string>): (r: HttpMethod)
    ensures token.None? ==> r == Unknown
    ensures token.Some? && r != Unknown ==> Name(r) == Text.ToUpper(token.value)
    ensures token.Some? ==> forall m: HttpMethod :: Name(m) == Text.ToUpper(token.value) ==> r == m
  {
    match token
    case None => Unknown
    case Some(t) =>
      match ValueOf(Text.ToUpper(t))
      case Some(m) => m
      case None => Unknown
  }

  /** Names are distinct, so a name identifies its method. */
  lemma NameInjective(m: HttpMethod, n: HttpMethod)
    ensures Name(m) == Name(n) ==> m == n
  {
  }

  /** Parsing a method's own name, in any letter case, gives the method back. */
  lemma FromStringIgnoresCase(m: HttpMethod, token: string)
    requires Text.ToUpper(token) == Name(m)
    ensures FromString(Some(token)) == m
  {
  }

  /** `"get"` and `"GeT"` both parse as GET. */
  lemma FromStringExamples()
    ensures FromString(Some("get")) == Get
    ensures FromString(Some("GeT")) == Get
    ensures FromString(Some("FETCH")) == Unknown
  {
    assert Text.ToUpper("get") == "GET";
    assert Text.ToUpper("GeT") == "GET";
    assert Text.ToUpper("FETCH") == "FETCH";
  }

  /** Every method's own name parses back to it (the client writes names,
      the server parses them). */
  lemma FromStringName(m: HttpMethod)
    ensures FromString(Some(Name(m))) == m
  {
    var n := Name(m);
    assert forall i :: 0 <= i < |n| ==> 'A' <= n[i] <= 'Z';
    assert Text.ToUpper(n) == n;
    FromStringIgnoresCase(m, n);
  }
}
