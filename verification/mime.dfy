/** `MimeTypes`: the extension table, the lookup by file name and the two
    classifications of a MIME type. */
module Mime {
  import opened Wrappers
  import Text

  const OctetStream: string := "application/octet-stream"

  /** The extension table, keys with their leading dot and in lower case. */
  const Types: map<string, string> := map[
    ".html" := "text/html; charset=UTF-8",
    ".htm" := "text/html; charset=UTF-8",
    ".css" := "text/css; charset=UTF-8",
    ".js" := "application/javascript; charset=UTF-8",
    ".json" := "application/json; charset=UTF-8",
    ".xml" := "application/xml; charset=UTF-8",
    ".txt" := "text/plain; charset=UTF-8",
    ".png" := "image/png",
    ".jpg" := "image/jpeg",
    ".jpeg" := "image/jpeg",
    ".gif" := "image/gif",
    ".ico" := "image/x-icon",
    ".svg" := "image/svg+xml",
    ".webp" := "image/webp",
    ".pdf" := "application/pdf",
    ".zip" := "application/zip",
    ".woff" := "font/woff",
    ".woff2" := "font/woff2"
  ]

  /** The text `getMimeType` looks up: the name from its last '.' on,
      lower-cased; nothing when the name has no '.'. */
  function Extension(name: string): (e: Option<string>)
    ensures e.None? <==> '.' !in name
    ensures e.Some? ==>
      && 1 <= |e.value| <= |name|
      && name[|name| - |e.value|] == '.'
      && '.' !in name[|name| - |e.value| + 1..]
      && e.value == Text.ToLower(name[|name| - |e.value|..])
  {
    match Text.LastIndexOf(name, '.')
    case None => None
    case Some(i) => Some(Text.ToLower(name[i..]))
  }

  /** `getMimeType(fileName)`: the table entry for the extension, and
      `application/octet-stream` for a null name, a name without a '.' and
      an extension the table does not know. */
  function MimeType(name: Option<string>): (m: string)
    ensures m == OctetStream || m in Types.Values
    ensures m == OctetStream <==>
      name.None? || Extension(name.value).None? || Extension(name.value).value !in Types
    ensures name.Some? && Extension(name.value).Some? && Extension(name.value).value in Types ==>
      m == Types[Extension(name.value).value]
  {
    if name.None? then OctetStream
    else match Extension(name.value)
      case None => OctetStream
      case Some(e) => if e in Types then Types[e] else OctetStream
  }

  /** `isTextType(mimeType)`. */
  predicate IsTextType(m: Option<string>) {
    m.Some? &&
    (Text.StartsWith(m.value, "text/") || Text.Contains(m.value, "json")
     || Text.Contains(m.value, "xml") || Text.Contains(m.value, "javascript"))
  }

  /** `isImageType(mimeType)`. */
  predicate IsImageType(m: Option<string>) {
    m.Some? && Text.StartsWith(m.value, "image/")
  }

  // ---------------------------------------------------------------------------
  // Lookup by suffix
  // ---------------------------------------------------------------------------

  /** The extension starts at the last '.'. */
  lemma ExtensionAt(name: string, i: nat)
    requires Text.LastIndexOf(name, '.') == Some(i)
    ensures Extension(name) == Some(Text.ToLower(name[i..]))
  {
  }

  /** A name ending in '.' and a dot-free tail has that suffix, lower-cased,
      as its extension, whatever precedes it. */
  lemma ExtensionOfSuffix(base: string, x: string)
    requires |x| >= 1 && x[0] == '.' && '.' !in x[1..]
    ensures Extension(base + x) == Some(Text.ToLower(x))
  {
    var name := base + x;
    assert name[|base|] == '.';
    var i := Text.LastIndexOf(name, '.');
    assert '.' !in name[|base| + 1..] by {
      assert name[|base| + 1..] == x[1..];
    }
    if i.value < |base| {
      assert false;
    } else if i.value > |base| {
      assert false;
    }
    assert name[|base|..] == x;
  }

  /** A '.' followed by dot-free lower-case text without a '/'. */
  predicate KeyShape(k: string) {
    |k| >= 2 && k[0] == '.' && '.' !in k[1..] && '/' !in k && Text.ToLower(k) == k
  }

  /** Every key of the table has that shape. */
  lemma TypesKeys(k: string)
    requires k in Types
    ensures KeyShape(k)
  {
    KeyGroups(k);
    if k in ImageKeys {
      ImageKeysShape(k);
    } else if k in ApplicationKeys {
      ApplicationKeysShape(k);
    } else {
      OtherKeysShape(k);
    }
  }

  lemma ImageKeysShape(k: string)
    requires k in ImageKeys
    ensures KeyShape(k)
  {
    assert forall i :: 0 <= i < |k| ==> Text.ToLowerChar(k[i]) == k[i];
  }

  lemma ApplicationKeysShape(k: string)
    requires k in ApplicationKeys
    ensures KeyShape(k)
  {
    assert forall i :: 0 <= i < |k| ==> Text.ToLowerChar(k[i]) == k[i];
  }

  lemma OtherKeysShape(k: string)
    requires k in TextPrefixKeys || k in FontKeys
    ensures KeyShape(k)
  {
    assert forall i :: 0 <= i < |k| ==> Text.ToLowerChar(k[i]) == k[i];
  }

  /** Any name ending in a known extension gets that extension's type. */
  lemma MimeTypeOfKnownSuffix(base: string, ext: string)
    requires ext in Types
    ensures MimeType(Some(base + ext)) == Types[ext]
  {
    TypesKeys(ext);
    ExtensionOfSuffix(base, ext);
  }

  /** The lookup ignores case: an upper-case extension gets the same type. */
  lemma MimeTypeIgnoresCase(base: string, ext: string)
    requires ext in Types
    ensures MimeType(Some(base + Text.ToUpper(ext))) == Types[ext]
  {
    TypesKeys(ext);
    var up := Text.ToUpper(ext);
    assert up[1..] == Text.ToUpper(ext[1..]);
    assert '.' !in up[1..];
    assert Text.ToLower(up) == ext;
    ExtensionOfSuffix(base, up);
  }

  /** Only the last '.' counts: an unknown final extension hides a known
      one before it. */
  lemma LastDotDecides(base: string, ext: string, tail: string)
    requires ext in Types
    requires |tail| >= 1 && tail[0] == '.' && '.' !in tail[1..] && Text.ToLower(tail) !in Types
    ensures MimeType(Some(base + ext + tail)) == OctetStream
  {
    ExtensionOfSuffix(base + ext, tail);
  }

  // ---------------------------------------------------------------------------
  // Classification of the table
  // ---------------------------------------------------------------------------

  lemma OccursContains(s: string, sub: string, i: nat)
    requires Text.OccursAt(s, sub, i)
    ensures Text.Contains(s, sub)
  {
    Text.ContainsIff(s, sub);
  }

  /** A text lacking one of the chars of `sub` does not contain `sub`. */
  lemma MissingCharNotContains(s: string, sub: string, k: nat)
    requires k < |sub| && sub[k] !in s
    ensures !Text.Contains(s, sub)
  {
    Text.ContainsIff(s, sub);
  }

  /** The keys whose type is text. */
  const TextKeys: set<string> := {".html", ".htm", ".css", ".js", ".json", ".xml", ".txt", ".svg"}

  /** The keys whose type is an image. */
  const ImageKeys: set<string> := {".png", ".jpg", ".jpeg", ".gif", ".ico", ".svg", ".webp"}

  /** A type that does not start with `text/` and lacks one char of each of
      `json`, `xml` and `javascript` is not text. */
  lemma NotTextType(v: string, j: nat, x: nat, s: nat)
    requires |v| >= 1 && v[0] != 't'
    requires j < 4 && "json"[j] !in v
    requires x < 3 && "xml"[x] !in v
    requires s < 10 && "javascript"[s] !in v
    ensures !IsTextType(Some(v))
  {
    assert !Text.StartsWith(v, "text/") by {
      if |v| >= 5 { assert v[..5][0] == v[0]; }
    }
    MissingCharNotContains(v, "json", j);
    MissingCharNotContains(v, "xml", x);
    MissingCharNotContains(v, "javascript", s);
  }

  lemma ScriptIsText()
    ensures IsTextType(Some("application/javascript; charset=UTF-8"))
  {
    assert "application/javascript; charset=UTF-8" == "application/" + "javascript" + "; charset=UTF-8";
    OccursContains("application/javascript; charset=UTF-8", "javascript", 12);
  }

  lemma JsonIsText()
    ensures IsTextType(Some("application/json; charset=UTF-8"))
  {
    assert "application/json; charset=UTF-8" == "application/" + "json" + "; charset=UTF-8";
    OccursContains("application/json; charset=UTF-8", "json", 12);
  }

  lemma XmlIsText()
    ensures IsTextType(Some("application/xml; charset=UTF-8"))
  {
    assert "application/xml; charset=UTF-8" == "application/" + "xml" + "; charset=UTF-8";
    OccursContains("application/xml; charset=UTF-8", "xml", 12);
  }

  lemma SvgIsText()
    ensures IsTextType(Some("image/svg+xml"))
  {
    assert "image/svg+xml" == "image/svg+" + "xml";
    OccursContains("image/svg+xml", "xml", 10);
  }

  /** The keys of the table, by the first char of their type. */
  const TextPrefixKeys: set<string> := {".html", ".htm", ".css", ".txt"}
  const ApplicationKeys: set<string> := {".js", ".json", ".xml", ".pdf", ".zip"}
  const FontKeys: set<string> := {".woff", ".woff2"}

  lemma KeyGroups(k: string)
    requires k in Types
    ensures k in TextPrefixKeys || k in ApplicationKeys || k in FontKeys || k in ImageKeys
  {
  }

  lemma TextKeysText(k: string)
    requires k in TextKeys
    ensures IsTextType(Some(Types[k]))
  {
    if k in TextPrefixKeys {
      assert Text.StartsWith(Types[k], "text/");
    } else if k == ".js" {
      ScriptIsText();
    } else if k == ".json" {
      JsonIsText();
    } else if k == ".xml" {
      XmlIsText();
    } else {
      SvgIsText();
    }
  }

  lemma OtherKeysNotText(k: string)
    requires k in Types && k !in TextKeys
    ensures !IsTextType(Some(Types[k]))
  {
    KeyGroups(k);
    if k in ImageKeys {
      ImagesNotText(k);
    } else {
      ArchivesNotText(k);
    }
  }

  lemma ImagesNotText(k: string)
    requires k in ImageKeys && k != ".svg"
    ensures !IsTextType(Some(Types[k]))
  {
    if k == ".jpg" || k == ".jpeg" || k == ".ico" {
      OddImagesNotText(k);
    } else {
      NotTextType(Types[k], 0, 0, 0);
    }
  }

  /** The two image types that hold a 'j' or an 'x'. */
  lemma OddImagesNotText(k: string)
    requires k == ".jpg" || k == ".jpeg" || k == ".ico"
    ensures !IsTextType(Some(Types[k]))
  {
    if k == ".ico" {
      NotTextType(Types[k], 0, 2, 0);
    } else {
      NotTextType(Types[k], 2, 0, 2);
    }
  }

  lemma ArchivesNotText(k: string)
    requires k in {".pdf", ".zip", ".woff", ".woff2"}
    ensures !IsTextType(Some(Types[k]))
  {
    NotTextType(Types[k], 0, 0, 0);
  }

  /** The text types: the markup, style, script, JSON, XML and plain-text
      entries, and SVG, which is both text and an image. */
  lemma TextTypes(k: string)
    requires k in Types
    ensures IsTextType(Some(Types[k])) <==> k in TextKeys
  {
    if k in TextKeys {
      TextKeysText(k);
    } else {
      OtherKeysNotText(k);
    }
  }

  /** The image types: exactly the `image/` entries. */
  lemma ImageTypes(k: string)
    requires k in Types
    ensures IsImageType(Some(Types[k])) <==> k in ImageKeys
  {
    KeyGroups(k);
    if k in ImageKeys {
      assert Text.StartsWith(Types[k], "image/");
    } else {
      assert Types[k][0] in "taf";
      assert Types[k][..6][0] == Types[k][0];
    }
  }

  /** The fallback type is neither text nor an image. */
  lemma OctetStreamIsBinary()
    ensures !IsTextType(Some(OctetStream)) && !IsImageType(Some(OctetStream))
  {
    NotTextType(OctetStream, 0, 0, 0);
    assert OctetStream[..6][0] != 'i';
  }
}
