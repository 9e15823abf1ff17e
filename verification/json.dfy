/** The handlers' hand-written JSON helpers (`JsonUtils`): string escaping
    and unescaping, the flat `{"code":…,"message":…}` reply, and reading one
    string field out of a request body by text search. */
module Json {
  import opened Wrappers
  import Text
  import Numbers

  // ---------------------------------------------------------------------------
  // Escaping
  // ---------------------------------------------------------------------------

  const Backspace: char := 8 as char
  const FormFeed: char := 12 as char

  /** The letter that follows the backslash in a two-char escape of `c`. */
  function EscapeLetter(c: char): Option<char> {
    if c == '"' then Some('"')
    else if c == '\\' then Some('\\')
    else if c == Backspace then Some('b')
    else if c == FormFeed then Some('f')
    else if c == '\n' then Some('n')
    else if c == '\r' then Some('r')
    else if c == '\t' then Some('t')
    else None
  }

  /** The char a two-char escape `\x` stands for, when `x` is a known letter. */
  function UnescapedOf(x: char): Option<char> {
    if x == '"' then Some('"')
    else if x == '\\' then Some('\\')
    else if x == 'b' then Some(Backspace)
    else if x == 'f' then Some(FormFeed)
    else if x == 'n' then Some('\n')
    else if x == 'r' then Some('\r')
    else if x == 't' then Some('\t')
    else None
  }

  function HexDigit(d: nat): (c: char)
    requires d < 16
    ensures '0' <= c <= '9' || 'a' <= c <= 'f'
  {
    Numbers.DigitChar(d)
  }

  /** One char of `escapeJson`'s output loop: the seven named escapes, then
      `\u00xx` (lower-case hex) for the other chars below U+0020. */
  function EscapeChar(c: char): (r: string)
    ensures forall i :: 0 <= i < |r| ==> r[i] >= ' '
    ensures |r| == 1 <==> r == [c]
    ensures |r| == 1 <==> c >= ' ' && c != '"' && c != '\\'
    ensures forall k :: 0 <= k < |r| && r[k] == '"' ==> k == 1 && r[0] == '\\'
  {
    if EscapeLetter(c).Some? then ['\\', EscapeLetter(c).value]
    else if c < ' ' then ['\\', 'u', '0', '0', HexDigit(c as int / 16), HexDigit(c as int % 16)]
    else [c]
  }

  /** `escapeJson` on a non-null string. */
  function Escape(s: string): (r: string)
    ensures forall i :: 0 <= i < |r| ==> r[i] >= ' '
    ensures |r| >= |s|
  {
    if |s| == 0 then "" else EscapeChar(s[0]) + Escape(s[1..])
  }

  /** `escapeJson(text)`: null gives the empty string. */
  function EscapeJson(text: Option<string>): (r: string)
    ensures text.None? ==> r == ""
    ensures forall i :: 0 <= i < |r| ==> r[i] >= ' '
  {
    if text.None? then "" else Escape(text.value)
  }

  /** `unescapeJson` on a non-null string: a backslash followed by a known
      letter becomes one char; any other backslash, a `\u` and a trailing
      lone backslash included, is kept as it is. */
  function Unescape(s: string): (r: string)
    ensures |r| <= |s|
  {
    if |s| == 0 then ""
    else if s[0] == '\\' && |s| > 1 && UnescapedOf(s[1]).Some? then
      [UnescapedOf(s[1]).value] + Unescape(s[2..])
    else [s[0]] + Unescape(s[1..])
  }

  /** Chars that survive an escape and unescape unchanged: everything except
      the control chars that have no named escape. */
  predicate Escapable(s: string) {
    forall i :: 0 <= i < |s| ==> s[i] >= ' ' || EscapeLetter(s[i]).Some?
  }

  lemma EscapeCons(c: char, s: string)
    ensures Escape([c] + s) == EscapeChar(c) + Escape(s)
  {
    assert ([c] + s)[1..] == s;
  }

  /** Unescaping the escape of one char gives it back, whatever follows. */
  lemma UnescapeEscapeChar(c: char, t: string)
    requires c >= ' ' || EscapeLetter(c).Some?
    ensures Unescape(EscapeChar(c) + t) == [c] + Unescape(t)
  {
    var e := EscapeChar(c);
    if EscapeLetter(c).Some? {
      assert (e + t)[2..] == t;
    } else {
      assert (e + t)[1..] == t;
    }
  }

  /** `unescapeJson(escapeJson(s)) == s` for text without unnamed control chars. */
  lemma {:induction false} UnescapeEscape(s: string)
    requires Escapable(s)
    ensures Unescape(Escape(s)) == s
    decreases |s|
  {
    if |s| > 0 {
      assert s == [s[0]] + s[1..];
      UnescapeEscapeChar(s[0], Escape(s[1..]));
      UnescapeEscape(s[1..]);
    }
  }

  /** Unknown escapes, `\u` among them, pass through `unescapeJson` untouched. */
  lemma UnescapeKeepsUnknown(x: char, t: string)
    requires UnescapedOf(x).None?
    ensures Unescape(['\\', x] + t) == ['\\', x] + Unescape(t)
  {
    assert (['\\', x] + t)[1..] == [x] + t;
    assert ([x] + t)[1..] == t;
  }

  /** A trailing lone backslash passes through `unescapeJson` untouched:
      appending a backslash to text that does not end in one appends it to
      the unescaped text. */
  lemma {:induction false} UnescapeSnoc(t: string)
    ensures (|t| == 0 || t[|t| - 1] != '\\') ==> Unescape(t + ['\\']) == Unescape(t) + ['\\']
    decreases |t|
  {
    if |t| == 0 {
    } else if |t| == 1 {
      assert (t + ['\\'])[1..] == ['\\'];
      assert t[1..] == [];
    } else if t[0] == '\\' && UnescapedOf(t[1]).Some? {
      assert (t + ['\\'])[2..] == t[2..] + ['\\'];
      UnescapeSnoc(t[2..]);
    } else {
      assert (t + ['\\'])[1..] == t[1..] + ['\\'];
      UnescapeSnoc(t[1..]);
    }
  }

  // ---------------------------------------------------------------------------
  // The reply body
  // ---------------------------------------------------------------------------

  /** `buildResponse(code, message)`. */
  function BuildResponse(code: int, message: Option<string>): (r: string)
    ensures Text.StartsWith(r, "{\"code\":" + Numbers.IntToString(code) + ",\"message\":\"")
    ensures |r| >= 2 && r[|r| - 2..] == "\"}"
  {
    var p := "{\"code\":" + Numbers.IntToString(code) + ",\"message\":\"";
    var r := p + EscapeJson(message) + "\"}";
    assert r[..|p|] == p;
    r
  }

  /** `buildResponse(code, message, dataKey, dataValue)`: the key is written
      as given, only the two values are escaped. */
  function BuildResponseWith(code: int, message: Option<string>, dataKey: string, dataValue: Option<string>): (r: string)
    ensures Text.StartsWith(r, "{\"code\":" + Numbers.IntToString(code) + ",\"message\":\"")
  {
    var p := "{\"code\":" + Numbers.IntToString(code) + ",\"message\":\"";
    var r := p + EscapeJson(message) + "\",\"" + dataKey + "\":\"" + EscapeJson(dataValue) + "\"}";
    assert r[..|p|] == p;
    r
  }

  // ---------------------------------------------------------------------------
  // Reading a string field
  // ---------------------------------------------------------------------------

  /** `Character.isWhitespace`. */
  predicate IsWhitespace(c: char) {
    var n := c as int;
    n == 0x20 || 0x09 <= n <= 0x0D || 0x1C <= n <= 0x1F
    || n == 0x1680 || 0x2000 <= n <= 0x2006 || 0x2008 <= n <= 0x200A
    || n == 0x2028 || n == 0x2029 || n == 0x205F || n == 0x3000
  }

  /** The first position at or after `i` that does not hold whitespace. */
  function SkipWhitespace(s: string, i: nat): (j: nat)
    requires i <= |s|
    ensures i <= j <= |s|
    ensures forall k :: i <= k < j ==> IsWhitespace(s[k])
    ensures j < |s| ==> !IsWhitespace(s[j])
    decreases |s| - i
  {
    if i < |s| && IsWhitespace(s[i]) then SkipWhitespace(s, i + 1) else i
  }

  /** The value scan of `getString`, over the text after the opening quote:
      the first `"` whose preceding char is not a backslash (the opening
      quote precedes position 0). */
  function QuoteAsWrittenFrom(t: string, j: nat): (r: Option<nat>)
    requires j <= |t|
    ensures r.Some? ==> j <= r.value < |t| && t[r.value] == '"' && (r.value == 0 || t[r.value - 1] != '\\')
    ensures forall k :: j <= k < (if r.Some? then r.value else |t|) && t[k] == '"' ==> k > 0 && t[k - 1] == '\\'
    decreases |t| - j
  {
    if j == |t| then None
    else if t[j] == '"' && (j == 0 || t[j - 1] != '\\') then Some(j)
    else QuoteAsWrittenFrom(t, j + 1)
  }

  /** The closing-quote scan as written. */
  function QuoteAsWritten(t: string): Option<nat> {
    QuoteAsWrittenFrom(t, 0)
  }

  /** The closing-quote scan of a JSON string as the format defines it: a
      backslash escapes the char after it, so an escaped backslash cannot
      hide the quote that follows it. */
  function ClosingQuote(t: string): (r: Option<nat>)
    ensures r.Some? ==> r.value < |t| && t[r.value] == '"'
  {
    if |t| == 0 then None
    else if t[0] == '"' then Some(0)
    else if t[0] == '\\' && |t| >= 2 then Shift(ClosingQuote(t[2..]), 2)
    else Shift(ClosingQuote(t[1..]), 1)
  }

  /** A position found in a tail, counted from `n` chars earlier. */
  function Shift(r: Option<nat>, n: nat): (r': Option<nat>)
    ensures r'.Some? <==> r.Some?
    ensures r.Some? ==> r'.value == r.value + n
  {
    if r.Some? then Some(r.value + n) else None
  }

  /** The steps of `getString` up to the text after the value's opening
      quote: `None` where it returns null before scanning the value. */
  function ValueText(json: Option<string>, key: Option<string>): (r: Option<string>)
    ensures json.None? || key.None? ==> r.None?
    ensures r.Some? ==> json.Some? && key.Some? && Text.Contains(json.value, "\"" + key.value + "\"")
    ensures r.Some? ==> |r.value| < |json.value|
  {
    if json.None? || key.None? then None
    else
      var s := json.value;
      var searchKey := "\"" + key.value + "\"";
      var keyIndex := Text.IndexOfSub(s, searchKey);
      if keyIndex.None? then None
      else
        var colon := Text.IndexOfFrom(s, ':', keyIndex.value + |searchKey|);
        if colon.None? then None
        else
          var valueStart := SkipWhitespace(s, colon.value + 1);
          if valueStart >= |s| || s[valueStart] != '"' then None
          else Some(s[valueStart + 1..])
  }

  /** `getString(json, key)` as written: the value ends at the first quote
      not preceded by a backslash, then is unescaped. */
  function GetStringAsWritten(json: Option<string>, key: Option<string>): (r: Option<string>)
    ensures ValueText(json, key).None? ==> r.None?
    ensures r.Some? ==> QuoteAsWritten(ValueText(json, key).value).Some?
  {
    var t :- ValueText(json, key);
    var e :- QuoteAsWritten(t);
    Some(Unescape(t[..e]))
  }

  /** `getString(json, key)` with the value's end found by the JSON string
      grammar instead; the handlers read their fields with this one. */
  function GetString(json: Option<string>, key: Option<string>): (r: Option<string>)
    ensures ValueText(json, key).None? ==> r.None?
    ensures r.Some? <==> ValueText(json, key).Some? && ClosingQuote(ValueText(json, key).value).Some?
  {
    var t :- ValueText(json, key);
    var e :- ClosingQuote(t);
    Some(Unescape(t[..e]))
  }

  // ---------------------------------------------------------------------------
  // Reading back an escaped value
  // ---------------------------------------------------------------------------

  /** Every quote in escaped text is the second char of a `\"` escape. */
  lemma {:induction false} EscapeQuotesEscaped(s: string)
    ensures forall k :: 0 <= k < |Escape(s)| && Escape(s)[k] == '"' ==> k > 0 && Escape(s)[k - 1] == '\\'
    decreases |s|
  {
    if |s| > 0 {
      var c := EscapeChar(s[0]);
      var e := Escape(s[1..]);
      EscapeQuotesEscaped(s[1..]);
      assert Escape(s) == c + e;
      forall k | 0 <= k < |c + e| && (c + e)[k] == '"'
        ensures k > 0 && (c + e)[k - 1] == '\\'
      {
        if k < |c| {
          assert (c + e)[k] == c[k];
          assert k == 1 && c[0] == '\\';
          assert (c + e)[k - 1] == c[0];
        } else {
          assert (c + e)[k] == e[k - |c|];
          if k > |c| {
            var j := k - |c|;
            assert e[j] == '"';
            assert (c + e)[k - 1] == e[j - 1];
          } else {
            assert false;
          }
        }
      }
    }
  }

  /** Escaped text ends in a backslash only when the original text does. */
  lemma {:induction false} EscapeLast(s: string)
    requires |s| > 0 && s[|s| - 1] != '\\'
    ensures |Escape(s)| > 0 && Escape(s)[|Escape(s)| - 1] != '\\'
    decreases |s|
  {
    if |s| == 1 {
      assert Escape(s) == EscapeChar(s[0]) + Escape(s[1..]);
      assert s[1..] == [];
    } else {
      EscapeLast(s[1..]);
      assert Escape(s) == EscapeChar(s[0]) + Escape(s[1..]);
    }
  }

  /** The as-written scan finds the quote right after escaped text when the
      text does not end in a backslash. */
  lemma QuoteAsWrittenAfterEscape(v: string, x: string)
    requires |v| == 0 || v[|v| - 1] != '\\'
    ensures QuoteAsWritten(Escape(v) + "\"" + x) == Some(|Escape(v)|)
  {
    var e := Escape(v);
    var t := e + "\"" + x;
    EscapeQuotesEscaped(v);
    if |v| > 0 {
      EscapeLast(v);
    }
    assert forall k :: 0 <= k < |e| ==> t[k] == e[k];
    assert t[|e|] == '"';
    assert |e| == 0 || t[|e| - 1] == e[|e| - 1];
  }

  /** The grammar's scan steps over a char that is neither a quote nor a
      backslash. */
  lemma ClosingQuoteSkip(c: char, t: string)
    requires c != '"' && c != '\\'
    ensures ClosingQuote([c] + t) == Shift(ClosingQuote(t), 1)
  {
    assert ([c] + t)[1..] == t;
  }

  /** The grammar's scan steps over a backslash and the char it escapes. */
  lemma ClosingQuoteSkipEscape(x: char, t: string)
    ensures ClosingQuote(['\\', x] + t) == Shift(ClosingQuote(t), 2)
  {
    assert (['\\', x] + t)[2..] == t;
  }

  /** The grammar's scan steps over text free of quotes and backslashes. */
  lemma {:induction false} ClosingQuotePlain(p: string, t: string)
    requires forall i :: 0 <= i < |p| ==> p[i] != '"' && p[i] != '\\'
    ensures ClosingQuote(p + t) == Shift(ClosingQuote(t), |p|)
    decreases |p|
  {
    if |p| > 0 {
      ClosingQuotePlain(p[1..], t);
      assert p + t == [p[0]] + (p[1..] + t);
      ClosingQuoteSkip(p[0], p[1..] + t);
    } else {
      assert p + t == t;
    }
  }

  /** The grammar's scan steps over the escape of one char. */
  lemma ClosingQuoteOverChar(c: char, t: string)
    ensures ClosingQuote(EscapeChar(c) + t) == Shift(ClosingQuote(t), |EscapeChar(c)|)
  {
    if EscapeLetter(c).Some? {
      ClosingQuoteSkipEscape(EscapeLetter(c).value, t);
    } else if c < ' ' {
      var h := ['0', '0', HexDigit(c as int / 16), HexDigit(c as int % 16)];
      assert EscapeChar(c) + t == ['\\', 'u'] + (h + t);
      ClosingQuoteSkipEscape('u', h + t);
      ClosingQuotePlain(h, t);
    } else {
      ClosingQuoteSkip(c, t);
    }
  }

  /** The grammar's scan finds the quote right after any escaped text. */
  lemma {:induction false} ClosingQuoteAfterEscape(v: string, x: string)
    ensures ClosingQuote(Escape(v) + "\"" + x) == Some(|Escape(v)|)
    decreases |v|
  {
    if |v| == 0 {
      assert Escape(v) + "\"" + x == "\"" + x;
    } else {
      var e := EscapeChar(v[0]);
      var rest := Escape(v[1..]);
      assert Escape(v) == e + rest;
      ClosingQuoteAfterEscape(v[1..], x);
      assert Escape(v) + "\"" + x == e + (rest + "\"" + x);
      ClosingQuoteOverChar(v[0], rest + "\"" + x);
    }
  }

  /** The object text `prefix "key":"escaped value"` followed by `suffix`,
      as a client writes one field. */
  function FieldObject(prefix: string, key: string, v: string, suffix: string): string {
    prefix + "\"" + key + "\":\"" + Escape(v) + "\"" + suffix
  }

  /** The chars after the key of a written field: the colon, the opening
      quote, then the escaped value, its closing quote and the rest. */
  lemma FieldObjectShape(prefix: string, key: string, v: string, suffix: string)
    ensures var s := FieldObject(prefix, key, v, suffix);
      var c := |prefix| + |key| + 2;
      && c + 2 <= |s| && s[c] == ':' && s[c + 1] == '"'
      && s[c + 2..] == Escape(v) + "\"" + suffix
  {
    var s := FieldObject(prefix, key, v, suffix);
    var a := prefix + "\"" + key + "\":\"";
    var b := Escape(v) + "\"" + suffix;
    assert s == a + b;
    assert a[|a| - 2] == ':' && a[|a| - 1] == '"';
  }

  /** Where the key is first found, the text after the value's opening quote
      is the escaped value, its closing quote and the rest. */
  lemma ValueTextOfField(prefix: string, key: string, v: string, suffix: string)
    requires Text.IndexOfSub(FieldObject(prefix, key, v, suffix), "\"" + key + "\"") == Some(|prefix|)
    ensures ValueText(Some(FieldObject(prefix, key, v, suffix)), Some(key)) == Some(Escape(v) + "\"" + suffix)
  {
    var s := FieldObject(prefix, key, v, suffix);
    var c := |prefix| + |key| + 2;
    FieldObjectShape(prefix, key, v, suffix);
    assert Text.IndexOfFrom(s, ':', c) == Some(c);
    assert SkipWhitespace(s, c + 1) == c + 1;
  }

  /** Field round trip: `getString` reads back any value written escaped
      after its key, provided the key is first found there. */
  lemma GetStringField(prefix: string, key: string, v: string, suffix: string)
    requires Text.IndexOfSub(FieldObject(prefix, key, v, suffix), "\"" + key + "\"") == Some(|prefix|)
    requires Escapable(v)
    ensures GetString(Some(FieldObject(prefix, key, v, suffix)), Some(key)) == Some(v)
  {
    ValueTextOfField(prefix, key, v, suffix);
    ClosingQuoteAfterEscape(v, suffix);
    var t := Escape(v) + "\"" + suffix;
    assert t[..|Escape(v)|] == Escape(v);
    UnescapeEscape(v);
  }

  /** The same round trip for the scan as written holds exactly when the
      value does not end in a backslash. */
  lemma GetStringAsWrittenField(prefix: string, key: string, v: string, suffix: string)
    requires Text.IndexOfSub(FieldObject(prefix, key, v, suffix), "\"" + key + "\"") == Some(|prefix|)
    requires Escapable(v) && (|v| == 0 || v[|v| - 1] != '\\')
    ensures GetStringAsWritten(Some(FieldObject(prefix, key, v, suffix)), Some(key)) == Some(v)
  {
    ValueTextOfField(prefix, key, v, suffix);
    QuoteAsWrittenAfterEscape(v, suffix);
    var t := Escape(v) + "\"" + suffix;
    assert t[..|Escape(v)|] == Escape(v);
    UnescapeEscape(v);
  }

  /** A key without quotes is first found right after the opening brace of a
      one-field object. */
  lemma KeyFirstInObject(key: string, v: string)
    requires '"' !in key
    ensures Text.IndexOfSub(FieldObject("{", key, v, "}"), "\"" + key + "\"") == Some(1)
  {
    var s := FieldObject("{", key, v, "}");
    var sk := "\"" + key + "\"";
    assert s == "{" + sk + ":\"" + Escape(v) + "\"}";
    assert s[1..1 + |sk|] == sk;
    assert !Text.OccursAt(s, sk, 0) by {
      assert s[0] == '{';
    }
    assert Text.IndexOfSubFrom(s, sk, 1) == Some(1);
  }

  /** No quote in `p` is followed, inside `p`, by `c`. */
  predicate QuotesNotBefore(p: string, c: char) {
    forall j :: 0 <= j < |p| - 1 && p[j] == '"' ==> p[j + 1] != c
  }

  /** A key is first found right after `prefix` when no quote in `prefix`
      is followed by the key's first char: `getString` takes the first
      occurrence of the quoted key, so nothing before it may look like one. */
  lemma KeyAfterQuotes(prefix: string, key: string, v: string, suffix: string)
    requires |key| > 0 && key[0] != '"'
    requires QuotesNotBefore(prefix, key[0])
    ensures Text.IndexOfSub(FieldObject(prefix, key, v, suffix), "\"" + key + "\"") == Some(|prefix|)
  {
    var s := FieldObject(prefix, key, v, suffix);
    var sk := "\"" + key + "\"";
    var tail := ":\"" + Escape(v) + "\"" + suffix;
    assert "\":\"" == "\"" + ":\"";
    KeyRegroup(prefix, "\"", key, ":\"", Escape(v), suffix);
    assert s == prefix + sk + tail;
    assert s[|prefix|..|prefix| + |sk|] == sk;
    forall j | 0 <= j < |prefix|
      ensures !Text.OccursAt(s, sk, j)
    {
      assert s[j] == prefix[j];
      assert s[j + 1] == if j < |prefix| - 1 then prefix[j + 1] else sk[0];
      assert s[j..j + |sk|][0] == s[j] && s[j..j + |sk|][1] == s[j + 1];
    }
    Text.IndexOfSubFromFirst(s, sk, 0, |prefix|);
  }

  lemma KeyRegroup(p: string, q: string, k: string, c: string, e: string, x: string)
    ensures p + q + k + (q + c) + e + q + x == p + (q + k + q) + (c + e + q + x)
  {
  }

  lemma QuotesNotBeforeAppend(a: string, b: string, c: char)
    requires QuotesNotBefore(a, c) && QuotesNotBefore(b, c)
    requires |a| > 0 && |b| > 0 && a[|a| - 1] == '"' ==> b[0] != c
    ensures QuotesNotBefore(a + b, c)
  {
    forall j | 0 <= j < |a + b| - 1 && (a + b)[j] == '"'
      ensures (a + b)[j + 1] != c
    {
      if j < |a| - 1 {
        assert (a + b)[j] == a[j] && (a + b)[j + 1] == a[j + 1];
      } else if j == |a| - 1 {
        assert (a + b)[j] == a[j] && (a + b)[j + 1] == b[0];
      } else {
        assert (a + b)[j] == b[j - |a|] && (a + b)[j + 1] == b[j + 1 - |a|];
      }
    }
  }

  /** Text without quotes escapes to text without quotes. */
  lemma {:induction false} EscapeNoQuote(s: string)
    requires '"' !in s
    ensures '"' !in Escape(s)
    decreases |s|
  {
    if |s| > 0 {
      assert s[0] in s;
      assert forall k :: 1 <= k < |s| ==> s[1..][k - 1] == s[k];
      EscapeNoQuote(s[1..]);
      assert '"' !in EscapeChar(s[0]);
    }
  }

  /** Escaped text starts with the original first char or with a backslash. */
  lemma EscapeHead(s: string)
    requires |s| > 0
    ensures |Escape(s)| > 0 && (Escape(s)[0] == s[0] || Escape(s)[0] == '\\')
  {
    assert Escape(s) == EscapeChar(s[0]) + Escape(s[1..]);
  }

  /** The `{"code":N,` that opens every reply. */
  function CodePrefix(code: int): string {
    "{\"code\":" + Numbers.IntToString(code) + ","
  }

  lemma CodePrefixQuotes(code: int, c: char)
    requires c != 'c' && c != ':'
    ensures QuotesNotBefore(CodePrefix(code), c)
  {
    var n := Numbers.IntToString(code);
    var p := CodePrefix(code);
    Numbers.IntToStringChars(code);
    assert forall j :: 8 <= j < |p| - 1 ==> p[j] == n[j - 8];
  }

  /** Every reply is the message field written after the code. */
  lemma MessageShape(code: int, m: string, rest: string)
    ensures "{\"code\":" + Numbers.IntToString(code) + ",\"message\":\"" + Escape(m) + "\"" + rest
         == FieldObject(CodePrefix(code), "message", m, rest)
  {
    assert ",\"message\":\"" == "," + ("\"" + "message" + "\":\"");
    RegroupMessage("{\"code\":", Numbers.IntToString(code), ",", "\"", "message", "\":\"", Escape(m), rest);
  }

  lemma RegroupMessage(a: string, n: string, c: string, q: string, k: string, d: string, e: string, rest: string)
    ensures a + n + (c + (q + k + d)) + e + q + rest == (a + n + c) + q + k + d + e + q + rest
  {
  }

  lemma RegroupData(h: string, q: string, c: string, k: string, d: string, w: string, z: string)
    ensures h + (q + c) + k + d + w + z == h + q + (c + k + d + w + z)
  {
  }

  /** The message of a reply reads back through `getString`. */
  lemma BuildResponseMessage(code: int, m: string)
    requires Escapable(m)
    ensures GetString(Some(BuildResponse(code, Some(m))), Some("message")) == Some(m)
  {
    var p := CodePrefix(code);
    var h := "{\"code\":" + Numbers.IntToString(code) + ",\"message\":\"" + Escape(m);
    assert BuildResponse(code, Some(m)) == h + "\"}";
    assert h + "\"}" == h + "\"" + "}" by {
      assert "\"}" == "\"" + "}";
    }
    MessageShape(code, m, "}");
    CodePrefixQuotes(code, 'm');
    KeyAfterQuotes(p, "message", m, "}");
    GetStringField(p, "message", m, "}");
  }

  /** The message of a reply with a data field reads back through `getString`. */
  lemma BuildResponseWithMessage(code: int, m: string, dataKey: string, v: string)
    requires Escapable(m)
    ensures GetString(Some(BuildResponseWith(code, Some(m), dataKey, Some(v))), Some("message")) == Some(m)
  {
    var p := CodePrefix(code);
    var rest := ",\"" + dataKey + "\":\"" + Escape(v) + "\"}";
    var h := "{\"code\":" + Numbers.IntToString(code) + ",\"message\":\"" + Escape(m);
    assert BuildResponseWith(code, Some(m), dataKey, Some(v)) == h + "\",\"" + dataKey + "\":\"" + Escape(v) + "\"}";
    assert "\",\"" == "\"" + ",\"";
    RegroupData(h, "\"", ",\"", dataKey, "\":\"", Escape(v), "\"}");
    MessageShape(code, m, rest);
    CodePrefixQuotes(code, 'm');
    KeyAfterQuotes(p, "message", m, rest);
    GetStringField(p, "message", m, rest);
  }

  /** `"message":"…",` with a quote-free message: its quotes are followed
      by `m`, `:`, the message's first char (or the closing quote) and `,`. */
  lemma MessageFieldQuotes(m: string, c: char)
    requires c != '"' && c != 'm' && c != ':' && c != ',' && c != '\\'
    requires '"' !in m && (|m| == 0 || m[0] != c)
    ensures QuotesNotBefore("\"message\":\"" + Escape(m) + "\",", c)
  {
    var key := "\"message\":\"";
    var e := Escape(m);
    var t := e + "\",";
    EscapeNoQuote(m);
    if |m| > 0 {
      EscapeHead(m);
      assert t[0] == e[0];
    } else {
      assert t[0] == '"';
    }
    MessageKeyQuotes(c);
    ValueTailQuotes(e, c);
    QuotesNotBeforeAppend(key, t, c);
    assert key + e + "\"," == key + t;
  }

  lemma MessageKeyQuotes(c: char)
    requires c != 'm' && c != ':'
    ensures QuotesNotBefore("\"message\":\"", c)
  {
    var key := "\"message\":\"";
    assert key[0] == '"' && key[1] == 'm' && key[8] == '"' && key[9] == ':' && key[10] == '"';
    assert forall j :: 1 < j < 8 ==> key[j] != '"';
  }

  lemma ValueTailQuotes(e: string, c: char)
    requires '"' !in e && c != ','
    ensures QuotesNotBefore(e + "\",", c)
  {
    assert QuotesNotBefore("\",", c) by {
      assert "\","[1] == ',';
    }
    QuotesNotBeforeAppend(e, "\",", c);
  }

  /** A reply with a data field is that field written after the code and
      message fields. */
  lemma DataFieldShape(code: int, m: string, dataKey: string, v: string)
    ensures BuildResponseWith(code, Some(m), dataKey, Some(v))
         == FieldObject(CodePrefix(code) + ("\"message\":\"" + Escape(m) + "\","), dataKey, v, "}")
  {
    assert ",\"message\":\"" == "," + "\"message\":\"";
    assert "\",\"" == "\"," + "\"";
    assert "\"}" == "\"" + "}";
    Regroup("{\"code\":", Numbers.IntToString(code), ",", "\"message\":\"", Escape(m), "\",", "\"",
            dataKey, "\":\"", Escape(v), "}");
  }

  lemma Regroup(a: string, n: string, c: string, m: string, e: string, q2: string, q: string,
                k: string, d: string, w: string, b: string)
    ensures a + n + (c + m) + e + (q2 + q) + k + d + w + (q + b)
         == (a + n + c) + (m + e + q2) + q + k + d + w + q + b
  {
  }

  /** The data field of a reply reads back through `getString` when nothing
      before it looks like its quoted key: the key starts with none of the
      chars that follow a quote in `{"code":N,"message":"…",`, and the message
      has no quote and does not start with the key's first char. */
  lemma BuildResponseWithData(code: int, m: string, dataKey: string, v: string)
    requires Escapable(v)
    requires |dataKey| > 0
    requires var c := dataKey[0]; c != '"' && c != 'c' && c != 'm' && c != ':' && c != ',' && c != '\\'
    requires '"' !in m && (|m| == 0 || m[0] != dataKey[0])
    ensures GetString(Some(BuildResponseWith(code, Some(m), dataKey, Some(v))), Some(dataKey)) == Some(v)
  {
    var c := dataKey[0];
    var p := CodePrefix(code);
    var t := "\"message\":\"" + Escape(m) + "\",";
    DataFieldShape(code, m, dataKey, v);
    CodePrefixQuotes(code, c);
    MessageFieldQuotes(m, c);
    QuotesNotBeforeAppend(p, t, c);
    KeyAfterQuotes(p + t, dataKey, v, "}");
    GetStringField(p + t, dataKey, v, "}");
  }

  lemma EscapeTrailingBackslash()
    ensures Escape("a\\") == "a\\\\"
    ensures FieldObject("{", "k", "a\\", "}") == "{\"k\":\"a\\\\\"}"
  {
    assert "a\\"[1..] == "\\";
    assert "\\"[1..] == "";
  }

  /** The value `a\` written as `{"k":"a\\"}` (the escaped backslash then
      the closing quote): the scan as written skips the closing quote and
      finds no other, so the field reads as null; the grammar's scan reads
      it back. */
  lemma TrailingBackslashLost()
    ensures FieldObject("{", "k", "a\\", "}") == "{\"k\":\"a\\\\\"}"
    ensures GetStringAsWritten(Some("{\"k\":\"a\\\\\"}"), Some("k")) == None
    ensures GetString(Some("{\"k\":\"a\\\\\"}"), Some("k")) == Some("a\\")
  {
    EscapeTrailingBackslash();
    KeyFirstInObject("k", "a\\");
    ValueTextOfField("{", "k", "a\\", "}");
    QuoteAsWrittenMisses();
    GetStringField("{", "k", "a\\", "}");
  }

  /** No quote in `a\\"}` is free of a preceding backslash. */
  lemma QuoteAsWrittenMisses()
    ensures QuoteAsWritten("a\\\\\"}") == None
  {
    var t := "a\\\\\"}";
    assert |t| == 5 && t[2] == '\\' && t[3] == '"' && t[4] == '}';
    assert QuoteAsWrittenFrom(t, 5) == None;
    assert QuoteAsWrittenFrom(t, 4) == None;
    assert QuoteAsWrittenFrom(t, 3) == None;
    assert QuoteAsWrittenFrom(t, 2) == None;
    assert QuoteAsWrittenFrom(t, 1) == None;
  }
}
