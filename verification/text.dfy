/** The java.lang.String operations the HTTP code relies on, written over
    `string` with Java's semantics: `indexOf`, `lastIndexOf`, `trim`,
    `startsWith`, `contains`, `split` (with and without a limit),
    `toLowerCase`/`toUpperCase` and `equalsIgnoreCase`. Case mapping covers
    ASCII letters only. */
module Text {
  import opened Wrappers

  // ---------------------------------------------------------------------------
  // Searching
  // ---------------------------------------------------------------------------

  /** `s.indexOf(c, from)`: the first position at or after `from` holding `c`. */
  function IndexOfFrom(s: string, c: char, from: nat): (r: Option<nat>)
    ensures r.Some? ==> from <= r.value < |s| && s[r.value] == c
    ensures r.Some? ==> forall j :: from <= j < r.value ==> s[j] != c
    ensures r.None? ==> forall j :: from <= j < |s| ==> s[j] != c
    decreases |s| - from
  {
    if from >= |s| then None
    else if s[from] == c then Some(from)
    else IndexOfFrom(s, c, from + 1)
  }

  /** `s.indexOf(c)`. */
  function IndexOf(s: string, c: char): (r: Option<nat>)
    ensures r.Some? ==> r.value < |s| && s[r.value] == c && c !in s[..r.value]
    ensures r.None? <==> c !in s
  {
    var r := IndexOfFrom(s, c, 0);
    assert r.Some? ==> forall j :: 0 <= j < r.value ==> s[..r.value][j] != c;
    r
  }

  /** `s.lastIndexOf(c)`. */
  function LastIndexOf(s: string, c: char): (r: Option<nat>)
    ensures r.Some? ==> r.value < |s| && s[r.value] == c && c !in s[r.value + 1..]
    ensures r.None? <==> c !in s
  {
    if |s| == 0 then None
    else if s[|s| - 1] == c then Some(|s| - 1)
    else
      var r := LastIndexOf(s[..|s| - 1], c);
      assert s == s[..|s| - 1] + [s[|s| - 1]];
      assert r.Some? ==> s[r.value + 1..] == s[..|s| - 1][r.value + 1..] + [s[|s| - 1]];
      r
  }

  /** `s.startsWith(p)`. */
  predicate StartsWith(s: string, p: string) {
    |p| <= |s| && s[..|p|] == p
  }

  /** True when `sub` occurs in `s` at position `i`. */
  predicate OccursAt(s: string, sub: string, i: nat) {
    i + |sub| <= |s| && s[i..i + |sub|] == sub
  }

  /** `s.indexOf(sub, from)`: the first position at or after `from` where `sub` occurs. */
  function IndexOfSubFrom(s: string, sub: string, from: nat): (r: Option<nat>)
    ensures r.Some? ==> from <= r.value && OccursAt(s, sub, r.value)
    ensures r.Some? ==> forall j :: from <= j < r.value ==> !OccursAt(s, sub, j)
    ensures r.None? ==> forall j :: from <= j ==> !OccursAt(s, sub, j)
    decreases |s| - from
  {
    if from + |sub| > |s| then None
    else if s[from..from + |sub|] == sub then Some(from)
    else IndexOfSubFrom(s, sub, from + 1)
  }

  /** `s.indexOf(sub)`. */
  function IndexOfSub(s: string, sub: string): Option<nat> {
    IndexOfSubFrom(s, sub, 0)
  }

  /** `s.contains(sub)`. */
  predicate Contains(s: string, sub: string) {
    IndexOfSub(s, sub).Some?
  }

  /** An occurrence with none before it is the one `indexOf` finds. */
  lemma IndexOfSubFromFirst(s: string, sub: string, from: nat, i: nat)
    requires from <= i && OccursAt(s, sub, i)
    requires forall j :: from <= j < i ==> !OccursAt(s, sub, j)
    ensures IndexOfSubFrom(s, sub, from) == Some(i)
  {
  }

  /** Every text contains itself. */
  lemma ContainsSelf(s: string)
    ensures Contains(s, s)
  {
    assert OccursAt(s, s, 0);
  }

  lemma ContainsIff(s: string, sub: string)
    ensures Contains(s, sub) <==> exists i: nat :: OccursAt(s, sub, i)
  {
    var r := IndexOfSub(s, sub);
    if r.Some? {
      assert OccursAt(s, sub, r.value);
    }
  }

  /** A position holding `c` with no `c` after it is the last index of `c`. */
  lemma LastIndexOfAt(s: string, c: char, i: nat)
    requires i < |s| && s[i] == c && c !in s[i + 1..]
    ensures LastIndexOf(s, c) == Some(i)
  {
    assert c in s by { assert s[i] == c; }
  }

  // ---------------------------------------------------------------------------
  // trim
  // ---------------------------------------------------------------------------

  /** What `String.trim` strips: every char at or below U+0020. */
  predicate IsTrimmable(c: char) {
    c <= ' '
  }

  /** Every char of `s` is trimmable. */
  predicate AllTrimmable(s: string) {
    forall k :: 0 <= k < |s| ==> IsTrimmable(s[k])
  }

  function TrimStart(s: string): (r: string)
    ensures |r| <= |s| && r == s[|s| - |r|..]
    ensures |r| > 0 ==> !IsTrimmable(r[0])
    ensures forall i :: 0 <= i < |s| - |r| ==> IsTrimmable(s[i])
  {
    if |s| > 0 && IsTrimmable(s[0]) then TrimStart(s[1..]) else s
  }

  function TrimEnd(s: string): (r: string)
    ensures |r| <= |s| && r == s[..|r|]
    ensures |r| > 0 ==> !IsTrimmable(r[|r| - 1])
    ensures forall i :: |r| <= i < |s| ==> IsTrimmable(s[i])
  {
    if |s| > 0 && IsTrimmable(s[|s| - 1]) then TrimEnd(s[..|s| - 1]) else s
  }

  /** `s.trim()`: `s` without its leading and trailing chars at or below U+0020. */
  function Trim(s: string): (r: string)
    ensures |r| <= |s|
    ensures |r| == 0 || (!IsTrimmable(r[0]) && !IsTrimmable(r[|r| - 1]))
    ensures exists i, j :: 0 <= i <= j <= |s| && r == s[i..j] && AllTrimmable(s[..i]) && AllTrimmable(s[j..])
  {
    var a := TrimStart(s);
    var r := TrimEnd(a);
    TrimParts(s, a, r);
    r
  }

  /** Trimming the start and then the end cuts one slice out of `s`, with
      only trimmable chars around it. */
  lemma TrimParts(s: string, a: string, r: string)
    requires |a| <= |s| && a == s[|s| - |a|..] && forall k :: 0 <= k < |s| - |a| ==> IsTrimmable(s[k])
    requires |r| <= |a| && r == a[..|r|] && forall k :: |r| <= k < |a| ==> IsTrimmable(a[k])
    ensures |s| - |a| + |r| <= |s|
    ensures r == s[|s| - |a|..|s| - |a| + |r|]
    ensures AllTrimmable(s[..|s| - |a|]) && AllTrimmable(s[|s| - |a| + |r|..])
  {
    var i := |s| - |a|;
    var j := i + |r|;
    assert a == s[i..] && r == a[..|r|];
    assert r == s[i..j];
    forall k | 0 <= k < |s[..i]|
      ensures IsTrimmable(s[..i][k])
    {
      assert s[..i][k] == s[k];
    }
    forall k | 0 <= k < |s[j..]|
      ensures IsTrimmable(s[j..][k])
    {
      assert s[j..][k] == a[|r| + k];
    }
  }

  /** A string that neither starts nor ends with a trimmable char is its own trim. */
  lemma TrimOfTrimmed(s: string)
    requires |s| == 0 || (!IsTrimmable(s[0]) && !IsTrimmable(s[|s| - 1]))
    ensures Trim(s) == s
  {
  }

  /** Trimming is idempotent. */
  lemma TrimIdempotent(s: string)
    ensures Trim(Trim(s)) == Trim(s)
  {
    TrimOfTrimmed(Trim(s));
  }

  /** A leading blank makes no difference to the trimmed string. */
  lemma TrimSkipsBlank(c: char, s: string)
    requires IsTrimmable(c)
    ensures Trim([c] + s) == Trim(s)
  {
    assert ([c] + s)[1..] == s;
  }

  /** `s.trim().isEmpty()`: the string is blank. */
  lemma TrimEmptyIff(s: string)
    ensures Trim(s) == "" <==> forall i :: 0 <= i < |s| ==> IsTrimmable(s[i])
  {
    var t := TrimStart(s);
    if t != "" {
      assert !IsTrimmable(s[|s| - |t|]);
      assert TrimEnd(t) != "";
    }
  }

  /** `s.length()`: Java counts UTF-16 code units, two for a char beyond U+FFFF. */
  function Utf16Length(s: string): (n: nat)
    ensures |s| <= n <= 2 * |s|
    ensures (forall i :: 0 <= i < |s| ==> s[i] as int < 0x1_0000) ==> n == |s|
  {
    if |s| == 0 then 0
    else (if s[0] as int < 0x1_0000 then 1 else 2) + Utf16Length(s[1..])
  }

  // ---------------------------------------------------------------------------
  // Case (ASCII letters)
  // ---------------------------------------------------------------------------

  function ToLowerChar(c: char): char {
    if 'A' <= c <= 'Z' then (c as int + 32) as char else c
  }

  function ToUpperChar(c: char): char {
    if 'a' <= c <= 'z' then (c as int - 32) as char else c
  }

  /** `s.toLowerCase()` on ASCII letters. */
  function ToLower(s: string): (r: string)
    ensures |r| == |s| && forall i :: 0 <= i < |s| ==> r[i] == ToLowerChar(s[i])
  {
    seq(|s|, i requires 0 <= i < |s| => ToLowerChar(s[i]))
  }

  /** `s.toUpperCase()` on ASCII letters. */
  function ToUpper(s: string): (r: string)
    ensures |r| == |s| && forall i :: 0 <= i < |s| ==> r[i] == ToUpperChar(s[i])
  {
    seq(|s|, i requires 0 <= i < |s| => ToUpperChar(s[i]))
  }

  /** `a.equalsIgnoreCase(b)`. */
  predicate EqualsIgnoreCase(a: string, b: string) {
    ToLower(a) == ToLower(b)
  }

  lemma EqualsIgnoreCaseRefl(a: string)
    ensures EqualsIgnoreCase(a, a)
  {
  }

  lemma EqualsIgnoreCaseSym(a: string, b: string)
    ensures EqualsIgnoreCase(a, b) == EqualsIgnoreCase(b, a)
  {
  }

  lemma EqualsIgnoreCaseTrans(a: string, b: string, c: string)
    requires EqualsIgnoreCase(a, b) && EqualsIgnoreCase(b, c)
    ensures EqualsIgnoreCase(a, c)
  {
  }

  /** Upper-casing never changes the lower-case form: `ToUpper(s)` equals `s` ignoring case. */
  lemma ToUpperIgnoringCase(s: string)
    ensures EqualsIgnoreCase(ToUpper(s), s)
  {
    forall i | 0 <= i < |s|
      ensures ToLowerChar(ToUpperChar(s[i])) == ToLowerChar(s[i])
    {
    }
  }

  // ---------------------------------------------------------------------------
  // split
  // ---------------------------------------------------------------------------

  /** Concatenation of `parts` with `sep` between neighbours. */
  function Join(parts: seq<string>, sep: char): string {
    if |parts| == 0 then ""
    else if |parts| == 1 then parts[0]
    else parts[0] + [sep] + Join(parts[1..], sep)
  }

  /** The text between consecutive occurrences of `sep`: one more piece than
      there are separators, empty pieces included. */
  function Pieces(s: string, sep: char): (r: seq<string>)
    ensures |r| >= 1
    decreases |s|
  {
    match IndexOf(s, sep)
    case None => [s]
    case Some(i) => [s[..i]] + Pieces(s[i + 1..], sep)
  }

  lemma JoinCons(x: string, ps: seq<string>, sep: char)
    requires |ps| >= 1
    ensures Join([x] + ps, sep) == x + [sep] + Join(ps, sep)
  {
    assert ([x] + ps)[1..] == ps;
  }

  /** Splitting loses nothing: re-joining the pieces with `sep` gives `s` back. */
  lemma {:induction false} JoinPieces(s: string, sep: char)
    ensures Join(Pieces(s, sep), sep) == s
    decreases |s|
  {
    var r := IndexOf(s, sep);
    if r.Some? {
      var i := r.value;
      var rest := s[i + 1..];
      JoinPieces(rest, sep);
      assert Pieces(s, sep) == [s[..i]] + Pieces(rest, sep);
      JoinCons(s[..i], Pieces(rest, sep), sep);
      assert s == s[..i] + [sep] + rest;
    }
  }

  /** Joining pieces free of `sep` and splitting again gives the pieces back. */
  lemma {:induction false} PiecesJoin(parts: seq<string>, sep: char)
    requires |parts| >= 1
    requires forall k :: 0 <= k < |parts| ==> sep !in parts[k]
    ensures Pieces(Join(parts, sep), sep) == parts
    decreases |parts|
  {
    if |parts| > 1 {
      PiecesJoin(parts[1..], sep);
      PiecesAfterPrefix(parts[0], sep, Join(parts[1..], sep));
    }
  }

  /** Removes the empty strings at the end of `ps`. */
  function DropTrailingEmpty(ps: seq<string>): (r: seq<string>)
    ensures |r| <= |ps| && r == ps[..|r|]
    ensures |r| > 0 ==> r[|r| - 1] != ""
    ensures forall k :: |r| <= k < |ps| ==> ps[k] == ""
  {
    if |ps| > 0 && ps[|ps| - 1] == "" then DropTrailingEmpty(ps[..|ps| - 1]) else ps
  }

  lemma DropTrailingEmptyNoop(ps: seq<string>)
    requires |ps| > 0 && ps[|ps| - 1] != ""
    ensures DropTrailingEmpty(ps) == ps
  {
  }

  /** `s.split(sep)` for a one-char separator: the pieces without the trailing
      empty ones; a string without `sep` is returned whole. */
  function Split(s: string, sep: char): seq<string> {
    if sep !in s then [s] else DropTrailingEmpty(Pieces(s, sep))
  }

  /** `split` undoes `Join` for sep-free pieces, the last one non-empty. */
  lemma SplitJoin(parts: seq<string>, sep: char)
    requires |parts| >= 1 && parts[|parts| - 1] != ""
    requires forall k :: 0 <= k < |parts| ==> sep !in parts[k]
    ensures Split(Join(parts, sep), sep) == parts
  {
    PiecesJoin(parts, sep);
    DropTrailingEmptyNoop(parts);
    JoinPieces(Join(parts, sep), sep);
  }

  /** `s.split(sep, limit)` for `limit > 0`: at most `limit` pieces, the last one
      holding the rest of the string; trailing empty pieces are kept. */
  function SplitLimit(s: string, sep: char, limit: nat): (r: seq<string>)
    requires limit > 0
    ensures 1 <= |r| <= limit
    ensures Join(r, sep) == s
    ensures forall k :: 0 <= k < |r| - 1 ==> sep !in r[k]
    ensures |r| < limit ==> sep !in r[|r| - 1]
    decreases limit
  {
    if limit == 1 then [s]
    else
      match IndexOf(s, sep)
      case None => [s]
      case Some(i) =>
        assert s == s[..i] + [sep] + s[i + 1..];
        [s[..i]] + SplitLimit(s[i + 1..], sep, limit - 1)
  }

  /** Locating `sep` in `a + [sep] + b` finds the end of `a` when `a` is free of it. */
  lemma IndexOfAfterPrefix(a: string, sep: char, b: string)
    requires sep !in a
    ensures IndexOf(a + [sep] + b, sep) == Some(|a|)
  {
    var s := a + [sep] + b;
    assert s[|a|] == sep;
    assert s[..|a|] == a;
  }

  lemma PiecesAfterPrefix(a: string, sep: char, b: string)
    requires sep !in a
    ensures Pieces(a + [sep] + b, sep) == [a] + Pieces(b, sep)
  {
    var s := a + [sep] + b;
    IndexOfAfterPrefix(a, sep, b);
    assert s[..|a|] == a;
    assert s[|a| + 1..] == b;
  }

  lemma SplitLimitAfterPrefix(a: string, sep: char, b: string, limit: nat)
    requires sep !in a && limit > 1
    ensures SplitLimit(a + [sep] + b, sep, limit) == [a] + SplitLimit(b, sep, limit - 1)
  {
    var s := a + [sep] + b;
    IndexOfAfterPrefix(a, sep, b);
    assert s[..|a|] == a;
    assert s[|a| + 1..] == b;
  }

  /** `"m u v".split(" ")` is `[m, u, v]` for space-free tokens with `v` non-empty. */
  lemma SplitThree(a: string, b: string, c: string, sep: char)
    requires sep !in a && sep !in b && sep !in c && c != ""
    ensures Split(a + [sep] + b + [sep] + c, sep) == [a, b, c]
  {
    var s := a + [sep] + b + [sep] + c;
    assert s == a + [sep] + (b + [sep] + c);
    PiecesAfterPrefix(a, sep, b + [sep] + c);
    PiecesAfterPrefix(b, sep, c);
    assert Pieces(s, sep) == [a, b, c];
    assert s[|a|] == sep;
  }

  /** A leading separator yields an empty first piece. */
  lemma PiecesLeadingSeparator(sep: char, b: string)
    ensures Pieces([sep] + b, sep) == [""] + Pieces(b, sep)
  {
    PiecesAfterPrefix([], sep, b);
    assert [] + [sep] + b == [sep] + b;
  }

  /** A doubled separator yields an extra, empty piece: `"m  u v".split(" ")` has four. */
  lemma PiecesDoubleSeparator(a: string, b: string, c: string, sep: char)
    requires sep !in a && sep !in b && sep !in c
    ensures Pieces(a + [sep] + ([sep] + (b + [sep] + c)), sep) == [a, "", b, c]
  {
    assert Pieces(c, sep) == [c] by {
      assert IndexOf(c, sep).None?;
    }
    PiecesAfterPrefix(b, sep, c);
    PiecesLeadingSeparator(sep, b + [sep] + c);
    PiecesAfterPrefix(a, sep, [sep] + (b + [sep] + c));
    FourPieces(a, "", b, c);
  }

  lemma FourPieces(w: string, x: string, y: string, z: string)
    ensures [w] + ([x] + ([y] + [z])) == [w, x, y, z]
  {
  }

  lemma SplitDoubleSeparator(a: string, b: string, c: string, sep: char)
    requires sep !in a && sep !in b && sep !in c && c != ""
    ensures Split(a + [sep] + ([sep] + (b + [sep] + c)), sep) == [a, "", b, c]
  {
    PiecesDoubleSeparator(a, b, c, sep);
    DropTrailingEmptyNoop([a, "", b, c]);
  }

  /** `"v c r".split(" ", 3)` is `[v, c, r]` even when `r` holds spaces. */
  lemma SplitLimitThree(a: string, b: string, rest: string, sep: char)
    requires sep !in a && sep !in b
    ensures SplitLimit(a + [sep] + b + [sep] + rest, sep, 3) == [a, b, rest]
  {
    var s := a + [sep] + b + [sep] + rest;
    assert s == a + [sep] + (b + [sep] + rest);
    SplitLimitAfterPrefix(a, sep, b + [sep] + rest, 3);
    SplitLimitAfterPrefix(b, sep, rest, 2);
  }
}
