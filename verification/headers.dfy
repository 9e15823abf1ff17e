/** Header maps. Every component keeps its headers in a Java map keyed by the
    exact name: `put` on a present name overwrites the value where it stands,
    otherwise the entry is appended. A map is modelled as an ordered list of
    fields with pairwise distinct names; the order is insertion order, which
    is what `LinkedHashMap` iterates in (for `HashMap` the order is one
    admissible iteration order). */
module Headers {
  import opened Wrappers
  import Text
  import Numbers

  datatype Field = Field(name: string, value: string)

  type Fields = seq<Field>

  /** No name occurs twice. */
  predicate UniqueNames(h: Fields) {
    forall i, j :: 0 <= i < j < |h| ==> h[i].name != h[j].name
  }

  function Names(h: Fields): (r: seq<string>)
    ensures |r| == |h| && forall i :: 0 <= i < |h| ==> r[i] == h[i].name
  {
    seq(|h|, i requires 0 <= i < |h| => h[i].name)
  }

  /** `map.get(name)`: lookup by exact name. */
  function Get(h: Fields, name: string): (r: Option<string>)
    ensures r.None? <==> name !in Names(h)
    ensures r.Some? ==> exists i :: 0 <= i < |h| && h[i] == Field(name, r.value)
  {
    if |h| == 0 then None
    else if h[0].name == name then Some(h[0].value)
    else Get(h[1..], name)
  }

  /** `map.put(name, value)`. */
  function Put(h: Fields, name: string, value: string): (r: Fields)
    ensures name in Names(h) ==> |r| == |h|
    ensures name !in Names(h) ==> r == h + [Field(name, value)]
    ensures forall i :: 0 <= i < |h| && h[i].name != name ==> r[i] == h[i]
    ensures name in Names(h) ==> forall i :: 0 <= i < |h| ==> r[i].name == h[i].name
  {
    if |h| == 0 then [Field(name, value)]
    else if h[0].name == name then [Field(name, value)] + h[1..]
    else [h[0]] + Put(h[1..], name, value)
  }

  /** Every field after a `put` is the new one or was there before. */
  lemma {:induction false} PutElements(h: Fields, name: string, value: string)
    ensures forall i :: 0 <= i < |Put(h, name, value)| ==>
      Put(h, name, value)[i] == Field(name, value) || Put(h, name, value)[i] in h
    decreases |h|
  {
    if |h| > 0 && h[0].name != name {
      PutElements(h[1..], name, value);
      var r := Put(h, name, value);
      forall i | 0 <= i < |r| ensures r[i] == Field(name, value) || r[i] in h {
        if i > 0 {
          assert r[i] == Put(h[1..], name, value)[i - 1];
        }
      }
    }
  }

  /** The stored names, in order, after a `put`. */
  lemma PutNames(h: Fields, name: string, value: string)
    ensures Names(Put(h, name, value)) == if name in Names(h) then Names(h) else Names(h) + [name]
  {
    if name in Names(h) {
      var r := Put(h, name, value);
      assert forall i :: 0 <= i < |h| ==> Names(r)[i] == Names(h)[i];
    } else {
      assert Put(h, name, value) == h + [Field(name, value)];
      assert Names(h + [Field(name, value)]) == Names(h) + [name];
    }
  }

  /** `put` keeps names distinct. */
  lemma PutUnique(h: Fields, name: string, value: string)
    requires UniqueNames(h)
    ensures UniqueNames(Put(h, name, value))
  {
    var r := Put(h, name, value);
    PutNames(h, name, value);
    assert forall i :: 0 <= i < |r| ==> r[i].name == Names(r)[i];
  }

  /** A map of one field has unique names and holds that field's value. */
  lemma OneField(name: string, value: string)
    ensures var h := [Field(name, value)];
      UniqueNames(h) && name in Names(h) && Get(h, name) == Some(value)
  {
    assert Names([Field(name, value)])[0] == name;
  }

  /** After `put(name, value)`, `get(name)` is `value`. */
  lemma {:induction false} GetPutSame(h: Fields, name: string, value: string)
    ensures Get(Put(h, name, value), name) == Some(value)
    decreases |h|
  {
    if |h| > 0 && h[0].name != name {
      GetPutSame(h[1..], name, value);
      assert Put(h, name, value)[1..] == Put(h[1..], name, value);
    }
  }

  /** `put` leaves every other name's value alone. */
  lemma {:induction false} GetPutOther(h: Fields, name: string, value: string, other: string)
    requires other != name
    ensures Get(Put(h, name, value), other) == Get(h, other)
    decreases |h|
  {
    if |h| > 0 && h[0].name != name {
      GetPutOther(h[1..], name, value, other);
      assert Put(h, name, value)[1..] == Put(h[1..], name, value);
    } else if |h| > 0 {
      assert Put(h, name, value)[1..] == h[1..];
    }
  }

  /** `getHeader(name)`: the value of the first stored name equal to `name`
      ignoring case. */
  function GetIgnoreCase(h: Fields, name: string): (r: Option<string>)
    ensures r.None? <==> forall i :: 0 <= i < |h| ==> !Text.EqualsIgnoreCase(h[i].name, name)
    ensures r.Some? ==> exists i :: 0 <= i < |h| && Text.EqualsIgnoreCase(h[i].name, name) && h[i].value == r.value
  {
    if |h| == 0 then None
    else if Text.EqualsIgnoreCase(h[0].name, name) then Some(h[0].value)
    else
      var r := GetIgnoreCase(h[1..], name);
      assert forall i :: 1 <= i < |h| ==> h[i] == h[1..][i - 1];
      r
  }

  /** A stored name is always found by a case-insensitive lookup of itself. */
  lemma GetIgnoreCaseFindsExact(h: Fields, name: string)
    requires name in Names(h)
    ensures GetIgnoreCase(h, name).Some?
  {
    var i :| 0 <= i < |h| && Names(h)[i] == name;
    Text.EqualsIgnoreCaseRefl(name);
  }

  /** When exactly one stored name matches ignoring case, the case-insensitive
      lookup returns that field's value. */
  lemma {:induction false} GetIgnoreCaseUnique(h: Fields, i: nat, name: string)
    requires i < |h| && Text.EqualsIgnoreCase(h[i].name, name)
    requires forall j :: 0 <= j < |h| && j != i ==> !Text.EqualsIgnoreCase(h[j].name, name)
    ensures GetIgnoreCase(h, name) == Some(h[i].value)
    decreases |h|
  {
    if i > 0 {
      GetIgnoreCaseUnique(h[1..], i - 1, name);
    }
  }

  /** A sequence of `put`s, in order. */
  function PutAll(h: Fields, fs: Fields): (r: Fields)
    ensures |r| >= |h|
    decreases |fs|
  {
    if |fs| == 0 then h else PutAll(Put(h, fs[0].name, fs[0].value), fs[1..])
  }

  /** Putting fields whose names are new and distinct appends them in order. */
  lemma {:induction false} PutAllFresh(h: Fields, fs: Fields)
    requires UniqueNames(h + fs)
    ensures PutAll(h, fs) == h + fs
    decreases |fs|
  {
    if |fs| > 0 {
      var f := fs[0];
      assert (h + fs)[|h|] == f;
      assert f.name !in Names(h) by {
        forall i | 0 <= i < |h| ensures Names(h)[i] != f.name {
          assert (h + fs)[i] == h[i];
        }
      }
      var h1 := Put(h, f.name, f.value);
      assert h1 == h + [f];
      assert h1 + fs[1..] == h + fs;
      PutAllFresh(h1, fs[1..]);
    }
  }

  /** After a sequence of `put`s with distinct names, a name takes its value
      from the last of them that carries it, or keeps the old one. */
  lemma {:induction false} GetPutAll(h: Fields, fs: Fields, name: string)
    requires UniqueNames(fs)
    ensures Get(PutAll(h, fs), name) == if name in Names(fs) then Get(fs, name) else Get(h, name)
    decreases |fs|
  {
    if |fs| > 0 {
      var f := fs[0];
      var rest := fs[1..];
      UniqueTail(fs);
      GetPutAll(Put(h, f.name, f.value), rest, name);
      if name == f.name {
        GetPutSame(h, name, f.value);
      } else {
        GetPutOther(h, f.name, f.value, name);
      }
    }
  }

  /** The tail of a list with distinct names has distinct names and lacks
      the head's name. */
  lemma UniqueTail(fs: Fields)
    requires UniqueNames(fs) && |fs| > 0
    ensures UniqueNames(fs[1..])
    ensures fs[0].name !in Names(fs[1..])
    ensures Names(fs) == [fs[0].name] + Names(fs[1..])
  {
    var rest := fs[1..];
    forall i, j | 0 <= i < j < |rest| ensures rest[i].name != rest[j].name {
      assert rest[i] == fs[i + 1] && rest[j] == fs[j + 1];
    }
    forall i | 0 <= i < |rest| ensures Names(rest)[i] != fs[0].name {
      assert rest[i] == fs[i + 1];
    }
  }

  /** `getContentLength` (the same code in the request and in the client's
      response parser): the trimmed value as an int, or 0
      when the header is absent or does not parse. */
  function ContentLength(h: Fields): (n: int)
    ensures Numbers.IsInt32(n)
    ensures GetIgnoreCase(h, "Content-Length").None? ==> n == 0
    ensures GetIgnoreCase(h, "Content-Length").Some? ==>
      (Numbers.ParseInt(Text.Trim(GetIgnoreCase(h, "Content-Length").value), 10).None? ==> n == 0)
    ensures GetIgnoreCase(h, "Content-Length").Some? ==>
      (Numbers.ParseInt(Text.Trim(GetIgnoreCase(h, "Content-Length").value), 10).Some? ==>
         n == Numbers.ParseInt(Text.Trim(GetIgnoreCase(h, "Content-Length").value), 10).value)
  {
    match GetIgnoreCase(h, "Content-Length")
    case None => 0
    case Some(v) => Numbers.ParseInt(Text.Trim(v), 10).GetOr(0)
  }

  /** A Content-Length written by `String.valueOf` is read back. */
  lemma ContentLengthOf(h: Fields, i: nat, n: int)
    requires Numbers.IsInt32(n)
    requires i < |h| && Text.EqualsIgnoreCase(h[i].name, "Content-Length")
    requires h[i].value == Numbers.IntToString(n)
    requires forall j :: 0 <= j < |h| && j != i ==> !Text.EqualsIgnoreCase(h[j].name, "Content-Length")
    ensures ContentLength(h) == n
  {
    GetIgnoreCaseUnique(h, i, "Content-Length");
    Numbers.IntToStringChars(n);
    var s := Numbers.IntToString(n);
    Text.TrimOfTrimmed(s);
    Numbers.ParseIntToString(n);
  }

  /** `isKeepAlive` (the same code in the request and in the client's
      response parser): an explicit Connection
      header decides (keep-alive ignoring case); otherwise only HTTP/1.1. */
  function KeepAlive(h: Fields, version: string): (b: bool)
    ensures GetIgnoreCase(h, "Connection").None? ==> (b <==> version == "HTTP/1.1")
    ensures GetIgnoreCase(h, "Connection").Some? ==>
      (b <==> Text.EqualsIgnoreCase(GetIgnoreCase(h, "Connection").value, "keep-alive"))
  {
    match GetIgnoreCase(h, "Connection")
    case Some(c) => Text.EqualsIgnoreCase(c, "keep-alive")
    case None => version == "HTTP/1.1"
  }

  /** `Connection: close` ends keep-alive whatever the version. */
  lemma CloseIsNotKeepAlive(h: Fields, version: string)
    requires GetIgnoreCase(h, "Connection") == Some("close")
    ensures !KeepAlive(h, version)
  {
    assert Text.ToLower("close")[0] == 'c';
    assert Text.ToLower("keep-alive")[0] == 'k';
  }


  /** The only header named Content-Length in any letter case carries the
      decimal rendering of `n`, so the length read back is `n`. */
  lemma ContentLengthExact(h: Fields, n: int)
    requires UniqueNames(h) && Numbers.IsInt32(n)
    requires Get(h, "Content-Length") == Some(Numbers.IntToString(n))
    requires forall k :: 0 <= k < |h| && Text.EqualsIgnoreCase(h[k].name, "Content-Length") ==>
      h[k].name == "Content-Length"
    ensures ContentLength(h) == n
  {
    var i :| 0 <= i < |h| && h[i] == Field("Content-Length", Numbers.IntToString(n));
    Text.EqualsIgnoreCaseRefl("Content-Length");
    forall j | 0 <= j < |h| && j != i
      ensures !Text.EqualsIgnoreCase(h[j].name, "Content-Length")
    {
      if Text.EqualsIgnoreCase(h[j].name, "Content-Length") {
        assert false;
      }
    }
    ContentLengthOf(h, i, n);
  }
}
