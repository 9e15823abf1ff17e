/** The byte-level reading shared by the server's request parser and the
    client's response parser: CR LF terminated lines, the header block, a
    body of fixed length, and chunked transfer coding. Every reader returns
    what it read together with the input that remains. */
module Wire {
  import opened Wrappers
  import opened Bytes
  import Text
  import Numbers
  import Headers

  /** A CR LF pair ends at index `i`. */
  predicate CrlfAt(bs: seq<byte>, i: int) {
    1 <= i < |bs| && bs[i - 1] == CR && bs[i] == LF
  }

  /** The first index at or after `from` at which a CR LF pair ends. */
  function FindCrlfFrom(bs: seq<byte>, from: nat): (r: Option<nat>)
    requires from >= 1
    ensures r.Some? ==> from <= r.value && CrlfAt(bs, r.value)
    ensures r.Some? ==> forall j :: from <= j < r.value ==> !CrlfAt(bs, j)
    ensures r.None? ==> forall j :: from <= j ==> !CrlfAt(bs, j)
    decreases |bs| - from
  {
    if from >= |bs| then None
    else if bs[from - 1] == CR && bs[from] == LF then Some(from)
    else FindCrlfFrom(bs, from + 1)
  }

  /** `readLine`: the text before the first CR LF (both dropped) and the
      input after it; without a CR LF, the whole input is the last line;
      `None` (Java's null) only when the input is already exhausted. */
  function ReadLine(input: seq<byte>): (r: (Option<string>, seq<byte>))
    ensures r.0.None? <==> |input| == 0
    ensures |r.1| <= |input| && r.1 == input[|input| - |r.1|..]
    ensures r.0.Some? ==> |r.1| < |input|
  {
    match FindCrlfFrom(input, 1)
    case Some(i) => (Some(Decode(input[..i - 1])), input[i + 1..])
    case None => if |input| == 0 then (None, []) else (Some(Decode(input)), [])
  }

  /** The byte loop of `readLine`, which remembers the previous byte and
      stops at the first LF whose predecessor is CR. It computes `ReadLine`. */
  method ReadLineLoop(input: seq<byte>) returns (line: Option<string>, rest: seq<byte>)
    ensures (line, rest) == ReadLine(input)
  {
    var buf: seq<byte> := [];
    var prev: int := -1;
    var pos: nat := 0;
    while pos < |input|
      invariant pos <= |input|
      invariant buf == input[..pos]
      invariant prev == if pos == 0 then -1 else input[pos - 1] as int
      invariant FindCrlfFrom(input, 1) == FindCrlfFrom(input, if pos == 0 then 1 else pos)
    {
      var curr := input[pos];
      if prev == CR as int && curr == LF {
        assert CrlfAt(input, pos);
        assert FindCrlfFrom(input, pos) == Some(pos);
        assert buf[..pos - 1] == input[..pos - 1];
        return Some(Decode(buf[..pos - 1])), input[pos + 1..];
      }
      buf := buf + [curr];
      prev := curr as int;
      pos := pos + 1;
    }
    assert buf == input;
    assert pos > 0 ==> FindCrlfFrom(input, pos) == None;
    if |buf| == 0 {
      return None, [];
    }
    return Some(Decode(buf)), [];
  }

  /** An ASCII line without LF, sent with its CR LF, reads back exactly. */
  lemma ReadLineOfLine(s: string, rest: seq<byte>)
    requires IsLineText(s)
    ensures ReadLine(Encode(s) + CRLF + rest) == (Some(s), rest)
  {
    assert IsAscii(s);
    assert '\n' !in s;
    var e := Encode(s);
    var bs := e + CRLF + rest;
    EncodeAscii(s);
    EncodeAsciiExcludes(s, '\n');
    assert forall j :: 1 <= j < |e| ==> bs[j] == e[j];
    assert bs[|e|] == CR && bs[|e| + 1] == LF;
    assert !CrlfAt(bs, |e|);
    assert forall j :: 1 <= j < |e| ==> !CrlfAt(bs, j) by {
      forall j | 1 <= j < |e| ensures !CrlfAt(bs, j) {
        assert bs[j] == e[j] && e[j] != LF;
      }
    }
    NoCrlfBefore(bs, 1, |e| + 1);
    assert CrlfAt(bs, |e| + 1);
    assert bs[..|e|] == e;
    assert bs[|e| + 2..] == rest;
    DecodeEncode(s);
  }

  /** No CR LF ending in `[lo, hi)` and one ending at `hi` make `hi` the first. */
  lemma {:induction false} NoCrlfBefore(bs: seq<byte>, lo: nat, hi: nat)
    requires 1 <= lo <= hi && CrlfAt(bs, hi)
    requires forall j :: lo <= j < hi ==> !CrlfAt(bs, j)
    ensures FindCrlfFrom(bs, lo) == Some(hi)
    decreases hi - lo
  {
    if lo < hi {
      NoCrlfBefore(bs, lo + 1, hi);
    }
  }

  // ---------------------------------------------------------------------------
  // Header block
  // ---------------------------------------------------------------------------

  /** Text that can travel as (part of) one line: printable ASCII, so in
      particular no CR or LF. */
  predicate IsLineText(s: string) {
    forall i :: 0 <= i < |s| ==> ' ' <= s[i] <= '~'
  }

  lemma LineTextAppend(a: string, b: string)
    requires IsLineText(a) && IsLineText(b)
    ensures IsLineText(a + b)
  {
  }

  /** Neither end is a char `trim` strips, so the text is its own trim
      (`TrimmedIsOwnTrim`). */
  predicate IsTrimmed(s: string) {
    |s| == 0 || (!Text.IsTrimmable(s[0]) && !Text.IsTrimmable(s[|s| - 1]))
  }

  lemma TrimmedIsOwnTrim(s: string)
    ensures IsTrimmed(s) <==> Text.Trim(s) == s
  {
    if IsTrimmed(s) {
      Text.TrimOfTrimmed(s);
    }
  }

  /** A field that survives `Name: Value` serialisation and re-parsing. */
  predicate WellFormedField(f: Headers.Field) {
    IsLineText(f.name) && IsLineText(f.value) && ':' !in f.name
    && IsTrimmed(f.name) && IsTrimmed(f.value)
  }

  /** `name + ": " + value`, the form both serialisers write. */
  function FieldText(f: Headers.Field): string {
    f.name + ": " + f.value
  }

  /** One `Name: Value CRLF` line per field, in order. */
  function FieldLines(fs: Headers.Fields): string {
    if |fs| == 0 then "" else FieldText(fs[0]) + "\r\n" + FieldLines(fs[1..])
  }

  /** A header line split at its first colon, both sides trimmed; `None` for a
      line without a colon, which the readers skip. */
  function ParseField(line: string): (r: Option<Headers.Field>)
    ensures r.None? <==> ':' !in line
  {
    match Text.IndexOf(line, ':')
    case None => None
    case Some(c) => Some(Headers.Field(Text.Trim(line[..c]), Text.Trim(line[c + 1..])))
  }

  /** Parsing a serialised well-formed field gives the field back. */
  lemma ParseFieldText(f: Headers.Field)
    requires WellFormedField(f)
    ensures ParseField(FieldText(f)) == Some(f)
  {
    var line := FieldText(f);
    assert line == f.name + [':'] + (" " + f.value);
    Text.IndexOfAfterPrefix(f.name, ':', " " + f.value);
    assert line[..|f.name|] == f.name;
    assert line[|f.name| + 1..] == [' '] + f.value;
    Text.TrimSkipsBlank(' ', f.value);
    TrimmedIsOwnTrim(f.name);
    TrimmedIsOwnTrim(f.value);
  }

  /** The header loop: lines up to the first empty line (consumed) or the end
      of input; each line with a colon is `put` into `h`. */
  function ReadFields(input: seq<byte>, h: Headers.Fields): (r: (Headers.Fields, seq<byte>))
    ensures |r.1| <= |input| && r.1 == input[|input| - |r.1|..]
    decreases |input|
  {
    var (line, rest) := ReadLine(input);
    if line.None? || line.value == "" then (h, rest)
    else
      var h1 := match ParseField(line.value)
        case None => h
        case Some(f) => Headers.Put(h, f.name, f.value);
      var r := ReadFields(rest, h1);
      assert input[|input| - |rest|..][|rest| - |r.1|..] == input[|input| - |r.1|..];
      r
  }

  /** Encoding a string that ends a line separates into its text and CR LF. */
  lemma EncodeLine(s: string, t: string)
    ensures Encode(s + "\r\n" + t) == Encode(s) + CRLF + Encode(t)
  {
    EncodeAppend(s + "\r\n", t);
    EncodeAppend(s, "\r\n");
    EncodeCrlf();
  }

  lemma FieldTextIsLine(f: Headers.Field)
    requires WellFormedField(f)
    ensures IsLineText(FieldText(f))
  {
    LineTextAppend(f.name, ": ");
    LineTextAppend(f.name + ": ", f.value);
  }

  /** The empty line ends the header block. */
  lemma ReadFieldsEnd(h: Headers.Fields, rest: seq<byte>)
    ensures ReadFields(CRLF + rest, h) == (h, rest)
  {
    ReadLineOfLine("", rest);
    assert Encode("") == [];
    assert Encode("") + CRLF + rest == CRLF + rest;
  }

  /** A non-empty line carrying a field adds it and reading goes on. */
  lemma ReadFieldsLine(f: Headers.Field, more: seq<byte>, h: Headers.Fields)
    requires WellFormedField(f)
    ensures ReadFields(Encode(FieldText(f)) + CRLF + more, h)
         == ReadFields(more, Headers.Put(h, f.name, f.value))
  {
    FieldTextIsLine(f);
    ReadLineOfLine(FieldText(f), more);
    ParseFieldText(f);
    assert FieldText(f) != "";
  }

  /** A serialised header block, closed by its empty line, reads back as the
      `put`s of its fields. */
  lemma {:induction false} ReadFieldsOfLines(fs: Headers.Fields, h: Headers.Fields, rest: seq<byte>)
    requires forall k :: 0 <= k < |fs| ==> WellFormedField(fs[k])
    ensures ReadFields(Encode(FieldLines(fs) + "\r\n") + rest, h) == (Headers.PutAll(h, fs), rest)
    decreases |fs|
  {
    if |fs| == 0 {
      EncodeEmptyBlock(fs);
      ReadFieldsEnd(h, rest);
    } else {
      var f := fs[0];
      EncodeFieldLinesCons(fs, rest);
      ReadFieldsLine(f, Encode(FieldLines(fs[1..]) + "\r\n") + rest, h);
      ReadFieldsOfLines(fs[1..], Headers.Put(h, f.name, f.value), rest);
    }
  }

  lemma EncodeEmptyBlock(fs: Headers.Fields)
    requires |fs| == 0
    ensures Encode(FieldLines(fs) + "\r\n") == CRLF
  {
    assert FieldLines(fs) + "\r\n" == "\r\n";
    EncodeCrlf();
  }

  lemma EncodeFieldLinesCons(fs: Headers.Fields, rest: seq<byte>)
    requires |fs| > 0
    ensures Encode(FieldLines(fs) + "\r\n") + rest
         == Encode(FieldText(fs[0])) + CRLF + (Encode(FieldLines(fs[1..]) + "\r\n") + rest)
  {
    var a := FieldText(fs[0]);
    var b := FieldLines(fs[1..]);
    var tail := b + "\r\n";
    calc {
      FieldLines(fs) + "\r\n";
      (a + "\r\n" + b) + "\r\n";
      a + "\r\n" + tail;
    }
    EncodeLine(a, tail);
    var ea, et := Encode(a), Encode(tail);
    assert Encode(FieldLines(fs) + "\r\n") == ea + CRLF + et;
    AppendAssoc(ea, CRLF, et, rest);
  }

  lemma AppendAssoc(a: seq<byte>, b: seq<byte>, c: seq<byte>, d: seq<byte>)
    ensures (a + b + c) + d == a + b + (c + d)
  {
  }

  /** The header block read from scratch: serialising a header map with
      well-formed, distinct names and reading it back gives the same map. */
  lemma ReadFieldsRoundTrip(fs: Headers.Fields, rest: seq<byte>)
    requires Headers.UniqueNames(fs)
    requires forall k :: 0 <= k < |fs| ==> WellFormedField(fs[k])
    ensures ReadFields(Encode(FieldLines(fs) + "\r\n") + rest, []) == (fs, rest)
  {
    ReadFieldsOfLines(fs, [], rest);
    assert [] + fs == fs;
    Headers.PutAllFresh([], fs);
  }

  // ---------------------------------------------------------------------------
  // Bodies
  // ---------------------------------------------------------------------------

  /** Filling an `n`-byte array from the input until it is full or the input
      ends: the bytes that were there, then zeros. */
  function ReadFixed(input: seq<byte>, n: nat): (r: (seq<byte>, seq<byte>))
    ensures |r.0| == n
    ensures forall i :: 0 <= i < n && i < |input| ==> r.0[i] == input[i]
    ensures forall i :: |input| <= i < n ==> r.0[i] == 0
    ensures r.1 == input[if n <= |input| then n else |input|..]
  {
    if n <= |input| then (input[..n], input[n..])
    else (input + seq(n - |input|, _ => 0 as byte), [])
  }

  /** A body followed by more input is read back exactly. */
  lemma ReadFixedExact(body: seq<byte>, rest: seq<byte>)
    ensures ReadFixed(body + rest, |body|) == (body, rest)
  {
    assert (body + rest)[..|body|] == body;
  }

  // ---------------------------------------------------------------------------
  // Chunked transfer coding
  // ---------------------------------------------------------------------------

  /** `readChunkedBody`, with `acc` the bytes decoded so far: a size line in
      hexadecimal, that many bytes, and one more line. A zero size consumes one
      more line and ends the body; a missing, empty or non-hexadecimal size
      line ends it silently. A negative size makes Java throw
      NegativeArraySizeException, which is `None` here. */
  function ReadChunked(input: seq<byte>, acc: seq<byte>): (r: Option<(seq<byte>, seq<byte>)>)
    ensures r.Some? ==> acc <= r.value.0
    ensures r.Some? ==> |r.value.1| <= |input|
    decreases |input|
  {
    var (line, rest) := ReadLine(input);
    if line.None? || line.value == "" then Some((acc, rest))
    else
      match Numbers.ParseInt(Text.Trim(line.value), 16)
      case None => Some((acc, rest))
      case Some(size) =>
        if size == 0 then Some((acc, ReadLine(rest).1))
        else if size < 0 then None
        else
          var (chunk, rest2) := ReadFixed(rest, size);
          var r := ReadChunked(ReadLine(rest2).1, acc + chunk);
          assert r.Some? ==> acc <= acc + chunk <= r.value.0;
          r
  }

  /** The concatenation of all chunks. */
  function Concat(chunks: seq<seq<byte>>): (r: seq<byte>)
    ensures |chunks| > 0 ==> chunks[0] <= r
  {
    if |chunks| == 0 then [] else chunks[0] + Concat(chunks[1..])
  }

  /** The chunked coding of a body cut into `chunks`: per chunk its size in
      hexadecimal, CR LF, the bytes, CR LF; then `0` and two CR LFs. */
  function ChunkedEncoding(chunks: seq<seq<byte>>): seq<byte> {
    if |chunks| == 0 then Encode("0") + CRLF + CRLF
    else Encode(Numbers.HexString(|chunks[0]|)) + CRLF + (chunks[0] + CRLF + ChunkedEncoding(chunks[1..]))
  }

  /** A hexadecimal size travels as a line and reads back unchanged by `trim`. */
  lemma HexLine(n: nat)
    ensures IsLineText(Numbers.HexString(n)) && IsTrimmed(Numbers.HexString(n))
    ensures Numbers.HexString(n) != ""
  {
    var h := Numbers.HexString(n);
    Numbers.MagnitudeOfDigits(n, 16);
    Numbers.DigitsAlphanumeric(h, 16);
    Text.TrimOfTrimmed(h);
  }

  /** Reading a positive size line: that many bytes, then one more line. */
  lemma ReadChunkedSizeLine(line: string, n: int, body: seq<byte>, acc: seq<byte>)
    requires IsLineText(line) && line != ""
    requires Numbers.ParseInt(Text.Trim(line), 16) == Some(n) && n > 0
    ensures ReadChunked(Encode(line) + CRLF + body, acc)
         == ReadChunked(ReadLine(ReadFixed(body, n).1).1, acc + ReadFixed(body, n).0)
  {
    ReadLineOfLine(line, body);
  }

  /** One chunk is decoded and reading goes on after its line end. */
  lemma ReadChunkedStep(c: seq<byte>, more: seq<byte>, acc: seq<byte>)
    requires 0 < |c| <= Numbers.IntMax
    ensures ReadChunked(Encode(Numbers.HexString(|c|)) + CRLF + (c + (CRLF + more)), acc)
         == ReadChunked(more, acc + c)
  {
    var hex := Numbers.HexString(|c|);
    HexLine(|c|);
    Numbers.ParseHexString(|c|);
    ReadChunkedSizeLine(hex, |c|, c + (CRLF + more), acc);
    ReadFixedExact(c, CRLF + more);
    ReadLineEmpty(more);
  }

  /** A bare CR LF reads as the empty line. */
  lemma ReadLineEmpty(more: seq<byte>)
    ensures ReadLine(CRLF + more) == (Some(""), more)
  {
    ReadLineOfLine("", more);
    assert Encode("") + CRLF + more == CRLF + more;
  }

  /** The last chunk, of size zero, ends the body and its final line. */
  lemma ReadChunkedLast(rest: seq<byte>, acc: seq<byte>)
    ensures ReadChunked(Encode("0") + CRLF + CRLF + rest, acc) == Some((acc, rest))
  {
    HexLine(0);
    assert Numbers.HexString(0) == "0";
    Numbers.ParseHexString(0);
    AppendAssoc(Encode("0"), CRLF, CRLF, rest);
    ReadLineOfLine("0", CRLF + rest);
    ReadLineOfLine("", rest);
    assert Encode("") + CRLF + rest == CRLF + rest;
  }

  /** Chunked round trip: decoding the chunked coding of non-empty chunks
      yields their concatenation and stops right after the coding. */
  lemma {:induction false} ReadChunkedRoundTrip(chunks: seq<seq<byte>>, acc: seq<byte>, rest: seq<byte>)
    requires forall k :: 0 <= k < |chunks| ==> 0 < |chunks[k]| <= Numbers.IntMax
    ensures ReadChunked(ChunkedEncoding(chunks) + rest, acc) == Some((acc + Concat(chunks), rest))
    decreases |chunks|
  {
    if |chunks| == 0 {
      ReadChunkedLast(rest, acc);
      assert Concat(chunks) == [];
      assert acc + Concat(chunks) == acc;
    } else {
      ChunkedEncodingCons(chunks, rest);
      ReadChunkedStep(chunks[0], ChunkedEncoding(chunks[1..]) + rest, acc);
      ReadChunkedRoundTrip(chunks[1..], acc + chunks[0], rest);
      ConcatCons(acc, chunks);
    }
  }

  lemma ChunkedEncodingCons(chunks: seq<seq<byte>>, rest: seq<byte>)
    requires |chunks| > 0
    ensures ChunkedEncoding(chunks) + rest
         == Encode(Numbers.HexString(|chunks[0]|)) + CRLF + (chunks[0] + (CRLF + (ChunkedEncoding(chunks[1..]) + rest)))
  {
    var hexLine := Encode(Numbers.HexString(|chunks[0]|)) + CRLF;
    ShiftRest(hexLine, chunks[0], ChunkedEncoding(chunks[1..]), rest);
  }

  lemma ConcatCons(acc: seq<byte>, chunks: seq<seq<byte>>)
    requires |chunks| > 0
    ensures acc + Concat(chunks) == (acc + chunks[0]) + Concat(chunks[1..])
  {
    var c, rest := chunks[0], Concat(chunks[1..]);
    assert Concat(chunks) == c + rest;
    Regroup(acc, c, rest);
  }

  lemma Regroup(a: seq<byte>, b: seq<byte>, c: seq<byte>)
    ensures a + (b + c) == (a + b) + c
  {
  }

  lemma ShiftRest(x: seq<byte>, c: seq<byte>, t: seq<byte>, r: seq<byte>)
    ensures (x + (c + CRLF + t)) + r == x + (c + (CRLF + (t + r)))
  {
  }
}
