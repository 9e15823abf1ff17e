/** Bytes and the two text conversions the wire code performs:
    `String.getBytes("UTF-8")` (modelled exactly, as UTF-8 encoding of each
    code point) and `new String(bytes, "UTF-8")` (modelled byte-per-char,
    which agrees with UTF-8 on ASCII text). */
module Bytes {

  newtype byte = b: int | 0 <= b < 256

  const CR: byte := 13
  const LF: byte := 10
  const CRLF: seq<byte> := [CR, LF]

  /** Every char is below U+0080. */
  predicate IsAscii(s: string) {
    forall i :: 0 <= i < |s| ==> s[i] < 128 as char
  }

  /** The UTF-8 encoding of one code point. */
  function Utf8(c: char): (r: seq<byte>)
    ensures 1 <= |r| <= 4
    ensures c < 128 as char <==> |r| == 1
    ensures c < 128 as char ==> r == [c as int as byte]
  {
    var n := c as int;
    if n < 0x80 then [n as byte]
    else if n < 0x800 then [(0xC0 + n / 0x40) as byte, (0x80 + n % 0x40) as byte]
    else if n < 0x1_0000 then
      [(0xE0 + n / 0x1000) as byte, (0x80 + (n / 0x40) % 0x40) as byte, (0x80 + n % 0x40) as byte]
    else
      [(0xF0 + n / 0x4_0000) as byte, (0x80 + (n / 0x1000) % 0x40) as byte,
       (0x80 + (n / 0x40) % 0x40) as byte, (0x80 + n % 0x40) as byte]
  }

  /** `s.getBytes("UTF-8")`. */
  function Encode(s: string): (r: seq<byte>)
    ensures |r| >= |s|
  {
    if |s| == 0 then [] else Utf8(s[0]) + Encode(s[1..])
  }

  /** `new String(bs, "UTF-8")`, one char per byte. */
  function Decode(bs: seq<byte>): (r: string)
    ensures |r| == |bs|
    ensures forall i :: 0 <= i < |bs| ==> r[i] as int == bs[i] as int
  {
    seq(|bs|, i requires 0 <= i < |bs| => bs[i] as int as char)
  }

  /** Encoding distributes over concatenation. */
  lemma {:induction false} EncodeAppend(a: string, b: string)
    ensures Encode(a + b) == Encode(a) + Encode(b)
    decreases |a|
  {
    if |a| > 0 {
      assert (a + b)[1..] == a[1..] + b;
      assert (a + b)[0] == a[0];
      EncodeAppend(a[1..], b);
      calc {
        Encode(a + b);
        Utf8(a[0]) + Encode(a[1..] + b);
        Utf8(a[0]) + (Encode(a[1..]) + Encode(b));
        (Utf8(a[0]) + Encode(a[1..])) + Encode(b);
      }
    } else {
      assert a + b == b;
    }
  }

  /** ASCII text encodes to one byte per char, each equal to the char's code. */
  lemma {:induction false} EncodeAscii(s: string)
    requires IsAscii(s)
    ensures |Encode(s)| == |s|
    ensures forall i :: 0 <= i < |s| ==> Encode(s)[i] as int == s[i] as int
    decreases |s|
  {
    if |s| > 0 {
      EncodeAscii(s[1..]);
      assert Encode(s) == [s[0] as int as byte] + Encode(s[1..]);
    }
  }

  /** Decoding undoes encoding on ASCII text. */
  lemma DecodeEncode(s: string)
    requires IsAscii(s)
    ensures Decode(Encode(s)) == s
  {
    EncodeAscii(s);
  }

  lemma AsciiAppend(a: string, b: string)
    requires IsAscii(a) && IsAscii(b)
    ensures IsAscii(a + b)
  {
  }

  /** A char that is not in ASCII text is not among its encoded bytes either. */
  lemma EncodeAsciiExcludes(s: string, c: char)
    requires IsAscii(s) && c < 128 as char && c !in s
    ensures c as int as byte !in Encode(s)
  {
    EncodeAscii(s);
  }

  /** The line terminator text encodes to CR LF. */
  lemma EncodeCrlf()
    ensures Encode("\r\n") == CRLF
  {
    assert "\r\n"[1..] == "\n";
    assert "\n"[1..] == "";
  }
}
