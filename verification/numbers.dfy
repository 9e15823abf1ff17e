/** Integer text conversions with Java's semantics: `Integer.parseInt(s, radix)`
    (an optional sign, at least one digit, a result within 32 bits, otherwise
    a NumberFormatException, here `None`) and the decimal and hexadecimal
    renderings that `String.valueOf(int)` and `Integer.toHexString` produce. */
module Numbers {
  import opened Wrappers

  const IntMin: int := -0x8000_0000
  const IntMax: int := 0x7fff_ffff

  /** The value fits in a Java `int`. */
  predicate IsInt32(n: int) {
    IntMin <= n <= IntMax
  }

  /** `Character.digit(c, radix)` restricted to ASCII digits and letters. */
  function DigitValue(c: char, radix: nat): (r: Option<nat>)
    ensures r.Some? ==> r.value < radix
  {
    var d :=
      if '0' <= c <= '9' then c as int - '0' as int
      else if 'a' <= c <= 'z' then c as int - 'a' as int + 10
      else if 'A' <= c <= 'Z' then c as int - 'A' as int + 10
      else -1;
    if 0 <= d < radix then Some(d) else None
  }

  /** The lower-case digit for `d`, as `Character.forDigit` gives it. */
  function DigitChar(d: nat): (c: char)
    requires d < 36
    ensures DigitValue(c, d + 1) == Some(d)
  {
    if d < 10 then ('0' as int + d) as char else ('a' as int + d - 10) as char
  }

  predicate AllDigits(s: string, radix: nat) {
    forall i :: 0 <= i < |s| ==> DigitValue(s[i], radix).Some?
  }

  /** The value of a digit string, most significant digit first. */
  function Magnitude(s: string, radix: nat): nat
    requires AllDigits(s, radix)
  {
    if |s| == 0 then 0
    else Magnitude(s[..|s| - 1], radix) * radix + DigitValue(s[|s| - 1], radix).value
  }

  /** `Integer.parseInt(s, radix)`: `None` where Java throws NumberFormatException. */
  function ParseInt(s: string, radix: nat): (r: Option<int>)
    requires 2 <= radix <= 36
    ensures r.Some? ==> IsInt32(r.value)
    ensures r.Some? ==> |s| > 0
  {
    var signed := |s| > 0 && (s[0] == '-' || s[0] == '+');
    var digits := if signed then s[1..] else s;
    if |digits| == 0 || !AllDigits(digits, radix) then None
    else
      var m: int := Magnitude(digits, radix);
      var v := if |s| > 0 && s[0] == '-' then -m else m;
      if IsInt32(v) then Some(v) else None
  }

  /** The digits of `n` in base `radix`, most significant first, no leading zeros. */
  function NatToDigits(n: nat, radix: nat): (s: string)
    requires 2 <= radix <= 36
    ensures |s| > 0
  {
    if n < radix then [DigitChar(n)]
    else NatToDigits(n / radix, radix) + [DigitChar(n % radix)]
  }

  /** `String.valueOf(n)`: decimal, with a leading '-' for negatives. */
  function IntToString(n: int): string {
    if n < 0 then "-" + NatToDigits(-n, 10) else NatToDigits(n, 10)
  }

  /** `Integer.toHexString(n)` for non-negative `n`: lower-case hex digits. */
  function HexString(n: nat): string {
    NatToDigits(n, 16)
  }

  lemma DivShrinks(n: nat, radix: nat)
    requires 2 <= radix <= n
    ensures n / radix < n
    ensures n == (n / radix) * radix + n % radix
  {
  }

  lemma DigitValueOfChar(d: nat, radix: nat)
    requires d < radix <= 36
    ensures DigitValue(DigitChar(d), radix) == Some(d)
  {
  }

  /** Only ASCII letters and digits are digits of any radix. */
  lemma DigitsAlphanumeric(s: string, radix: nat)
    requires AllDigits(s, radix)
    ensures forall i :: 0 <= i < |s| ==> '0' <= s[i] <= '9' || 'a' <= s[i] <= 'z' || 'A' <= s[i] <= 'Z'
  {
    forall i | 0 <= i < |s|
      ensures '0' <= s[i] <= '9' || 'a' <= s[i] <= 'z' || 'A' <= s[i] <= 'Z'
    {
      assert DigitValue(s[i], radix).Some?;
    }
  }

  /** Every char `NatToDigits` renders is a valid digit of the radix. */
  lemma {:induction false} DigitsAreDigits(n: nat, radix: nat)
    requires 2 <= radix <= 36
    ensures AllDigits(NatToDigits(n, radix), radix)
    decreases n
  {
    if n < radix {
      DigitValueOfChar(n, radix);
    } else {
      var p := NatToDigits(n / radix, radix);
      DivShrinks(n, radix);
      DigitsAreDigits(n / radix, radix);
      var s := p + [DigitChar(n % radix)];
      assert NatToDigits(n, radix) == s;
      forall i | 0 <= i < |s|
        ensures DigitValue(s[i], radix).Some?
      {
        if i < |p| {
          assert s[i] == p[i];
        } else {
          DigitValueOfChar(n % radix, radix);
        }
      }
    }
  }

  /** The digits `NatToDigits` renders read back as `n`. */
  lemma {:induction false} MagnitudeOfDigits(n: nat, radix: nat)
    requires 2 <= radix <= 36
    ensures AllDigits(NatToDigits(n, radix), radix)
    ensures Magnitude(NatToDigits(n, radix), radix) == n
    decreases n
  {
    DigitsAreDigits(n, radix);
    if n < radix {
      DigitValueOfChar(n, radix);
    } else {
      var p := NatToDigits(n / radix, radix);
      DivShrinks(n, radix);
      MagnitudeOfDigits(n / radix, radix);
      DigitValueOfChar(n % radix, radix);
      var s := p + [DigitChar(n % radix)];
      assert NatToDigits(n, radix) == s;
      assert s[..|s| - 1] == p;
      assert s[|s| - 1] == DigitChar(n % radix);
      assert Magnitude(s, radix) == Magnitude(p, radix) * radix + n % radix;
      assert Magnitude(p, radix) == n / radix;
      assert n == (n / radix) * radix + n % radix;
    }
  }

  /** A rendered digit string is unsigned: it never starts with '-' or '+'. */
  lemma DigitsUnsigned(n: nat, radix: nat)
    requires 2 <= radix <= 36
    ensures NatToDigits(n, radix)[0] != '-' && NatToDigits(n, radix)[0] != '+'
  {
    MagnitudeOfDigits(n, radix);
    assert DigitValue(NatToDigits(n, radix)[0], radix).Some?;
  }

  /** `Integer.parseInt(String.valueOf(n)) == n` for every 32-bit `n`. */
  lemma ParseIntToString(n: int)
    requires IsInt32(n)
    ensures ParseInt(IntToString(n), 10) == Some(n)
  {
    var m := if n < 0 then -n else n;
    MagnitudeOfDigits(m, 10);
    DigitsUnsigned(m, 10);
    var s := IntToString(n);
    if n < 0 {
      assert s[1..] == NatToDigits(m, 10);
    }
  }

  /** `Integer.parseInt(Integer.toHexString(n), 16) == n` for positive 32-bit `n`. */
  lemma ParseHexString(n: nat)
    requires n <= IntMax
    ensures ParseInt(HexString(n), 16) == Some(n)
  {
    MagnitudeOfDigits(n, 16);
    DigitsUnsigned(n, 16);
  }

  /** A rendered decimal is a digit string with no surrounding blanks. */
  lemma IntToStringChars(n: int)
    ensures |IntToString(n)| > 0
    ensures forall i :: 0 <= i < |IntToString(n)| ==>
      IntToString(n)[i] == '-' || '0' <= IntToString(n)[i] <= '9'
  {
    var m := if n < 0 then -n else n;
    MagnitudeOfDigits(m, 10);
    var d := NatToDigits(m, 10);
    assert forall i :: 0 <= i < |d| ==> '0' <= d[i] <= '9' by {
      forall i | 0 <= i < |d| ensures '0' <= d[i] <= '9' {
        assert DigitValue(d[i], 10).Some?;
      }
    }
  }
}
