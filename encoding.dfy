/**
 * The two textual encodings the reset flow uses for its secrets:
 * `Number.prototype.toString()` of the drawn OTP, and
 * `Buffer.prototype.toString("hex")` of the random reset-token bytes.
 */
module Encoding {

  newtype byte = x: int | 0 <= x < 256

  predicate IsDigit(c: char) { '0' <= c <= '9' }

  predicate IsHexDigit(c: char) { '0' <= c <= '9' || 'a' <= c <= 'f' }

  function DigitChar(d: nat): (c: char)
    requires d < 10
    ensures IsDigit(c) && c as int - '0' as int == d
  {
    ('0' as int + d) as char
  }

  function DigitValue(c: char): (d: nat)
    requires IsDigit(c)
    ensures d < 10
  {
    c as int - '0' as int
  }

  function Pow10(k: nat): (p: nat)
    ensures p >= 1
  {
    if k == 0 then 1 else 10 * Pow10(k - 1)
  }

  /** The decimal numeral of `n`: digits only, no leading zero. */
  function Decimal(n: nat): (s: string)
    ensures |s| >= 1
    ensures forall k :: 0 <= k < |s| ==> IsDigit(s[k])
    ensures n >= 10 ==> s[0] != '0'
  {
    if n < 10 then [DigitChar(n)] else Decimal(n / 10) + [DigitChar(n % 10)]
  }

  /** The number a string of digits denotes (most significant first). */
  function DecimalValue(s: string): nat
    requires forall k :: 0 <= k < |s| ==> IsDigit(s[k])
  {
    if |s| == 0 then 0
    else 10 * DecimalValue(s[..|s| - 1]) + DigitValue(s[|s| - 1])
  }

  /** Reading a numeral back gives the number it was printed from. */
  lemma {:induction false} DecimalRoundTrip(n: nat)
    ensures DecimalValue(Decimal(n)) == n
  {
    var s := Decimal(n);
    if n >= 10 {
      DecimalRoundTrip(n / 10);
      assert s[..|s| - 1] == Decimal(n / 10);
    }
  }

  /** A number with k+1 digits prints as k+1 characters. */
  lemma {:induction false} DecimalLength(n: nat, k: nat)
    requires Pow10(k) <= n < Pow10(k + 1)
    ensures |Decimal(n)| == k + 1
  {
    if k > 0 {
      assert Pow10(k) == 10 * Pow10(k - 1);
      assert Pow10(k + 1) == 10 * Pow10(k);
      assert Pow10(k - 1) <= n / 10 < Pow10(k);
      DecimalLength(n / 10, k - 1);
    }
  }

  /** The drawn OTP `Math.floor(100000 + Math.random() * 900000)` always prints
      as a six-digit code. */
  lemma SixDigitCode(code: nat)
    requires 100000 <= code <= 999999
    ensures |Decimal(code)| == 6 && Decimal(code)[0] != '0'
  {
    assert Pow10(5) == 100000 && Pow10(6) == 1000000;
    DecimalLength(code, 5);
  }

  function HexDigit(d: nat): (c: char)
    requires d < 16
    ensures IsHexDigit(c)
  {
    if d < 10 then ('0' as int + d) as char else ('a' as int + (d - 10)) as char
  }

  function HexValue(c: char): (d: nat)
    requires IsHexDigit(c)
    ensures d < 16
  {
    if '0' <= c <= '9' then c as int - '0' as int else c as int - 'a' as int + 10
  }

  /** Lower-case hexadecimal, two characters per byte, high nibble first. */
  function Hex(bytes: seq<byte>): (s: string)
    ensures |s| == 2 * |bytes|
    ensures forall k :: 0 <= k < |s| ==> IsHexDigit(s[k])
  {
    if |bytes| == 0 then []
    else [HexDigit(bytes[0] as int / 16), HexDigit(bytes[0] as int % 16)] + Hex(bytes[1..])
  }

  function Unhex(s: string): seq<byte>
    requires |s| % 2 == 0
    requires forall k :: 0 <= k < |s| ==> IsHexDigit(s[k])
  {
    if |s| == 0 then []
    else [(16 * HexValue(s[0]) + HexValue(s[1])) as byte] + Unhex(s[2..])
  }

  /** Hex encoding loses nothing: the bytes can be read back. */
  lemma {:induction false} HexRoundTrip(bytes: seq<byte>)
    ensures Unhex(Hex(bytes)) == bytes
  {
    if |bytes| > 0 {
      var s := Hex(bytes);
      assert s[2..] == Hex(bytes[1..]);
      HexRoundTrip(bytes[1..]);
    }
  }

  /** Distinct random byte strings give distinct reset tokens. */
  lemma HexInjective(a: seq<byte>, b: seq<byte>)
    ensures Hex(a) == Hex(b) ==> a == b
  {
    HexRoundTrip(a);
    HexRoundTrip(b);
  }
}
