/**
 * The text form of an instant, standing in for `Date.prototype.toISOString`
 * (writing) and `new Date(text)` (reading back). The model writes the
 * millisecond count in decimal; what matters to the core is that the
 * encoding is never empty and reads back to the same instant.
 */
module InstantText {
  import opened Wrappers

  predicate IsDigit(c: char) {
    '0' <= c <= '9'
  }

  predicate AllDigits(s: string) {
    forall i :: 0 <= i < |s| ==> IsDigit(s[i])
  }

  function DigitChar(d: int): (c: char)
    requires 0 <= d < 10
    ensures IsDigit(c)
  {
    ('0' as int + d) as char
  }

  function DigitValue(c: char): (d: int)
    requires IsDigit(c)
    ensures 0 <= d < 10
  {
    c as int - '0' as int
  }

  /** Decimal digits of `n`, most significant first, without leading zeros. */
  function NatToDigits(n: nat): (s: string)
    ensures |s| > 0 && AllDigits(s)
  {
    if n < 10 then [DigitChar(n)] else NatToDigits(n / 10) + [DigitChar(n % 10)]
  }

  /** The number a non-empty run of decimal digits denotes. */
  function DigitsToNat(s: string): nat
    requires AllDigits(s)
  {
    if |s| == 0 then 0 else DigitsToNat(s[..|s| - 1]) * 10 + DigitValue(s[|s| - 1])
  }

  /** The text written for the instant `t`. */
  function Encode(t: int): (s: string)
    ensures |s| > 0
  {
    if t < 0 then "-" + NatToDigits(-t) else NatToDigits(t)
  }

  /** Reading text back as an instant; `None` is text no instant was written as. */
  function Decode(s: string): Option<int> {
    if |s| > 1 && s[0] == '-' && AllDigits(s[1..]) then Some(-(DigitsToNat(s[1..]) as int))
    else if |s| > 0 && AllDigits(s) then Some(DigitsToNat(s))
    else None
  }

  lemma {:induction false} DigitsRoundTrip(n: nat)
    ensures DigitsToNat(NatToDigits(n)) == n
  {
    var s := NatToDigits(n);
    if n >= 10 {
      DigitsRoundTrip(n / 10);
      assert s[..|s| - 1] == NatToDigits(n / 10);
    }
  }

  /** Every written instant reads back as itself. */
  lemma DecodeEncode(t: int)
    ensures Decode(Encode(t)) == Some(t)
  {
    var s := Encode(t);
    if t < 0 {
      assert s[1..] == NatToDigits(-t);
      DigitsRoundTrip(-t);
    } else {
      DigitsRoundTrip(t);
      assert IsDigit(s[0]);
    }
  }

  /** Distinct instants are written as distinct texts. */
  lemma EncodeInjective(a: int, b: int)
    requires Encode(a) == Encode(b)
    ensures a == b
  {
    DecodeEncode(a);
    DecodeEncode(b);
  }
}
