/** Decimal presentation of truncated OATH codes (section 5.3 of RFC 4226). */
module Oath {
  import opened Base

  datatype Code = Truncated(bytes: Bytes) | Full(bytes: Bytes) | Hotp | TouchRequired

  const ZERO: Byte := 0x30

  predicate IsDigit(b: Byte) { ZERO <= b <= ZERO + 9 }

  function Pow10(k: nat): (p: nat)
    ensures p > 0
  {
    if k == 0 then 1 else 10 * Pow10(k - 1)
  }

  /** The number that a string of ASCII digits writes in base ten. */
  function DecimalValue(s: Bytes): int {
    if s == [] then 0 else (s[0] - ZERO as int) * Pow10(|s| - 1) + DecimalValue(s[1..])
  }

  /** Dividing by ten once more moves one digit from the quotient to the remainder. */
  lemma NextDigit(n: nat, p: nat)
    requires p > 0
    ensures n / (10 * p) == n / p / 10
    ensures n % (10 * p) == n / p % 10 * p + n % p
  {
    var q, r := n / p, n % p;
    var d := q % 10;
    assert q == 10 * (q / 10) + d;
    assert n == p * q + r;
    assert p * (10 * (q / 10) + d) == 10 * p * (q / 10) + d * p;
    DigitBound(d, p, r);
    DivUnique(n, 10 * p, q / 10, d * p + r);
  }

  lemma DigitBound(d: nat, p: nat, r: nat)
    requires d <= 9 && r < p
    ensures d * p + r < 10 * p
  {
    assert d * p <= 9 * p;
  }

  /**
   Format a truncated code as zero-padded decimal digits: exactly `digits` of them, and their
   value is the 32-bit number modulo the matching power of ten.
   */
  method Decimal(digits: nat, code: Code) returns (r: Option<Bytes>)
    ensures r.Some? <==> code.Truncated? && |code.bytes| == 4 && 4 <= digits <= 8
    ensures r.Some? ==>
              && |r.value| == digits
              && (forall i :: 0 <= i < digits ==> IsDigit(r.value[i]))
              && DecimalValue(r.value) == BeVal(code.bytes) % Pow10(digits)
  {
    if !code.Truncated? || |code.bytes| != 4 || !(4 <= digits <= 8) {
      return None;
    }
    var number := BeVal(code.bytes);
    var output := new Byte[digits](_ => ZERO);
    ghost var n := number;
    for i := digits downto 0
      invariant number == n / Pow10(digits - i)
      invariant DecimalValue(output[i..]) == n % Pow10(digits - i)
      invariant forall k :: 0 <= k < i ==> output[k] == ZERO
      invariant forall k :: i <= k < digits ==> IsDigit(output[k])
    {
      ghost var after := output[i + 1..];
      NextDigit(n, Pow10(digits - i - 1));
      output[i] := output[i] + number % 10;
      number := number / 10;
      assert output[i..] == [output[i]] + after;
    }
    assert output[..] == output[0..];
    return Some(output[..]);
  }
}
