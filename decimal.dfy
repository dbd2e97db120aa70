/** Java's decimal rendering of an `int` (string concatenation
    `"..." + n`), used to build the baud-rate command. */
module Decimal {
  import opened GattTypes

  function DigitChar(d: int): (c: char)
    requires 0 <= d < 10
    ensures '0' <= c <= '9'
  {
    ('0' as int + d) as char
  }

  /** Decimal digits of a non-negative number, without leading zeros. */
  function NatToDecimal(n: nat): string
  {
    if n < 10 then [DigitChar(n)] else NatToDecimal(n / 10) + [DigitChar(n % 10)]
  }

  /** `Integer.toString(n)`: a minus sign for negative numbers. */
  function IntToDecimal(n: int): string
  {
    if n < 0 then "-" + NatToDecimal(-n) else NatToDecimal(n)
  }

  /** Reads a non-empty run of decimal digits. */
  function ParseNat(s: string): Option<nat>
  {
    if s == [] then None
    else
      var last := s[|s| - 1];
      if !('0' <= last <= '9') then None
      else if |s| == 1 then Some(last as int - '0' as int)
      else
        match ParseNat(s[..|s| - 1])
        case Some(front) => Some(10 * front + (last as int - '0' as int))
        case None => None
  }

  /** Reads an optionally negative decimal number. */
  function ParseInt(s: string): Option<int>
  {
    if s != [] && s[0] == '-' then
      match ParseNat(s[1..])
      case Some(m) => Some(-(m as int))
      case None => None
    else
      match ParseNat(s)
      case Some(m) => Some(m)
      case None => None
  }

  /** A rendered number starts with a digit (so never with a minus sign). */
  lemma {:induction false} NatToDecimalStartsWithDigit(n: nat)
    ensures |NatToDecimal(n)| > 0 && '0' <= NatToDecimal(n)[0] <= '9'
  {
    if n >= 10 {
      NatToDecimalStartsWithDigit(n / 10);
    }
  }

  lemma {:induction false} ParseNatDecimal(n: nat)
    ensures ParseNat(NatToDecimal(n)) == Some(n)
  {
    if n >= 10 {
      var front := NatToDecimal(n / 10);
      var s := NatToDecimal(n);
      NatToDecimalStartsWithDigit(n / 10);
      assert s[..|s| - 1] == front;
      ParseNatDecimal(n / 10);
    }
  }

  /** The rendering is exact: reading it back yields the number. */
  lemma IntToDecimalRoundTrip(n: int)
    ensures ParseInt(IntToDecimal(n)) == Some(n)
  {
    var s := IntToDecimal(n);
    if n < 0 {
      var digits := NatToDecimal(-n);
      assert s == "-" + digits;
      assert s[0] == '-' && s[1..] == digits;
      ParseNatDecimal(-n);
      assert ParseNat(s[1..]) == Some(-n);
    } else {
      NatToDecimalStartsWithDigit(n);
      assert s[0] != '-';
      ParseNatDecimal(n);
    }
  }
}
