/** The hex dump the service appends to every data broadcast:
    `String.format("%02X ", b)` for each byte of the value, in order. */
module Hex {
  import opened GattTypes

  /** Upper-case hexadecimal digit of a value below 16. */
  function HexDigit(n: int): (c: char)
    requires 0 <= n < 16
    ensures '0' <= c <= '9' || 'A' <= c <= 'F'
  {
    if n < 10 then ('0' as int + n) as char else ('A' as int + n - 10) as char
  }

  /** `%02X ` of one byte: two upper-case digits and a space. */
  function HexByte(b: Byte): string
  {
    [HexDigit(b / 16), HexDigit(b % 16), ' ']
  }

  /** The whole dump, built byte after byte as the StringBuilder does. */
  function HexDump(data: seq<Byte>): string
  {
    if data == [] then [] else HexDump(data[..|data| - 1]) + HexByte(data[|data| - 1])
  }

  /** Value of an upper-case hexadecimal digit. */
  function DigitValue(c: char): Option<int>
  {
    if '0' <= c <= '9' then Some(c as int - '0' as int)
    else if 'A' <= c <= 'F' then Some(c as int - 'A' as int + 10)
    else None
  }

  /** Reads one `%02X ` group back. */
  function ParseHexByte(s: string): Option<Byte>
    requires |s| == 3
  {
    match (DigitValue(s[0]), DigitValue(s[1]))
    case (Some(hi), Some(lo)) =>
      if s[2] == ' ' && 0 <= hi < 16 && 0 <= lo < 16 then Some(16 * hi + lo) else None
    case _ => None
  }

  /** Reads a dump back into the bytes it shows; None on anything that is
      not a sequence of `%02X ` groups. */
  function ParseHex(s: string): Option<seq<Byte>>
  {
    if s == [] then Some([])
    else if |s| < 3 then None
    else
      match (ParseHex(s[..|s| - 3]), ParseHexByte(s[|s| - 3..]))
      case (Some(front), Some(b)) => Some(front + [b])
      case _ => None
  }

  /** Every byte takes exactly three characters. */
  lemma {:induction false} HexDumpLength(data: seq<Byte>)
    ensures |HexDump(data)| == 3 * |data|
  {
    if data != [] {
      HexDumpLength(data[..|data| - 1]);
    }
  }

  lemma ParseHexByteInverts(b: Byte)
    ensures ParseHexByte(HexByte(b)) == Some(b)
  {
  }

  /** Reading a dump with one more group appended. */
  lemma ParseHexSnoc(s: string, group: string)
    requires |group| == 3
    ensures ParseHex(s + group) ==
      match (ParseHex(s), ParseHexByte(group))
      case (Some(front), Some(b)) => Some(front + [b])
      case _ => None
  {
    var t := s + group;
    assert t[..|t| - 3] == s;
    assert t[|t| - 3..] == group;
  }

  /** The dump loses nothing: reading it back yields the original bytes. */
  lemma {:induction false} ParseHexDump(data: seq<Byte>)
    ensures ParseHex(HexDump(data)) == Some(data)
  {
    if data != [] {
      var front, last := data[..|data| - 1], data[|data| - 1];
      ParseHexDump(front);
      ParseHexByteInverts(last);
      ParseHexSnoc(HexDump(front), HexByte(last));
      assert front + [last] == data;
    }
  }

  /** The per-byte StringBuilder loop of broadcastUpdate. */
  method FormatHex(data: seq<Byte>) returns (dump: string)
    ensures dump == HexDump(data)
    ensures |dump| == 3 * |data|
    ensures ParseHex(dump) == Some(data)
  {
    dump := "";
    var i := 0;
    while i < |data|
      invariant 0 <= i <= |data|
      invariant dump == HexDump(data[..i])
    {
      assert data[..i + 1][..i] == data[..i];
      dump := dump + HexByte(data[i]);
      i := i + 1;
    }
    assert data[..i] == data;
    HexDumpLength(data);
    ParseHexDump(data);
  }
}
