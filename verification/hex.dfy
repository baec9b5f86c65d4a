/** Hexadecimal text for octet strings, as `base::HexEncode` writes it: two
    upper-case digits per octet, most significant nibble first. */
module Hex {
  import opened Wrappers
  import opened Bytes

  type Nibble = x: int | 0 <= x < 16

  predicate IsUpperHexDigit(c: char) {
    '0' <= c <= '9' || 'A' <= c <= 'F'
  }

  /** The value of a hexadecimal digit of either case. */
  function DigitValue(c: char): Option<Nibble> {
    if '0' <= c <= '9' then Some(c as int - '0' as int)
    else if 'A' <= c <= 'F' then Some(c as int - 'A' as int + 10)
    else if 'a' <= c <= 'f' then Some(c as int - 'a' as int + 10)
    else None
  }

  function Digit(v: Nibble): (c: char)
    ensures IsUpperHexDigit(c)
    ensures DigitValue(c) == Some(v)
  {
    if v < 10 then ('0' as int + v) as char else ('A' as int + (v - 10)) as char
  }

  function Encode(data: seq<byte>): (s: string)
    ensures |s| == 2 * |data|
    ensures forall i | 0 <= i < |s| :: IsUpperHexDigit(s[i])
  {
    if |data| == 0 then [] else [Digit(data[0] / 16), Digit(data[0] % 16)] + Encode(data[1..])
  }

  /** Reads pairs of hexadecimal digits back into octets; None on an odd
      length or a character that is not a hexadecimal digit. */
  function Decode(s: string): (r: Option<seq<byte>>)
    ensures r.Some? ==> 2 * |r.value| == |s|
  {
    if |s| == 0 then Some([])
    else if |s| == 1 then None
    else
      var hi :- DigitValue(s[0]);
      var lo :- DigitValue(s[1]);
      var rest :- Decode(s[2..]);
      Some([hi * 16 + lo] + rest)
  }

  /** Hexadecimal text determines the octets it was made from. */
  lemma {:induction false} DecodeEncode(data: seq<byte>)
    ensures Decode(Encode(data)) == Some(data)
  {
    if |data| > 0 {
      var s := Encode(data);
      DecodeEncode(data[1..]);
      assert s[2..] == Encode(data[1..]);
      assert DigitValue(s[0]) == Some(data[0] / 16);
      assert DigitValue(s[1]) == Some(data[0] % 16);
      assert data == [data[0]] + data[1..];
    }
  }
}
