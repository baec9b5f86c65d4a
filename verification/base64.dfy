/** Base 64 encoding as defined by RFC 4648: the standard alphabet of its
    section 4 (what `base::Base64Encode` and `base::Base64Decode` produce and
    accept) and the URL- and filename-safe alphabet of its section 5, with or
    without the trailing '=' padding of section 3.2. */
module Base64 {
  import opened Wrappers
  import opened Bytes

  /** A 6-bit group, the value one base 64 character stands for. */
  type Sextet = x: int | 0 <= x < 64

  /** Section 4 (`+`, `/`) and section 5 (`-`, `_`) of RFC 4648 differ only
      in the characters for the values 62 and 63. */
  datatype Alphabet = Standard | UrlSafe

  const PadChar: char := '='

  function Char62(alphabet: Alphabet): char {
    if alphabet == Standard then '+' else '-'
  }

  function Char63(alphabet: Alphabet): char {
    if alphabet == Standard then '/' else '_'
  }

  /** The value of an alphabet character, or None for any other character
      (in particular for the pad character). */
  function Value(alphabet: Alphabet, c: char): (r: Option<Sextet>)
    ensures c == PadChar ==> r == None
  {
    if 'A' <= c <= 'Z' then Some(c as int - 'A' as int)
    else if 'a' <= c <= 'z' then Some(c as int - 'a' as int + 26)
    else if '0' <= c <= '9' then Some(c as int - '0' as int + 52)
    else if c == Char62(alphabet) then Some(62)
    else if c == Char63(alphabet) then Some(63)
    else None
  }

  predicate InAlphabet(alphabet: Alphabet, c: char) {
    Value(alphabet, c).Some?
  }

  /** The character encoding a sextet; decoding it gives the sextet back. */
  function Char(alphabet: Alphabet, v: Sextet): (c: char)
    ensures Value(alphabet, c) == Some(v)
  {
    if v < 26 then ('A' as int + v) as char
    else if v < 52 then ('a' as int + (v - 26)) as char
    else if v < 62 then ('0' as int + (v - 52)) as char
    else if v == 62 then Char62(alphabet)
    else Char63(alphabet)
  }

  /** Number of alphabet characters for `n` input octets: 4 per full group
      of 3 octets, then 2 for a trailing single octet or 3 for a trailing
      pair (section 4 of RFC 4648). */
  function UnpaddedLength(n: nat): nat {
    (4 * n + 2) / 3
  }

  /** `k` pad characters. */
  function Pads(k: nat): (s: string)
    ensures |s| == k
    ensures forall i | 0 <= i < k :: s[i] == PadChar
  {
    if k == 0 then [] else [PadChar] + Pads(k - 1)
  }

  /** Number of '=' characters that complete the last quantum. */
  function PadCount(n: nat): nat {
    (3 - n % 3) % 3
  }

  lemma LengthStep(n: nat)
    requires n >= 3
    ensures UnpaddedLength(n) == UnpaddedLength(n - 3) + 4
    ensures PadCount(n) == PadCount(n - 3)
  {
  }

  /** Four characters for a full 24-bit group, most significant bits first. */
  function EncodeGroup(alphabet: Alphabet, a: byte, b: byte, c: byte): (s: string)
    ensures |s| == 4
    ensures forall i | 0 <= i < 4 :: InAlphabet(alphabet, s[i])
  {
    [Char(alphabet, a / 4), Char(alphabet, (a % 4) * 16 + b / 16),
     Char(alphabet, (b % 16) * 4 + c / 64), Char(alphabet, c % 64)]
  }

  /** The final one or two octets: the bits are left-aligned into two or
      three characters, followed by '=' up to the end of the quantum when
      padding is wanted. */
  function EncodeTail(alphabet: Alphabet, pad: bool, tail: seq<byte>): (s: string)
    requires |tail| < 3
    ensures |s| == UnpaddedLength(|tail|) + (if pad then PadCount(|tail|) else 0)
    ensures forall i | 0 <= i < UnpaddedLength(|tail|) :: InAlphabet(alphabet, s[i])
    ensures forall i | UnpaddedLength(|tail|) <= i < |s| :: s[i] == PadChar
  {
    if |tail| == 2 then
      [Char(alphabet, tail[0] / 4), Char(alphabet, (tail[0] % 4) * 16 + tail[1] / 16),
       Char(alphabet, (tail[1] % 16) * 4)]
      + (if pad then [PadChar] else [])
    else if |tail| == 1 then
      [Char(alphabet, tail[0] / 4), Char(alphabet, (tail[0] % 4) * 16)]
      + (if pad then [PadChar, PadChar] else [])
    else
      []
  }

  /** Encoding of `data` in the given alphabet, padded with '=' or not. */
  function EncodeWith(alphabet: Alphabet, pad: bool, data: seq<byte>): (s: string)
    ensures |s| == UnpaddedLength(|data|) + (if pad then PadCount(|data|) else 0)
    ensures forall i | 0 <= i < UnpaddedLength(|data|) :: InAlphabet(alphabet, s[i])
    ensures forall i | UnpaddedLength(|data|) <= i < |s| :: s[i] == PadChar
    decreases |data|
  {
    if |data| >= 3 then
      var g := EncodeGroup(alphabet, data[0], data[1], data[2]);
      var rest := EncodeWith(alphabet, pad, data[3..]);
      LengthStep(|data|);
      assert forall i | 4 <= i < |g + rest| :: (g + rest)[i] == rest[i - 4];
      g + rest
    else
      EncodeTail(alphabet, pad, data)
  }

  lemma PaddedLength(n: nat)
    ensures UnpaddedLength(n) + PadCount(n) == 4 * ((n + 2) / 3)
  {
    var q, r := n / 3, n % 3;
    assert n == 3 * q + r;
    if r == 0 {
      assert UnpaddedLength(n) == 4 * q;
      assert (n + 2) / 3 == q;
    } else if r == 1 {
      assert UnpaddedLength(n) == 4 * q + 2;
      assert (n + 2) / 3 == q + 1;
    } else {
      assert UnpaddedLength(n) == 4 * q + 3;
      assert (n + 2) / 3 == q + 1;
    }
  }

  /** `base::Base64Encode`: section 4 of RFC 4648, padded. */
  function Encode(data: seq<byte>): (s: string)
    ensures |s| == 4 * ((|data| + 2) / 3)
    ensures forall i | 0 <= i < |s| :: InAlphabet(Standard, s[i]) || s[i] == PadChar
  {
    PaddedLength(|data|);
    EncodeWith(Standard, true, data)
  }

  /** BASE64URL-ENCODE of Appendix A of RFC 7636: section 5 of RFC 4648
      with all trailing '=' omitted. */
  function EncodeUrlUnpadded(data: seq<byte>): (s: string)
    ensures |s| == UnpaddedLength(|data|)
    ensures forall i | 0 <= i < |s| :: InAlphabet(UrlSafe, s[i])
  {
    EncodeWith(UrlSafe, false, data)
  }

  /** The padded encoding is the unpadded one followed by the pad characters. */
  lemma {:induction false} PaddedExtendsUnpadded(alphabet: Alphabet, data: seq<byte>)
    ensures EncodeWith(alphabet, true, data)
         == EncodeWith(alphabet, false, data) + Pads(PadCount(|data|))
    decreases |data|
  {
    var pads := Pads(PadCount(|data|));
    if |data| >= 3 {
      var g := EncodeGroup(alphabet, data[0], data[1], data[2]);
      PaddedExtendsUnpadded(alphabet, data[3..]);
      LengthStep(|data|);
      calc {
        EncodeWith(alphabet, true, data);
        g + EncodeWith(alphabet, true, data[3..]);
        g + (EncodeWith(alphabet, false, data[3..]) + pads);
        (g + EncodeWith(alphabet, false, data[3..])) + pads;
        EncodeWith(alphabet, false, data) + pads;
      }
    } else {
      TailPaddedExtendsUnpadded(alphabet, data);
    }
  }

  lemma TailPaddedExtendsUnpadded(alphabet: Alphabet, tail: seq<byte>)
    requires |tail| < 3
    ensures EncodeTail(alphabet, true, tail)
         == EncodeTail(alphabet, false, tail) + Pads(PadCount(|tail|))
  {
    if |tail| == 2 {
      assert PadCount(2) == 1;
      assert Pads(1) == [PadChar];
    } else if |tail| == 1 {
      assert PadCount(1) == 2;
      assert Pads(2) == [PadChar, PadChar];
    }
  }

  /** Three octets from a full group of four sextets. */
  function DecodeGroup(s: string): (r: Option<seq<byte>>)
    requires |s| == 4
    ensures r.Some? ==> |r.value| == 3
  {
    var a :- Value(Standard, s[0]);
    var b :- Value(Standard, s[1]);
    var c :- Value(Standard, s[2]);
    var d :- Value(Standard, s[3]);
    Some([a * 4 + b / 16, (b % 16) * 16 + c / 4, (c % 4) * 64 + d])
  }

  /** The last quantum: "xx==" holds one octet, "xxx=" two, "xxxx" three.
      The bits left over after the last octet must be zero (section 3.5 of
      RFC 4648), so each octet string has exactly one encoding. */
  function DecodeLast(s: string): (r: Option<seq<byte>>)
    requires |s| == 4
    ensures r.Some? ==> 1 <= |r.value| <= 3
  {
    if s[2] == PadChar && s[3] == PadChar then
      var a :- Value(Standard, s[0]);
      var b :- Value(Standard, s[1]);
      if b % 16 != 0 then None else Some([a * 4 + b / 16])
    else if s[3] == PadChar then
      var a :- Value(Standard, s[0]);
      var b :- Value(Standard, s[1]);
      var c :- Value(Standard, s[2]);
      if c % 4 != 0 then None else Some([a * 4 + b / 16, (b % 16) * 16 + c / 4])
    else
      DecodeGroup(s)
  }

  /** `base::Base64Decode`: section 4 of RFC 4648, padding required, None on
      any character outside the alphabet or a length that is not a multiple
      of four. */
  function Decode(s: string): (r: Option<seq<byte>>)
    ensures r.Some? ==> |s| % 4 == 0
    decreases |s|
  {
    if |s| == 0 then Some([])
    else if |s| < 4 then None
    else if |s| == 4 then DecodeLast(s)
    else
      var head :- DecodeGroup(s[..4]);
      var tail :- Decode(s[4..]);
      Some(head + tail)
  }

  /** The arithmetic behind a group round trip: the octets are recovered
      from the sextets they were split into. */
  lemma SplitRecombine(a: byte, b: byte, c: byte)
    ensures (a / 4) * 4 + ((a % 4) * 16 + b / 16) / 16 == a
    ensures (((a % 4) * 16 + b / 16) % 16) * 16 + ((b % 16) * 4 + c / 64) / 4 == b
    ensures (((b % 16) * 4 + c / 64) % 4) * 64 + c % 64 == c
  {
  }

  lemma DecodeEncodeGroup(a: byte, b: byte, c: byte)
    ensures DecodeGroup(EncodeGroup(Standard, a, b, c)) == Some([a, b, c])
  {
    var g := EncodeGroup(Standard, a, b, c);
    assert Value(Standard, g[0]) == Some(a / 4);
    assert Value(Standard, g[1]) == Some((a % 4) * 16 + b / 16);
    assert Value(Standard, g[2]) == Some((b % 16) * 4 + c / 64);
    assert Value(Standard, g[3]) == Some(c % 64);
    SplitRecombine(a, b, c);
  }

  /** The last quantum decodes to the one or two octets it encodes. */
  lemma DecodeEncodeTail(data: seq<byte>)
    requires 1 <= |data| <= 2
    ensures DecodeLast(Encode(data)) == Some(data)
  {
    var s := Encode(data);
    if |data| == 1 {
      var a := data[0];
      SplitRecombine(a, 0, 0);
      assert s == [Char(Standard, a / 4), Char(Standard, (a % 4) * 16), PadChar, PadChar];
      assert Value(Standard, s[0]) == Some(a / 4);
      assert Value(Standard, s[1]) == Some((a % 4) * 16);
      assert data == [a];
    } else {
      var a, b := data[0], data[1];
      SplitRecombine(a, b, 0);
      assert s == [Char(Standard, a / 4), Char(Standard, (a % 4) * 16 + b / 16),
                   Char(Standard, (b % 16) * 4), PadChar];
      assert Value(Standard, s[0]) == Some(a / 4);
      assert Value(Standard, s[1]) == Some((a % 4) * 16 + b / 16);
      assert Value(Standard, s[2]) == Some((b % 16) * 4);
      assert data == [a, b];
    }
  }

  /** Decoding inverts encoding (section 4 of RFC 4648). */
  lemma {:induction false} DecodeEncode(data: seq<byte>)
    ensures Decode(Encode(data)) == Some(data)
    decreases |data|
  {
    var s := Encode(data);
    if |data| == 0 {
    } else if |data| <= 2 {
      DecodeEncodeTail(data);
    } else {
      var g := EncodeGroup(Standard, data[0], data[1], data[2]);
      var rest := Encode(data[3..]);
      assert s == g + rest;
      DecodeEncodeGroup(data[0], data[1], data[2]);
      assert data[..3] == [data[0], data[1], data[2]];
      if |data| == 3 {
        assert rest == [];
        assert data == data[..3];
      } else {
        DecodeEncode(data[3..]);
        assert s[..4] == g;
        assert s[4..] == rest;
        assert data == data[..3] + data[3..];
      }
    }
  }

  /** A character is the only one of its alphabet with its value. */
  lemma CharOfValue(c: char)
    requires Value(Standard, c).Some?
    ensures Char(Standard, Value(Standard, c).value) == c
  {
  }

  /** The arithmetic behind the converse group round trip: the sextets are
      recovered from the octets they were packed into. */
  lemma RecombineSplit(a: Sextet, b: Sextet, c: Sextet, d: Sextet)
    ensures (a * 4 + b / 16) / 4 == a
    ensures ((a * 4 + b / 16) % 4) * 16 + ((b % 16) * 16 + c / 4) / 16 == b
    ensures (((b % 16) * 16 + c / 4) % 16) * 4 + ((c % 4) * 64 + d) / 64 == c
    ensures ((c % 4) * 64 + d) % 64 == d
  {
  }

  lemma EncodeDecodeGroup(s: string)
    requires |s| == 4 && DecodeGroup(s).Some?
    ensures var v := DecodeGroup(s).value; EncodeGroup(Standard, v[0], v[1], v[2]) == s
  {
    var a: int, b: int := Value(Standard, s[0]).value, Value(Standard, s[1]).value;
    var c: int, d: int := Value(Standard, s[2]).value, Value(Standard, s[3]).value;
    var v := DecodeGroup(s).value;
    assert v[0] == a * 4 + b / 16 && v[1] == (b % 16) * 16 + c / 4 && v[2] == (c % 4) * 64 + d;
    RecombineSplit(a, b, c, d);
    CharOfValue(s[0]);
    CharOfValue(s[1]);
    CharOfValue(s[2]);
    CharOfValue(s[3]);
    var g := EncodeGroup(Standard, v[0], v[1], v[2]);
    assert g[0] == s[0] && g[1] == s[1] && g[2] == s[2] && g[3] == s[3];
  }

  lemma EncodeDecodeOne(s: string)
    requires |s| == 4 && s[2] == PadChar && s[3] == PadChar && DecodeLast(s).Some?
    ensures Encode(DecodeLast(s).value) == s
  {
    var a: int, b: int := Value(Standard, s[0]).value, Value(Standard, s[1]).value;
    var v := DecodeLast(s).value;
    var expected: seq<byte> := [a * 4 + b / 16];
    assert v == expected;
    RecombineSplit(a, b, 0, 0);
    CharOfValue(s[0]);
    CharOfValue(s[1]);
    assert Encode(v) == EncodeTail(Standard, true, v);
    assert EncodeTail(Standard, true, v) == [Char(Standard, a), Char(Standard, b), PadChar, PadChar];
  }

  lemma EncodeDecodeTwo(s: string)
    requires |s| == 4 && s[2] != PadChar && s[3] == PadChar && DecodeLast(s).Some?
    ensures Encode(DecodeLast(s).value) == s
  {
    var a: int, b: int := Value(Standard, s[0]).value, Value(Standard, s[1]).value;
    var c: int := Value(Standard, s[2]).value;
    var v := DecodeLast(s).value;
    var expected: seq<byte> := [a * 4 + b / 16, (b % 16) * 16 + c / 4];
    assert v == expected;
    RecombineSplit(a, b, c, 0);
    CharOfValue(s[0]);
    CharOfValue(s[1]);
    CharOfValue(s[2]);
    assert Encode(v) == EncodeTail(Standard, true, v);
    assert EncodeTail(Standard, true, v)
        == [Char(Standard, a), Char(Standard, b), Char(Standard, c), PadChar];
  }

  lemma EncodeDecodeLast(s: string)
    requires |s| == 4 && DecodeLast(s).Some?
    ensures Encode(DecodeLast(s).value) == s
  {
    if s[2] == PadChar && s[3] == PadChar {
      EncodeDecodeOne(s);
    } else if s[3] == PadChar {
      EncodeDecodeTwo(s);
    } else {
      var v := DecodeLast(s).value;
      EncodeDecodeGroup(s);
      assert v[3..] == [];
      assert Encode(v) == EncodeGroup(Standard, v[0], v[1], v[2]) + Encode(v[3..]);
    }
  }

  /** Encoding inverts decoding: a text the decoder accepts is the encoding
      of what it decodes to, so no two texts decode to the same octets. */
  lemma {:induction false} EncodeDecode(s: string)
    requires Decode(s).Some?
    ensures Encode(Decode(s).value) == s
    decreases |s|
  {
    if |s| == 4 {
      EncodeDecodeLast(s);
    } else if |s| > 4 {
      var head := DecodeGroup(s[..4]).value;
      var tail := Decode(s[4..]).value;
      EncodeDecode(s[4..]);
      EncodeDecodeGroup(s[..4]);
      var data := head + tail;
      assert data[..3] == head;
      assert data[3..] == tail;
      assert Encode(data) == EncodeGroup(Standard, data[0], data[1], data[2]) + Encode(data[3..]);
      assert s == s[..4] + s[4..];
    }
  }
}
