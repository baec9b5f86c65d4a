/** The PKCE (RFC 7636) values the Binance widget client makes for its
    authorization request: the code verifier, hex text of 32 random octets,
    and the code challenge, the SHA-256 digest of the verifier rewritten
    from standard base 64 into unpadded base64url. SHA-256 and the random
    source are outside this model and arrive as parameters. */
module BinancePkce {
  import opened Wrappers
  import opened Bytes
  import Base64
  import Hex

  /** Length of the random seed behind the code verifier. */
  const SeedByteLength: nat := 32

  /** The code verifier made from the seed that `crypto::RandBytes` filled:
      64 upper-case hexadecimal digits, from which the seed can be read back. */
  function GetHexEncodedCryptoRandomSeed(randomSeed: Bytes32): (verifier: string)
    ensures |verifier| == 2 * SeedByteLength
    ensures forall i | 0 <= i < |verifier| :: Hex.IsUpperHexDigit(verifier[i])
    ensures Hex.Decode(verifier) == Some(randomSeed)
  {
    Hex.DecodeEncode(randomSeed);
    Hex.Encode(randomSeed)
  }

  /** `std::replace` over a whole string. */
  function Replace(s: string, from: char, to: char): (r: string)
    ensures |r| == |s|
    ensures forall i | 0 <= i < |s| :: r[i] == (if s[i] == from then to else s[i])
  {
    seq(|s|, i requires 0 <= i < |s| => if s[i] == from then to else s[i])
  }

  /** The two replacements applied to the standard encoding: '+' becomes
      '-', then '/' becomes '_'. */
  function ToUrlSafe(s: string): (r: string)
    ensures |r| == |s|
    ensures forall i | 0 <= i < |r| :: r[i] != '+' && r[i] != '/'
  {
    Replace(Replace(s, '+', '-'), '/', '_')
  }

  /** The erase of everything after the last character that is not '=':
      what is left is a prefix of `s`, only '=' was removed, and the run of
      '=' removed is the whole trailing run. */
  function EraseTrailingPadding(s: string): (r: string)
    ensures |r| <= |s| && r == s[..|r|]
    ensures forall i | |r| <= i < |s| :: s[i] == Base64.PadChar
    ensures |r| == 0 || r[|r| - 1] != Base64.PadChar
    decreases |s|
  {
    if |s| > 0 && s[|s| - 1] == Base64.PadChar then EraseTrailingPadding(s[..|s| - 1]) else s
  }

  /** The post-processing of the digest in `GetCodeChallenge` computes
      BASE64URL-ENCODE of Appendix A of RFC 7636. */
  function ChallengeFromDigest(digest: seq<byte>): (challenge: string)
    ensures challenge == Base64.EncodeUrlUnpadded(digest)
  {
    UrlSafeOfStandard(true, digest);
    Base64.PaddedExtendsUnpadded(Base64.UrlSafe, digest);
    EraseOnlyPadding(Base64.EncodeUrlUnpadded(digest), Base64.PadCount(|digest|));
    EraseTrailingPadding(ToUrlSafe(Base64.Encode(digest)))
  }

  /** `BinanceService::GetCodeChallenge`: for the 32-octet SHA-256 digest of
      the verifier the challenge is 43 characters of the base64url alphabet,
      and the rewritten standard encoding ended in exactly one '='. */
  function GetCodeChallenge(codeVerifier: string, sha256: string -> Bytes32): (challenge: string)
    ensures |challenge| == 43
    ensures forall i | 0 <= i < |challenge| :: Base64.InAlphabet(Base64.UrlSafe, challenge[i])
    ensures forall i | 0 <= i < |challenge| ::
              challenge[i] != '+' && challenge[i] != '/' && challenge[i] != Base64.PadChar
    ensures ToUrlSafe(Base64.Encode(sha256(codeVerifier))) == challenge + [Base64.PadChar]
  {
    var digest := sha256(codeVerifier);
    ChallengeOfDigest(digest);
    ChallengeFromDigest(digest)
  }

  lemma ChallengeOfDigest(digest: Bytes32)
    ensures ToUrlSafe(Base64.Encode(digest)) == ChallengeFromDigest(digest) + [Base64.PadChar]
  {
    var unpadded := Base64.EncodeUrlUnpadded(digest);
    UrlSafeOfStandard(true, digest);
    Base64.PaddedExtendsUnpadded(Base64.UrlSafe, digest);
    assert Base64.PadCount(|digest|) == 1;
    assert Base64.Pads(1) == [Base64.PadChar];
    assert ToUrlSafe(Base64.Encode(digest)) == unpadded + [Base64.PadChar];
  }

  lemma ReplaceConcat(a: string, b: string, from: char, to: char)
    ensures Replace(a + b, from, to) == Replace(a, from, to) + Replace(b, from, to)
  {
    assert forall i | 0 <= i < |a + b| ::
      Replace(a + b, from, to)[i] == (Replace(a, from, to) + Replace(b, from, to))[i];
  }

  lemma ToUrlSafeConcat(a: string, b: string)
    ensures ToUrlSafe(a + b) == ToUrlSafe(a) + ToUrlSafe(b)
  {
    ReplaceConcat(a, b, '+', '-');
    ReplaceConcat(Replace(a, '+', '-'), Replace(b, '+', '-'), '/', '_');
  }

  /** What the two replacements do to one character. */
  function UrlSafeChar(c: char): char {
    if c == '+' then '-' else if c == '/' then '_' else c
  }

  lemma ToUrlSafeEach(s: string)
    ensures forall i | 0 <= i < |s| :: ToUrlSafe(s)[i] == UrlSafeChar(s[i])
  {
  }

  lemma UrlSafeCharOfStandard(v: Base64.Sextet)
    ensures UrlSafeChar(Base64.Char(Base64.Standard, v)) == Base64.Char(Base64.UrlSafe, v)
  {
  }

  lemma ToUrlSafeGroup(a: byte, b: byte, c: byte)
    ensures ToUrlSafe(Base64.EncodeGroup(Base64.Standard, a, b, c))
         == Base64.EncodeGroup(Base64.UrlSafe, a, b, c)
  {
    var g := Base64.EncodeGroup(Base64.Standard, a, b, c);
    var u := Base64.EncodeGroup(Base64.UrlSafe, a, b, c);
    var t := ToUrlSafe(g);
    ToUrlSafeEach(g);
    UrlSafeCharOfStandard(a / 4);
    UrlSafeCharOfStandard((a % 4) * 16 + b / 16);
    UrlSafeCharOfStandard((b % 16) * 4 + c / 64);
    UrlSafeCharOfStandard(c % 64);
    assert t[0] == u[0];
    assert t[1] == u[1];
    assert t[2] == u[2];
    assert t[3] == u[3];
    assert t == [t[0], t[1], t[2], t[3]];
  }

  lemma ToUrlSafeTail(pad: bool, tail: seq<byte>)
    requires |tail| < 3
    ensures ToUrlSafe(Base64.EncodeTail(Base64.Standard, pad, tail))
         == Base64.EncodeTail(Base64.UrlSafe, pad, tail)
  {
    var t := Base64.EncodeTail(Base64.Standard, pad, tail);
    var u := Base64.EncodeTail(Base64.UrlSafe, pad, tail);
    ToUrlSafeEach(t);
    if |tail| == 2 {
      UrlSafeCharOfStandard(tail[0] / 4);
      UrlSafeCharOfStandard((tail[0] % 4) * 16 + tail[1] / 16);
      UrlSafeCharOfStandard((tail[1] % 16) * 4);
    } else if |tail| == 1 {
      UrlSafeCharOfStandard(tail[0] / 4);
      UrlSafeCharOfStandard((tail[0] % 4) * 16);
    }
    assert forall i | 0 <= i < |u| :: ToUrlSafe(t)[i] == u[i];
  }

  /** Rewriting '+' and '/' turns the section 4 encoding of RFC 4648 into
      the section 5 encoding. */
  lemma {:induction false} UrlSafeOfStandard(pad: bool, data: seq<byte>)
    ensures ToUrlSafe(Base64.EncodeWith(Base64.Standard, pad, data))
         == Base64.EncodeWith(Base64.UrlSafe, pad, data)
    decreases |data|
  {
    if |data| >= 3 {
      var g := Base64.EncodeGroup(Base64.Standard, data[0], data[1], data[2]);
      UrlSafeOfStandard(pad, data[3..]);
      ToUrlSafeConcat(g, Base64.EncodeWith(Base64.Standard, pad, data[3..]));
      ToUrlSafeGroup(data[0], data[1], data[2]);
    } else {
      ToUrlSafeTail(pad, data);
    }
  }

  /** Erasing the trailing '=' run of `x` followed by pad characters gives
      back `x` when `x` does not itself end in '='. */
  lemma EraseOnlyPadding(x: string, k: nat)
    requires |x| == 0 || x[|x| - 1] != Base64.PadChar
    ensures EraseTrailingPadding(x + Base64.Pads(k)) == x
  {
    var s := x + Base64.Pads(k);
    assert s[..|x|] == x;
  }
}
