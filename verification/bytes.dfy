/** Octets, as held in the `uint8_t` buffers and `std::string` byte strings
    of the modelled code. */
module Bytes {

  type byte = x: int | 0 <= x < 256

  /** A buffer of exactly 32 octets: a SHA-256 digest, or the random seed
      from which the PKCE code verifier is made. */
  type Bytes32 = s: seq<byte> | |s| == 32 witness seq(32, i => 0)
}
