/**
 The 4-byte frame header of the printable-character counting protocol.

 Both the payload length sent by the client and the count sent back by the
 server are unsigned 32-bit integers in network byte order: the most
 significant byte travels first (big-endian, Appendix B of RFC 791). The
 server decodes the header with `ntohl` and encodes its reply with `htonl`;
 here both are functions between a 4-byte sequence and a `U32`.
 */
module Framing {

  /** Number of bytes in a frame header (N_LEN_IN_BYTES). */
  const HeaderSize: nat := 4

  /** 2^32: one more than the largest value a header can carry. */
  const U32Limit: nat := 0x1_0000_0000

  type U32 = x: nat | x < U32Limit

  /** An octet on the wire. */
  type Byte = x: nat | x < 0x100

  /** A header is exactly four bytes. */
  predicate IsHeader(b: seq<Byte>) {
    |b| == HeaderSize
  }

  /** `htonl`: the big-endian bytes of `x`, most significant first. */
  function EncodeU32(x: U32): (b: seq<Byte>)
    ensures IsHeader(b)
    ensures b[0] == x / 0x100_0000 && b[1] == (x / 0x1_0000) % 0x100
    ensures b[2] == (x / 0x100) % 0x100 && b[3] == x % 0x100
    ensures x == b[0] as nat * 0x100_0000 + b[1] as nat * 0x1_0000 + b[2] as nat * 0x100 + b[3] as nat
  {
    DigitSplit(x);
    DigitSplit(x / 0x100);
    DigitSplit(x / 0x1_0000);
    [x / 0x100_0000, (x / 0x1_0000) % 0x100, (x / 0x100) % 0x100, x % 0x100]
  }

  /** `ntohl`: the value whose big-endian bytes are `b`. */
  function DecodeU32(b: seq<Byte>): (x: U32)
    requires IsHeader(b)
    ensures x / 0x100_0000 == b[0] && (x / 0x1_0000) % 0x100 == b[1]
    ensures (x / 0x100) % 0x100 == b[2] && x % 0x100 == b[3]
  {
    var b0: nat, b1: nat, b2: nat, b3: nat := b[0], b[1], b[2], b[3];
    var hi := b0 * 0x100 + b1;
    Div16M(b0, b1 * 0x1_0000 + b2 * 0x100 + b3);
    Div256(hi * 0x100 + b2, b3);
    Div256(hi, b2);
    Div64K(hi, b2 * 0x100 + b3);
    Div256(b0, b1);
    b0 * 0x100_0000 + b1 * 0x1_0000 + b2 * 0x100 + b3
  }

  /** Dividing `q * 256 + r` by 256, for a digit `r`, gives back `q` and `r`. */
  lemma Div256(q: nat, r: nat)
    requires r < 0x100
    ensures (q * 0x100 + r) / 0x100 == q && (q * 0x100 + r) % 0x100 == r
  {
  }

  lemma Div64K(q: nat, r: nat)
    requires r < 0x1_0000
    ensures (q * 0x1_0000 + r) / 0x1_0000 == q
  {
  }

  lemma Div16M(q: nat, r: nat)
    requires r < 0x100_0000
    ensures (q * 0x100_0000 + r) / 0x100_0000 == q
  {
  }

  /** Splitting a number into a quotient and a remainder by 256, twice. */
  lemma DigitSplit(x: nat)
    ensures x == (x / 0x100) * 0x100 + x % 0x100
    ensures x / 0x100 / 0x100 == x / 0x1_0000
    ensures x / 0x1_0000 / 0x100 == x / 0x100_0000
  {
  }

  /** Decoding what was encoded gives the number back, for every u32. */
  lemma DecodeEncode(x: U32)
    ensures DecodeU32(EncodeU32(x)) == x
  {
    var b := EncodeU32(x);
    assert x == b[0] as nat * 0x100_0000 + b[1] as nat * 0x1_0000 + b[2] as nat * 0x100 + b[3] as nat;
  }

  /** Encoding what was decoded gives the header back, for every 4-byte header. */
  lemma EncodeDecode(b: seq<Byte>)
    requires IsHeader(b)
    ensures EncodeU32(DecodeU32(b)) == b
  {
    var e := EncodeU32(DecodeU32(b));
    assert e[1] == b[1] && e[2] == b[2];
  }

  /** Distinct headers decode to distinct lengths: the header carries no slack. */
  lemma DecodeInjective(a: seq<Byte>, b: seq<Byte>)
    requires IsHeader(a) && IsHeader(b)
    requires DecodeU32(a) == DecodeU32(b)
    ensures a == b
  {
    EncodeDecode(a);
    EncodeDecode(b);
  }
}
