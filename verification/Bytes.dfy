/** Integers as the four little-endian bytes that `memcpy` moves. */
module Bytes {
  import opened CTypes

  type byte = x: int | 0 <= x < 256

  const WORD_SIZE: nat := 4

  function Le32(u: uint32): (b: seq<byte>)
    ensures |b| == WORD_SIZE
  {
    [u % 256, u / 0x100 % 256, u / 0x1_0000 % 256, u / 0x100_0000]
  }

  /** Four digits to the base 256, the lowest first, make up the number. */
  lemma Le32Digits(u: uint32)
    ensures u == Le32(u)[0] + 256 * (Le32(u)[1] as int) + 65536 * (Le32(u)[2] as int) + 16777216 * (Le32(u)[3] as int)
  {
    assert u / 0x100 == u / 0x1_0000 * 256 + u / 0x100 % 256;
    assert u / 0x1_0000 == u / 0x100_0000 * 256 + u / 0x1_0000 % 256;
  }

  /** The little-endian word that starts at `a`. */
  function WordAt(b: seq<byte>, a: nat): uint32
    requires a + WORD_SIZE <= |b|
  {
    b[a] + 0x100 * (b[a + 1] as int) + 0x1_0000 * (b[a + 2] as int) + 0x100_0000 * (b[a + 3] as int)
  }

  function FromLe32(b: seq<byte>): uint32
    requires |b| >= WORD_SIZE
  {
    WordAt(b, 0)
  }

  /** A stored word is read back wherever it stands. */
  lemma Le32ReadBack(b: seq<byte>, a: nat, u: uint32)
    requires a + WORD_SIZE <= |b|
    requires b[a..a + WORD_SIZE] == Le32(u)
    ensures WordAt(b, a) == u
  {
    var word := b[a..a + WORD_SIZE];
    assert word[0] == b[a] && word[1] == b[a + 1] && word[2] == b[a + 2] && word[3] == b[a + 3];
    Le32Digits(u);
  }

  lemma Le32RoundTrip(u: uint32, rest: seq<byte>)
    ensures FromLe32(Le32(u) + rest) == u
  {
    assert (Le32(u) + rest)[0..WORD_SIZE] == Le32(u);
    Le32ReadBack(Le32(u) + rest, 0, u);
  }

  lemma FromLe32RoundTrip(b: seq<byte>)
    requires |b| >= WORD_SIZE
    ensures Le32(FromLe32(b)) == b[..WORD_SIZE]
  {
    var u: nat := FromLe32(b);
    var b0: nat, b1: nat, b2: nat, b3: nat := b[0], b[1], b[2], b[3];
    QuotientIs(u, 0x100, b1 + 0x100 * b2 + 0x1_0000 * b3, b0);
    QuotientIs(u, 0x1_0000, b2 + 0x100 * b3, b0 + 0x100 * b1);
    QuotientIs(u, 0x100_0000, b3, b0 + 0x100 * b1 + 0x1_0000 * b2);
    QuotientIs(u / 0x100, 0x100, b2 + 0x100 * b3, b1);
    QuotientIs(u / 0x1_0000, 0x100, b3, b2);
  }

  /** A signed integer, through its two's complement. */
  function LeInt(i: int32): (b: seq<byte>)
    ensures |b| == WORD_SIZE
  {
    Le32(ToUint32(i))
  }

  lemma LeIntIsComplement(i: int32)
    ensures LeInt(i) == Le32(if i < 0 then i + 0x1_0000_0000 else i)
  {
  }

  function FromLeInt(b: seq<byte>): int32
    requires |b| >= WORD_SIZE
  {
    ToInt32(FromLe32(b))
  }

  lemma LeIntRoundTrip(i: int32, rest: seq<byte>)
    ensures FromLeInt(LeInt(i) + rest) == i
  {
    Le32RoundTrip(ToUint32(i), rest);
  }

  lemma FromLeIntRoundTrip(b: seq<byte>)
    requires |b| >= WORD_SIZE
    ensures LeInt(FromLeInt(b)) == b[..WORD_SIZE]
  {
    IntRoundTrip(FromLe32(b));
    FromLe32RoundTrip(b);
  }
}
