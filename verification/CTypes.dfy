/** The C scalar types the services share: 32-bit integers with their
    conversions, and NUL-terminated character buffers. */
module CTypes {

  type uint32 = x: int | 0 <= x < 0x1_0000_0000

  type int32 = x: int | -0x8000_0000 <= x < 0x8000_0000

  /** The greatest `int`. */
  const INT_MAX: int := 0x7FFF_FFFF

  /** Conversion of a `uint32_t` to `int` (two's complement). */
  function ToInt32(u: uint32): (i: int32)
    ensures i == u || i == u - 0x1_0000_0000
  {
    if u < 0x8000_0000 then u else u - 0x1_0000_0000
  }

  /** Conversion of any integer to `uint32_t`, which wraps modulo 2^32. */
  function ToUint32(i: int): (u: uint32)
    ensures (i - u) % 0x1_0000_0000 == 0
  {
    i % 0x1_0000_0000
  }

  lemma IntRoundTrip(u: uint32)
    ensures ToUint32(ToInt32(u)) == u
  {
  }

  /** Quotient and remainder are unique. */
  lemma QuotientIs(n: nat, d: nat, q: nat, r: nat)
    requires r < d && n == q * d + r
    ensures n / d == q && n % d == r
  {
    var p := n / d;
    assert p < q ==> (p + 1) * d <= q * d;
    assert q < p ==> (q + 1) * d <= p * d;
  }

  const NUL: char := '\0'

  /** The string a C function reads from a buffer: what precedes the first NUL. */
  function CString(buffer: seq<char>): (s: string)
    ensures NUL !in s
    ensures |s| <= |buffer|
  {
    if buffer == [] || buffer[0] == NUL then []
    else [buffer[0]] + CString(buffer[1..])
  }

  /** A NUL right after `n` other characters ends the string there. */
  lemma {:induction false} CStringEndsAt(buffer: seq<char>, n: nat)
    requires n < |buffer| && buffer[n] == NUL
    requires NUL !in buffer[..n]
    ensures CString(buffer) == buffer[..n]
  {
    if n == 0 {
    } else {
      assert buffer[0] == buffer[..n][0];
      assert buffer[1..][..n - 1] == buffer[..n][1..];
      CStringEndsAt(buffer[1..], n - 1);
    }
  }

  /** A string is the part of its buffer before the NUL that ends it. */
  lemma {:induction false} CStringIsPrefix(buffer: seq<char>)
    ensures CString(buffer) == buffer[..|CString(buffer)|]
    ensures |CString(buffer)| < |buffer| ==> buffer[|CString(buffer)|] == NUL
  {
    if buffer == [] || buffer[0] == NUL {
    } else {
      CStringIsPrefix(buffer[1..]);
    }
  }

  /** Reading from the middle of a string reads its rest. */
  lemma {:induction false} CStringFrom(buffer: seq<char>, start: nat)
    requires start <= |CString(buffer)|
    ensures CString(buffer[start..]) == CString(buffer)[start..]
  {
    if start == 0 {
      assert buffer[0..] == buffer;
    } else {
      CStringFrom(buffer[1..], start - 1);
      assert buffer[1..][start - 1..] == buffer[start..];
    }
  }
}
