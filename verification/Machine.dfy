/**
 Fixed-width unsigned arithmetic and the little-endian layout in which the storage
 engine copies a 32-bit integer into a byte buffer.
 */
module Machine {

  const TWO_32: int := 0x1_0000_0000

  type uint32 = x: int | 0 <= x < 0x1_0000_0000
  type byte = x: int | 0 <= x < 256

  /** Unsigned 32-bit addition: wraps silently. */
  function Add32(a: uint32, b: uint32): uint32 {
    (a + b) % TWO_32
  }

  /** Unsigned 32-bit multiplication: wraps silently. */
  function Mul32(a: uint32, b: uint32): uint32 {
    (a * b) % TWO_32
  }

  /** The cast of a length to 32 bits. */
  function Cast32(n: nat): uint32 {
    n % TWO_32
  }

  /** The low `n` bytes of an integer, least significant first. */
  function LeBytes(x: nat, n: nat): (bytes: seq<byte>)
    ensures |bytes| == n
  {
    if n == 0 then [] else [x % 256] + LeBytes(x / 256, n - 1)
  }

  function FromLeBytes(bytes: seq<byte>): nat {
    if bytes == [] then 0 else bytes[0] as int + 256 * FromLeBytes(bytes[1..])
  }

  function Power256(n: nat): nat {
    if n == 0 then 1 else 256 * Power256(n - 1)
  }

  lemma {:induction false} LeBytesRoundTrip(x: nat, n: nat)
    requires x < Power256(n)
    ensures FromLeBytes(LeBytes(x, n)) == x
  {
    if n > 0 {
      LeBytesRoundTrip(x / 256, n - 1);
    }
  }

  lemma LowByte(low: byte, high: nat)
    ensures (low + 256 * high) % 256 == low && (low + 256 * high) / 256 == high
  {
  }

  lemma {:induction false} FromLeBytesRoundTrip(bytes: seq<byte>)
    ensures FromLeBytes(bytes) < Power256(|bytes|)
    ensures LeBytes(FromLeBytes(bytes), |bytes|) == bytes
  {
    if bytes != [] {
      var high := FromLeBytes(bytes[1..]);
      FromLeBytesRoundTrip(bytes[1..]);
      LowByte(bytes[0], high);
      calc {
        LeBytes(FromLeBytes(bytes), |bytes|);
        [bytes[0]] + LeBytes(high, |bytes| - 1);
        [bytes[0]] + bytes[1..];
        bytes;
      }
    }
  }

  /** The four bytes that `memcpy` of a 32-bit integer produces. */
  function Le32(x: uint32): (bytes: seq<byte>)
    ensures |bytes| == 4
  {
    LeBytes(x, 4)
  }

  function FromLe32(bytes: seq<byte>): uint32
    requires |bytes| == 4
  {
    FromLeBytesRoundTrip(bytes);
    FromLeBytes(bytes)
  }

  lemma Le32RoundTrip(x: uint32)
    ensures FromLe32(Le32(x)) == x
  {
    LeBytesRoundTrip(x, 4);
  }

  /** The first byte counts ones, the next 256s, and so on. */
  lemma LittleEndian(a: byte, b: byte, c: byte, d: byte)
    ensures FromLe32([a, b, c, d]) as int == a + 256 * b + 65536 * c + 16777216 * d
  {
    assert [a, b, c, d][1..] == [b, c, d] && [b, c, d][1..] == [c, d] && [c, d][1..] == [d] && [d][1..] == [];
    assert FromLeBytes([d]) == d;
    assert FromLeBytes([c, d]) == c + 256 * d;
    assert FromLeBytes([b, c, d]) == b + 256 * c + 65536 * d;
  }

  lemma FromLe32RoundTrip(bytes: seq<byte>)
    requires |bytes| == 4
    ensures Le32(FromLe32(bytes)) == bytes
  {
    FromLeBytesRoundTrip(bytes);
  }
}
