/** Octets and the big-endian integer fields written by Node's Buffer.writeUInt16BE and writeUInt32BE. */
module Bytes {

  newtype Byte = x: int | 0 <= x < 256

  const UINT16_LIMIT: nat := 0x1_0000
  const UINT32_MAX: nat := 0xFFFF_FFFF

  /** The value a 2-byte big-endian field holds. */
  function Be16Value(s: seq<Byte>): nat
    requires |s| == 2
  {
    s[0] as nat * 256 + s[1] as nat
  }

  /** The value a 4-byte big-endian field holds. */
  function Be32Value(s: seq<Byte>): nat
    requires |s| == 4
  {
    Be16Value(s[..2]) * UINT16_LIMIT + Be16Value(s[2..])
  }

  /** `writeUInt16BE(n)`: the two bytes written for a value that fits in 16 bits. */
  function Be16(n: nat): (s: seq<Byte>)
    requires n < UINT16_LIMIT
    ensures |s| == 2 && Be16Value(s) == n
  {
    [(n / 256) as Byte, (n % 256) as Byte]
  }

  /** `writeUInt32BE(n)`: the four bytes written for a value that fits in 32 bits. */
  function Be32(n: nat): (s: seq<Byte>)
    requires n <= UINT32_MAX
    ensures |s| == 4 && Be32Value(s) == n
  {
    var s := Be16(n / UINT16_LIMIT) + Be16(n % UINT16_LIMIT);
    assert s[..2] == Be16(n / UINT16_LIMIT) && s[2..] == Be16(n % UINT16_LIMIT);
    s
  }

  /** The encodings are also onto: every 2-byte field is the encoding of its own value. */
  lemma Be16OfValue(s: seq<Byte>)
    requires |s| == 2
    ensures Be16Value(s) < UINT16_LIMIT && Be16(Be16Value(s)) == s
  {
    var n := Be16Value(s);
    assert n / 256 == s[0] as nat && n % 256 == s[1] as nat;
  }

  /** Every 4-byte field is the encoding of its own value, so a 32-bit field is decoded without loss. */
  lemma Be32OfValue(s: seq<Byte>)
    requires |s| == 4
    ensures Be32Value(s) <= UINT32_MAX && Be32(Be32Value(s)) == s
  {
    var hi, lo := Be16Value(s[..2]), Be16Value(s[2..]);
    Be16OfValue(s[..2]);
    Be16OfValue(s[2..]);
    var n := hi * UINT16_LIMIT + lo;
    assert n / UINT16_LIMIT == hi && n % UINT16_LIMIT == lo;
    assert s == s[..2] + s[2..];
  }

  /** A slice ends with its last element. */
  lemma SliceSnoc(s: seq<Byte>, lo: nat, hi: nat)
    requires lo < hi <= |s|
    ensures s[lo..hi] == s[lo..hi - 1] + [s[hi - 1]]
  {
  }

  /** A slice of one element. */
  lemma SliceSingle(s: seq<Byte>, i: nat)
    requires i < |s|
    ensures s[i..i + 1] == [s[i]]
  {
  }

  /** Dropping the head of a sequence commutes with appending at its end. */
  lemma TailOfSnoc(s: seq<Byte>, b: Byte)
    requires |s| > 0
    ensures (s + [b])[1..] == s[1..] + [b]
  {
  }
}
