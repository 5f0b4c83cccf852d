/**
 What every part uses: bytes, optional values, the lesser and greater of two numbers, and the sizes
 of machine words.
*/
module Basics {

  type byte = b: int | 0 <= b < 256

  datatype Option<+T> = None | Some(value: T)

  /** How many values a 32-bit word has, and where its signed values end. */
  const WORD: int := 0x1_0000_0000
  const INT32_LIMIT := 0x8000_0000

  /** A 32-bit word taken for a signed number. */
  function Signed(u: int): int
  {
    if u < INT32_LIMIT then u else u - WORD
  }

  predicate FitsInt32(x: int)
  {
    -INT32_LIMIT <= x < INT32_LIMIT
  }

  /** A sum of 32-bit numbers that must not overflow: that is undefined. */
  function Sum32(a: int, b: int): int
    requires FitsInt32(a + b)
  {
    a + b
  }

  /** What a sum or product becomes on a host that wraps around at 32 bits. */
  function Wrapped(x: int): (w: int)
    ensures FitsInt32(w)
  {
    Signed(x % WORD)
  }

  /** bytes written over data at a position, extending it where they reach past its end. */
  function Overwrite(data: seq<byte>, at: nat, bytes: seq<byte>): (r: seq<byte>)
    requires at <= |data|
    ensures at + |bytes| <= |data| ==> |r| == |data|
  {
    if at + |bytes| <= |data| then data[..at] + bytes + data[at + |bytes|..] else data[..at] + bytes
  }

  function Max(a: int, b: int): int { if a > b then a else b }

  function Min(a: int, b: int): int { if a < b then a else b }
}
