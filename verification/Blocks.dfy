/** Bytes, 512-byte blocks, the option type and byte-buffer operations shared by the whole project. */
module Blocks {
  type byte = x: int | 0 <= x < 256

  const BLOCK_SIZE := 512

  type Block = b: seq<byte> | |b| == BLOCK_SIZE witness seq(BLOCK_SIZE, _ => 0)

  const ZERO_BLOCK: Block := Filled(0)

  function Filled(x: byte): Block {
    seq(BLOCK_SIZE, _ => x)
  }

  datatype Option<+T> = None | Some(value: T)

  function Min(a: nat, b: nat): nat {
    if a < b then a else b
  }

  function Max(a: nat, b: nat): nat {
    if a < b then b else a
  }

  /** s with the bytes b at offset o. */
  function Splice(s: seq<byte>, o: nat, b: seq<byte>): (r: seq<byte>)
    requires o + |b| <= |s|
    ensures |r| == |s|
  {
    s[..o] + b + s[o + |b|..]
  }

  /** Read16, little-endian. */
  function WordAt(s: seq<byte>, o: nat): nat
    requires o + 2 <= |s|
  {
    s[o] as int + 256 * s[o + 1] as int
  }
}
