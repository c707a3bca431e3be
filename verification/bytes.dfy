/** Bytes, and results that may be missing. */
module Bytes {

  /** An unsigned 8-bit value. */
  type byte = x: int | 0 <= x < 256

  datatype Option<+T> = None | Some(value: T)

  /** `memcpy` of `size` bytes to an offset: the bytes before and behind stay. */
  method MemCpy(dst: array<byte>, at: nat, src: array<byte>, size: nat)
    requires dst != src && at + size <= dst.Length && size <= src.Length
    modifies dst
    ensures dst[..] == old(dst[..at]) + src[..size] + old(dst[at + size..])
  {
    for i := 0 to size
      invariant dst[..at] == old(dst[..at])
      invariant dst[at..at + i] == src[..i]
      invariant dst[at + i..] == old(dst[at + i..])
    {
      dst[at + i] := src[i];
    }
    assert dst[..] == dst[..at] + dst[at..at + size] + dst[at + size..];
  }
}
