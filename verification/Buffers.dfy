/** Byte buffers written in place. */
module Buffers {
  import opened Bits

  /** The buffer with src written at `at`. */
  function Spliced(b: seq<byte>, at: nat, src: seq<byte>): (r: seq<byte>)
    requires at + |src| <= |b|
    ensures |r| == |b|
  {
    b[..at] + src + b[at + |src|..]
  }

  method Memcpy(dst: array<byte>, at: nat, src: seq<byte>)
    requires at + |src| <= dst.Length
    modifies dst
    ensures dst[..] == Spliced(old(dst[..]), at, src)
  {
    ghost var was := dst[..];
    for i := 0 to |src|
      invariant dst[..] == Spliced(was, at, src[..i])
    {
      dst[at + i] := src[i];
    }
    assert src[..|src|] == src;
  }
}
