/** The block copies of the C library, on arrays. */
module Memory {
  import opened Machine
  import opened Pages

  method MemCpy(dst: array<byte>, off: nat, src: seq<byte>)
    requires off + |src| <= dst.Length
    modifies dst
    ensures dst[..] == Splice(old(dst[..]), off, src)
    ensures dst[..off + |src|] == old(dst[..off]) + src
  {
    forall i | 0 <= i < |src| {
      dst[off + i] := src[i];
    }
  }

  method MemZero(dst: array<byte>)
    modifies dst
    ensures dst[..] == Zeros(dst.Length)
  {
    forall i | 0 <= i < dst.Length {
      dst[i] := 0;
    }
  }
}
