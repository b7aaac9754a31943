/**
 C memory as the sources use it: pointers into byte buffers and the two block operations.
 */
module Memory {
  import opened ByteString

  datatype Pointer = Null | At(base: array<byte>, index: nat)

  predicate Readable(p: Pointer, n: nat) {
    p.At? && p.index + n <= p.base.Length
  }

  function Slice(p: Pointer, n: nat): (b: Bytes)
    requires Readable(p, n)
    reads p.base
    ensures |b| == n
  {
    p.base[p.index..p.index + n]
  }

  /** memmove: all reads happen before the writes, so source and target may overlap. */
  method Move(dst: array<byte>, at: nat, src: Pointer, n: nat)
    requires at + n <= dst.Length && Readable(src, n)
    modifies dst
    ensures dst[..] == old(dst[..at] + Slice(src, n) + dst[at + n..])
  {
    forall i | 0 <= i < n {
      dst[at + i] := src.base[src.index + i];
    }
  }

  /** explicit_bzero. */
  method Clear(dst: array<byte>)
    modifies dst
    ensures dst[..] == Zeros(dst.Length)
  {
    forall i | 0 <= i < dst.Length {
      dst[i] := 0;
    }
  }
}
