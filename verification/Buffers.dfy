/** Writing values into byte arrays at a running position. */
module Buffers {
  import opened Wire

  method MemCpy(dst: array<byte>, at: nat, src: Bytes)
    requires at + |src| <= dst.Length
    modifies dst
    ensures dst[..at + |src|] == old(dst[..at]) + src
    ensures dst[at + |src|..] == old(dst[at + |src|..])
  {
    forall i | 0 <= i < |src| {
      dst[at + i] := src[i];
    }
  }

  /** A buffer of another size with the first `p` bytes of the old one. */
  method Grown(buf: array<byte>, p: nat, size: nat) returns (r: array<byte>)
    requires p <= buf.Length && p <= size
    ensures fresh(r) && r.Length == size && r[..p] == buf[..p]
  {
    r := new byte[size];
    forall i | 0 <= i < p {
      r[i] := buf[i];
    }
  }

  method WriteI16s(dst: array<byte>, at: nat, vs: seq<i16>) returns (p: nat)
    requires at + 2 * |vs| <= dst.Length
    modifies dst
    ensures p == at + 2 * |vs|
    ensures dst[..p] == old(dst[..at]) + PutI16s(vs)
  {
    p := at;
    for i := 0 to |vs|
      invariant p == at + 2 * i
      invariant dst[..p] == old(dst[..at]) + PutI16s(vs[..i])
    {
      MemCpy(dst, p, Wr16(ToU16(vs[i])));
      p := p + 2;
      assert vs[..i + 1][..i] == vs[..i];
    }
    assert vs[..|vs|] == vs;
  }
}
