/** Copying into a byte buffer in place, as the encoders of the original do. */
module Buffers {
  import opened Bytes

  /** `buf[offset..offset + src.len()].copy_from_slice(src)`, returning the offset after the copy. */
  method CopyFromSlice(buf: array<byte>, offset: nat, src: seq<byte>) returns (next: nat)
    requires offset + |src| <= buf.Length
    modifies buf
    ensures next == offset + |src|
    ensures buf[..offset] == old(buf[..offset])
    ensures buf[offset..next] == src
    ensures buf[next..] == old(buf[next..])
  {
    for i := 0 to |src|
      invariant buf[..offset] == old(buf[..offset])
      invariant buf[offset..offset + i] == src[..i]
      invariant buf[offset + i..] == old(buf[offset + i..])
    {
      buf[offset + i] := src[i];
    }
    assert src[..|src|] == src;
    next := offset + |src|;
  }

  /** The same copy, seen as an extension of what is already written from `start` on. */
  method AppendSlice(buf: array<byte>, ghost start: nat, offset: nat, src: seq<byte>) returns (next: nat)
    requires start <= offset && offset + |src| <= buf.Length
    modifies buf
    ensures next == offset + |src|
    ensures buf[start..next] == old(buf[start..offset]) + src
  {
    next := CopyFromSlice(buf, offset, src);
    assert buf[start..offset] == buf[..offset][start..];
    assert buf[start..next] == buf[start..offset] + buf[offset..next];
  }
}
