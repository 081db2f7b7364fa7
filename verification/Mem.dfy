/** Byte copies inside one array and between two arrays (src/platform/mem.c). */
module Mem {
  import opened Bytes

  /** `a` after moving `n` bytes from offset `src` to offset `dst`, as if through a temporary. */
  function Moved(a: seq<byte>, dst: nat, src: nat, n: nat): (r: seq<byte>)
    requires dst + n <= |a| && src + n <= |a|
    ensures |r| == |a|
  {
    Splice(a, dst, a[src..src + n])
  }

  method CopyForward(a: array<byte>, d: nat, s: nat, n: nat)
    requires d <= s && s + n <= a.Length
    modifies a
    ensures a[..] == Moved(old(a[..]), d, s, n)
  {
    for i := 0 to n
      invariant forall k :: 0 <= k < a.Length ==>
        a[k] == if d <= k < d + i then old(a[k - d + s]) else old(a[k])
    {
      a[d + i] := a[s + i];
    }
    SpliceIs(old(a[..]), d, old(a[s..s + n]), a[..]);
  }

  method CopyBackward(a: array<byte>, d: nat, s: nat, n: nat)
    requires s < d && d + n <= a.Length
    modifies a
    ensures a[..] == Moved(old(a[..]), d, s, n)
  {
    for i := n downto 0
      invariant forall k :: 0 <= k < a.Length ==>
        a[k] == if d + i <= k < d + n then old(a[k - d + s]) else old(a[k])
    {
      a[d + i] := a[s + i];
    }
    SpliceIs(old(a[..]), d, old(a[s..s + n]), a[..]);
  }

  /** `ws_memmove` inside one array: the direction is picked so that an overlap is harmless. */
  method MemMove(a: array<byte>, dst: nat, src: nat, n: nat)
    requires dst + n <= a.Length && src + n <= a.Length
    modifies a
    ensures a[..] == Moved(old(a[..]), dst, src, n)
  {
    if dst <= src {
      CopyForward(a, dst, src, n);
    } else {
      CopyBackward(a, dst, src, n);
    }
  }

  /** `ws_memcpy` between two arrays; the debug build traps when the ranges overlap. */
  method MemCopy(dst: array<byte>, d: nat, src: array<byte>, s: nat, n: nat)
    requires dst != src
    requires d + n <= dst.Length && s + n <= src.Length
    modifies dst
    ensures dst[..] == Splice(old(dst[..]), d, src[s..s + n])
  {
    for i := 0 to n
      invariant forall k :: 0 <= k < dst.Length ==>
        dst[k] == if d <= k < d + i then src[k - d + s] else old(dst[k])
    {
      dst[d + i] := src[s + i];
    }
    SpliceIs(old(dst[..]), d, src[s..s + n], dst[..]);
  }
}
