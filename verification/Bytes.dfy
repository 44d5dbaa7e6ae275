/** Byte strings, 16-byte blocks and the exclusive-or the ciphers work with. */
module Bytes {
  type byte = bv8

  type Block = b: seq<byte> | |b| == 16 witness Zeros(16)

  function Zeros(n: nat): (r: seq<byte>)
    ensures |r| == n
  {
    seq(n, _ => 0)
  }

  /** Exclusive-or of two equally long byte strings. */
  function Xor(a: seq<byte>, b: seq<byte>): (r: seq<byte>)
    requires |a| == |b|
    ensures |r| == |a|
    ensures forall i :: 0 <= i < |a| ==> r[i] == a[i] ^ b[i]
  {
    seq(|a|, i requires 0 <= i < |a| => a[i] ^ b[i])
  }

  lemma XorCancels(a: seq<byte>, b: seq<byte>)
    requires |a| == |b|
    ensures Xor(Xor(a, b), b) == a
  {
    forall i | 0 <= i < |a| ensures Xor(Xor(a, b), b)[i] == a[i] {
      assert (a[i] ^ b[i]) ^ b[i] == a[i];
    }
  }

  lemma NextSlice(s: seq<byte>, i: nat, n: nat)
    requires i + n <= |s|
    ensures s[..i] + s[i..i + n] == s[..i + n] && s[i..][..n] == s[i..i + n]
  {
  }

  lemma MiddleSlice(a: seq<byte>, b: seq<byte>, i: nat, n: nat)
    requires i + n <= |b|
    ensures (a + b)[|a| + i..|a| + i + n] == b[i..i + n]
  {
  }

  lemma AppendAssociates(a: seq<byte>, b: seq<byte>, c: seq<byte>)
    ensures a + b + c == a + (b + c)
  {
  }

  /** memcpy into a buffer. */
  method CopyInto(dst: array<byte>, at: nat, src: seq<byte>)
    requires at + |src| <= dst.Length
    modifies dst
    ensures dst[..] == old(dst[..at]) + src + old(dst[at + |src|..])
  {
    for i := 0 to |src|
      invariant dst[..at] == old(dst[..at])
      invariant dst[at..at + i] == src[..i]
      invariant dst[at + i..] == old(dst[at + i..])
    {
      dst[at + i] := src[i];
    }
    assert dst[..] == dst[..at] + dst[at..at + |src|] + dst[at + |src|..];
  }

  /** The buffer s with x written at the given place. */
  function Place(s: seq<byte>, at: nat, x: seq<byte>): (r: seq<byte>)
    requires at + |x| <= |s|
    ensures |r| == |s|
  {
    s[..at] + x + s[at + |x|..]
  }

  method Write(dst: array<byte>, at: nat, x: seq<byte>)
    requires at + |x| <= dst.Length
    modifies dst
    ensures dst[..] == Place(old(dst[..]), at, x)
  {
    CopyInto(dst, at, x);
    assert old(dst[..at]) == old(dst[..])[..at] && old(dst[at + |x|..]) == old(dst[..])[at + |x|..];
  }

  /** Exclusive-or into a buffer. */
  method XorInto(dst: array<byte>, at: nat, src: seq<byte>)
    requires at + |src| <= dst.Length
    modifies dst
    ensures dst[..at] == old(dst[..at]) && dst[at + |src|..] == old(dst[at + |src|..])
    ensures forall i :: 0 <= i < |src| ==> dst[at + i] == old(dst[at + i]) ^ src[i]
  {
    for i := 0 to |src|
      invariant dst[..at] == old(dst[..at])
      invariant forall j :: 0 <= j < i ==> dst[at + j] == old(dst[at + j]) ^ src[j]
      invariant dst[at + i..] == old(dst[at + i..])
    {
      assert dst[at + i..][0] == old(dst[at + i..])[0];
      dst[at + i] := dst[at + i] ^ src[i];
    }
  }

  /** The chunks a message is handed over in, put together. */
  function Join(chunks: seq<seq<byte>>): seq<byte> {
    if chunks == [] then [] else Join(chunks[..|chunks| - 1]) + chunks[|chunks| - 1]
  }

  /** Cuts data at the given lengths; whatever is left goes last. */
  method Cut(data: seq<byte>, sizes: seq<nat>) returns (chunks: seq<seq<byte>>, last: seq<byte>)
    ensures Join(chunks) + last == data
  {
    chunks, last := [], data;
    for i := 0 to |sizes|
      invariant Join(chunks) + last == data
    {
      var n := if sizes[i] < |last| then sizes[i] else |last|;
      assert (chunks + [last[..n]])[..|chunks|] == chunks;
      chunks, last := chunks + [last[..n]], last[n..];
    }
  }
}
