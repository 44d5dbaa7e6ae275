/** The modes of NIST SP 800-38A over any block cipher, on whole byte strings. */
module BlockModes {
  import opened Arithmetic
  import opened Bytes
  import opened BigEndian

  ghost predicate Inverse(enc: Block -> Block, dec: Block -> Block) {
    forall b: Block :: dec(enc(b)) == b
  }

  predicate WholeBlocks(s: seq<byte>) {
    |s| % 16 == 0
  }

  /** ECB, section 6.1. */
  function Ecb(f: Block -> Block, data: seq<byte>): (r: seq<byte>)
    requires WholeBlocks(data)
    ensures |r| == |data|
    decreases |data|
  {
    if data == [] then [] else f(data[..16]) + Ecb(f, data[16..])
  }

  /** CBC encryption, section 6.2. */
  function CbcEncrypt(enc: Block -> Block, iv: Block, data: seq<byte>): (r: seq<byte>)
    requires WholeBlocks(data)
    ensures |r| == |data|
    decreases |data|
  {
    if data == [] then [] else
    var c := enc(Xor(data[..16], iv));
    c + CbcEncrypt(enc, c, data[16..])
  }

  /** CBC decryption, section 6.2. */
  function CbcDecrypt(dec: Block -> Block, iv: Block, data: seq<byte>): (r: seq<byte>)
    requires WholeBlocks(data)
    ensures |r| == |data|
    decreases |data|
  {
    if data == [] then [] else
    Xor(dec(data[..16]), iv) + CbcDecrypt(dec, data[..16], data[16..])
  }

  /** The chaining value after ciphertext c. */
  function Chain(iv: Block, c: seq<byte>): Block
    requires WholeBlocks(c)
  {
    if c == [] then iv else c[|c| - 16..]
  }

  /** CTR, section 6.5, with the counter stepping by one modulo 2^128. */
  function Ctr(enc: Block -> Block, ctr: Block, data: seq<byte>): (r: seq<byte>)
    requires WholeBlocks(data)
    ensures |r| == |data|
    decreases |data|
  {
    if data == [] then [] else Xor(data[..16], enc(ctr)) + Ctr(enc, Bump(ctr), data[16..])
  }

  function BumpN(n: nat, ctr: Block): Block {
    if n == 0 then ctr else BumpN(n - 1, Bump(ctr))
  }

  // ----- Decryption undoes encryption

  lemma {:induction false} EcbInverse(enc: Block -> Block, dec: Block -> Block, data: seq<byte>)
    requires WholeBlocks(data) && Inverse(enc, dec)
    ensures Ecb(dec, Ecb(enc, data)) == data
    decreases |data|
  {
    if data != [] {
      var c := Ecb(enc, data);
      assert c[..16] == enc(data[..16]) && c[16..] == Ecb(enc, data[16..]);
      EcbInverse(enc, dec, data[16..]);
    }
  }

  lemma {:induction false} CbcInverse(enc: Block -> Block, dec: Block -> Block, iv: Block, data: seq<byte>)
    requires WholeBlocks(data) && Inverse(enc, dec)
    ensures CbcDecrypt(dec, iv, CbcEncrypt(enc, iv, data)) == data
    decreases |data|
  {
    if data != [] {
      var b: Block := Xor(data[..16], iv);
      var c := CbcEncrypt(enc, iv, data);
      assert c[..16] == enc(b) && c[16..] == CbcEncrypt(enc, enc(b), data[16..]);
      CbcInverse(enc, dec, enc(b), data[16..]);
      assert dec(enc(b)) == b;
      XorCancels(data[..16], iv);
    }
  }

  lemma {:induction false} CtrInverse(enc: Block -> Block, ctr: Block, data: seq<byte>)
    requires WholeBlocks(data)
    ensures Ctr(enc, ctr, Ctr(enc, ctr, data)) == data
    decreases |data|
  {
    if data != [] {
      var c := Ctr(enc, ctr, data);
      assert c[..16] == Xor(data[..16], enc(ctr)) && c[16..] == Ctr(enc, Bump(ctr), data[16..]);
      XorCancels(data[..16], enc(ctr));
      CtrInverse(enc, Bump(ctr), data[16..]);
    }
  }

  // ----- A message may be handed over in pieces

  lemma BlocksAppend(a: seq<byte>, b: seq<byte>)
    requires WholeBlocks(a) && WholeBlocks(b)
    ensures WholeBlocks(a + b)
    ensures a != [] ==> |a| >= 16 && (a + b)[..16] == a[..16] && (a + b)[16..] == a[16..] + b
    ensures a == [] ==> a + b == b
  {
  }

  lemma BlockCount(a: seq<byte>)
    requires |a| >= 16
    ensures |a[16..]| / 16 == |a| / 16 - 1
  {
  }

  lemma SameLengthBlocks(a: seq<byte>)
    requires WholeBlocks(a)
    ensures forall r: seq<byte> :: |r| == |a| ==> WholeBlocks(r)
  {
  }

  lemma {:induction false} EcbAppend(f: Block -> Block, a: seq<byte>, b: seq<byte>)
    requires WholeBlocks(a) && WholeBlocks(b) && WholeBlocks(a + b)
    ensures Ecb(f, a + b) == Ecb(f, a) + Ecb(f, b)
    decreases |a|
  {
    hide WholeBlocks;
    BlocksAppend(a, b);
    if a != [] {
      TailBlocks(a, b);
      EcbAppend(f, a[16..], b);
    }
  }

  lemma TailBlocks(a: seq<byte>, b: seq<byte>)
    requires WholeBlocks(a) && WholeBlocks(b) && a != []
    ensures |a| >= 16 && WholeBlocks(a[16..]) && WholeBlocks(a[16..] + b)
  {
  }

  lemma {:induction false} CbcEncryptAppend(enc: Block -> Block, iv: Block, a: seq<byte>, b: seq<byte>)
    requires WholeBlocks(a) && WholeBlocks(b) && WholeBlocks(a + b)
    ensures WholeBlocks(CbcEncrypt(enc, iv, a))
    ensures CbcEncrypt(enc, iv, a + b) ==
            CbcEncrypt(enc, iv, a) + CbcEncrypt(enc, Chain(iv, CbcEncrypt(enc, iv, a)), b)
    decreases |a|
  {
    hide WholeBlocks, Xor, Bump;
    SameLengthBlocks(a);
    BlocksAppend(a, b);
    if a != [] {
      TailBlocks(a, b);
      var c := enc(Xor(a[..16], iv));
      CbcEncryptAppend(enc, c, a[16..], b);
      ChainCons(iv, c, CbcEncrypt(enc, c, a[16..]));
      AppendAssociates(c, CbcEncrypt(enc, c, a[16..]), CbcEncrypt(enc, Chain(iv, CbcEncrypt(enc, iv, a)), b));
    }
  }

  lemma DropFront(a: seq<byte>, b: seq<byte>, n: nat)
    requires n <= |b|
    ensures (a + b)[|a| + n..] == b[n..]
  {
  }

  lemma ChainCons(iv: Block, c: Block, rest: seq<byte>)
    requires WholeBlocks(rest)
    ensures WholeBlocks(c + rest) && Chain(iv, c + rest) == Chain(c, rest)
  {
    if rest == [] {
      assert c + rest == c;
    } else {
      DropFront(c, rest, |rest| - 16);
    }
  }

  lemma ChainTwice(iv: Block, a: seq<byte>, b: seq<byte>)
    requires WholeBlocks(a) && WholeBlocks(b)
    ensures WholeBlocks(a + b) && Chain(iv, a + b) == Chain(Chain(iv, a), b)
  {
    if b == [] {
      assert a + b == a;
    } else {
      assert (a + b)[|a + b| - 16..] == b[|b| - 16..];
    }
  }

  lemma CbcOne(f: Block -> Block, iv: Block, b: Block)
    ensures WholeBlocks(b) && CbcEncrypt(f, iv, b) == f(Xor(b, iv)) && CbcDecrypt(f, iv, b) == Xor(f(b), iv)
  {
    assert b[..16] == b && b[16..] == [];
  }

  lemma CbcNone(f: Block -> Block, iv: Block)
    ensures WholeBlocks([]) && CbcEncrypt(f, iv, []) == [] && CbcDecrypt(f, iv, []) == [] && Chain(iv, []) == iv
  {
  }

  lemma ChainAppend(iv: Block, a: seq<byte>, b: Block)
    requires WholeBlocks(a)
    ensures WholeBlocks(a + b) && Chain(iv, a + b) == b
  {
  }

  lemma {:induction false} CbcDecryptAppend(dec: Block -> Block, iv: Block, a: seq<byte>, b: seq<byte>)
    requires WholeBlocks(a) && WholeBlocks(b) && WholeBlocks(a + b)
    ensures CbcDecrypt(dec, iv, a + b) == CbcDecrypt(dec, iv, a) + CbcDecrypt(dec, Chain(iv, a), b)
    decreases |a|
  {
    hide WholeBlocks, Xor, Bump;
    SameLengthBlocks(a);
    BlocksAppend(a, b);
    if a != [] {
      TailBlocks(a, b);
      CbcDecryptAppend(dec, a[..16], a[16..], b);
      ChainCons(iv, a[..16], a[16..]);
      assert a[..16] + a[16..] == a;
    }
  }

  lemma CtrCons(enc: Block -> Block, ctr: Block, h: Block, rest: seq<byte>)
    requires WholeBlocks(rest)
    ensures WholeBlocks(h + rest) && Ctr(enc, ctr, h + rest) == Xor(h, enc(ctr)) + Ctr(enc, Bump(ctr), rest)
  {
    hide Xor, Bump;
    assert (h + rest)[..16] == h && (h + rest)[16..] == rest;
  }

  lemma {:induction false} CtrAppend(enc: Block -> Block, ctr: Block, a: seq<byte>, b: seq<byte>)
    requires WholeBlocks(a) && WholeBlocks(b) && WholeBlocks(a + b)
    ensures Ctr(enc, ctr, a + b) == Ctr(enc, ctr, a) + Ctr(enc, BumpN(|a| / 16, ctr), b)
    decreases |a|
  {
    hide WholeBlocks, Xor, Bump, Ctr;
    if a == [] {
      CtrNone(enc, ctr);
      assert a + b == b;
    } else {
      TailBlocks(a, b);
      var h: Block, rest := a[..16], a[16..];
      assert h + rest == a && h + (rest + b) == a + b;
      CtrCons(enc, ctr, h, rest);
      CtrCons(enc, ctr, h, rest + b);
      CtrAppend(enc, Bump(ctr), rest, b);
      BlockCount(a);
      AppendAssociates(Xor(h, enc(ctr)), Ctr(enc, Bump(ctr), rest), Ctr(enc, BumpN(|a| / 16, ctr), b));
    }
  }

  lemma CtrNone(enc: Block -> Block, ctr: Block)
    ensures WholeBlocks([]) && Ctr(enc, ctr, []) == []
  {
  }

  // ----- Blocks of a message

  function BlockAt(s: seq<byte>, i: nat): Block
    requires 16 * i + 16 <= |s|
  {
    s[16 * i..16 * i + 16]
  }

  /** The first n blocks. */
  function Front(s: seq<byte>, n: nat): seq<byte>
    requires 16 * n <= |s|
  {
    s[..16 * n]
  }

  lemma FrontFacts(s: seq<byte>, n: nat)
    requires 16 * n <= |s|
    ensures WholeBlocks(Front(s, n)) && |Front(s, n)| / 16 == n && Front(s, 0) == []
    ensures 16 * n + 16 <= |s| ==> Front(s, n + 1) == Front(s, n) + BlockAt(s, n) && WholeBlocks(BlockAt(s, n))
    ensures 16 * n == |s| ==> Front(s, n) == s
  {
  }

  lemma BlockTotal(s: seq<byte>)
    requires WholeBlocks(s)
    ensures 16 * (|s| / 16) == |s|
  {
  }

  // ----- The modes block by block

  ghost predicate EcbOf(f: Block -> Block, data: seq<byte>, r: seq<byte>) {
    |r| == |data| && forall i :: 0 <= i < |data| / 16 ==> BlockAt(r, i) == f(BlockAt(data, i))
  }

  /** Block i - 1 of c, or the initial value. */
  function Before(iv: Block, c: seq<byte>, i: nat): Block
    requires 16 * i <= |c|
  {
    if i == 0 then iv else c[16 * i - 16..16 * i]
  }

  /** Each ciphertext block encrypts the sum of its plaintext block and the ciphertext block before it. */
  ghost predicate CbcOf(enc: Block -> Block, iv: Block, p: seq<byte>, c: seq<byte>) {
    |c| == |p| && forall i :: 0 <= i < |p| / 16 ==> BlockAt(c, i) == enc(Xor(BlockAt(p, i), Before(iv, c, i)))
  }

  ghost predicate CbcUndone(dec: Block -> Block, iv: Block, c: seq<byte>, p: seq<byte>) {
    |p| == |c| && forall i :: 0 <= i < |c| / 16 ==> BlockAt(p, i) == Xor(dec(BlockAt(c, i)), Before(iv, c, i))
  }

  /** Block i is added to the encryption of the counter plus i. */
  ghost predicate CtrOf(enc: Block -> Block, ctr: Block, data: seq<byte>, r: seq<byte>) {
    |r| == |data| && forall i :: 0 <= i < |data| / 16 ==> BlockAt(r, i) == Xor(BlockAt(data, i), enc(BumpN(i, ctr)))
  }

  lemma BumpRem(ctr: Block)
    ensures Value(Bump(ctr)) == Rem(Value(ctr) + 1, Pow256(16)) && Value(ctr) == Rem(Value(ctr), Pow256(16))
  {
    hide Bump, Value, Pow256;
    BumpIsPlusOne(ctr);
    ValueBound(ctr);
    SmallMod(Value(ctr), Pow256(16));
  }

  lemma {:induction false} BumpNRem(n: nat, ctr: Block)
    ensures Value(BumpN(n, ctr)) == Rem(Value(ctr) + n, Pow256(16))
  {
    hide Bump, Value, Pow256, Rem;
    BumpRem(ctr);
    if n > 0 {
      BumpNRem(n - 1, Bump(ctr));
      ModAdd(Value(ctr) + 1, n - 1, Pow256(16));
    }
  }

  /** The counter after n steps, as a number. */
  lemma BumpNValue(n: nat, ctr: Block)
    ensures Value(BumpN(n, ctr)) == (Value(ctr) + n) % Pow256(16)
  {
    hide BumpN, Value, Pow256;
    BumpNRem(n, ctr);
  }

  lemma NextBlocks(iv: Block, first: Block, rest: seq<byte>, i: nat)
    requires 16 * i + 16 <= |rest|
    ensures BlockAt(first + rest, i + 1) == BlockAt(rest, i) && BlockAt(first + rest, 0) == first
    ensures Before(iv, first + rest, i + 1) == Before(first, rest, i)
  {
    var s := first + rest;
    MiddleSlice(first, rest, 16 * i, 16);
    assert s[..16] == first;
    if i > 0 {
      MiddleSlice(first, rest, 16 * i - 16, 16);
    }
  }

  lemma {:induction false} EcbBlock(f: Block -> Block, data: seq<byte>, i: nat)
    requires WholeBlocks(data) && i < |data| / 16
    ensures BlockAt(Ecb(f, data), i) == f(BlockAt(data, i))
    decreases i
  {
    var first: Block, rest := data[..16], data[16..];
    assert first + rest == data;
    if i > 0 {
      EcbBlock(f, rest, i - 1);
      NextBlocks(first, first, rest, i - 1);
      NextBlocks(first, f(first), Ecb(f, rest), i - 1);
    }
  }

  lemma {:induction false} CbcBlock(enc: Block -> Block, iv: Block, data: seq<byte>, i: nat)
    requires WholeBlocks(data) && i < |data| / 16
    ensures var c := CbcEncrypt(enc, iv, data);
            BlockAt(c, i) == enc(Xor(BlockAt(data, i), Before(iv, c, i)))
    decreases i
  {
    hide Xor;
    var first: Block, rest := data[..16], data[16..];
    assert first + rest == data;
    if i > 0 {
      var c := enc(Xor(first, iv));
      CbcBlock(enc, c, rest, i - 1);
      NextBlocks(iv, first, rest, i - 1);
      NextBlocks(iv, c, CbcEncrypt(enc, c, rest), i - 1);
    }
  }

  lemma {:induction false} CbcPlainBlock(dec: Block -> Block, iv: Block, data: seq<byte>, i: nat)
    requires WholeBlocks(data) && i < |data| / 16
    ensures BlockAt(CbcDecrypt(dec, iv, data), i) == Xor(dec(BlockAt(data, i)), Before(iv, data, i))
    decreases i
  {
    hide Xor;
    var first: Block, rest := data[..16], data[16..];
    assert first + rest == data;
    if i > 0 {
      CbcPlainBlock(dec, first, rest, i - 1);
      NextBlocks(iv, first, rest, i - 1);
      NextBlocks(iv, Xor(dec(first), iv), CbcDecrypt(dec, first, rest), i - 1);
    }
  }

  lemma {:induction false} CtrBlock(enc: Block -> Block, ctr: Block, data: seq<byte>, i: nat)
    requires WholeBlocks(data) && i < |data| / 16
    ensures BlockAt(Ctr(enc, ctr, data), i) == Xor(BlockAt(data, i), enc(BumpN(i, ctr)))
    decreases i
  {
    hide Xor, Bump;
    var first: Block, rest := data[..16], data[16..];
    assert first + rest == data;
    if i > 0 {
      CtrBlock(enc, Bump(ctr), rest, i - 1);
      NextBlocks(ctr, first, rest, i - 1);
      NextBlocks(ctr, Xor(first, enc(ctr)), Ctr(enc, Bump(ctr), rest), i - 1);
    }
  }

  /** Every mode on whole messages is what its section says of each block. */
  lemma ModesByBlock(f: Block -> Block, iv: Block, data: seq<byte>)
    requires WholeBlocks(data)
    ensures EcbOf(f, data, Ecb(f, data)) && CbcOf(f, iv, data, CbcEncrypt(f, iv, data))
    ensures CbcUndone(f, iv, data, CbcDecrypt(f, iv, data)) && CtrOf(f, iv, data, Ctr(f, iv, data))
  {
    hide Ecb, CbcEncrypt, CbcDecrypt, Ctr, Xor, BumpN, BlockAt, Before;
    forall i | 0 <= i < |data| / 16 ensures BlockAt(Ecb(f, data), i) == f(BlockAt(data, i)) {
      EcbBlock(f, data, i);
    }
    var c := CbcEncrypt(f, iv, data);
    forall i | 0 <= i < |data| / 16 ensures BlockAt(c, i) == f(Xor(BlockAt(data, i), Before(iv, c, i))) {
      CbcBlock(f, iv, data, i);
    }
    forall i | 0 <= i < |data| / 16
      ensures BlockAt(CbcDecrypt(f, iv, data), i) == Xor(f(BlockAt(data, i)), Before(iv, data, i))
    {
      CbcPlainBlock(f, iv, data, i);
    }
    forall i | 0 <= i < |data| / 16
      ensures BlockAt(Ctr(f, iv, data), i) == Xor(BlockAt(data, i), f(BumpN(i, iv)))
    {
      CtrBlock(f, iv, data, i);
    }
  }

  // ----- Messages handed over in chunks of whole blocks

  ghost predicate AllWhole(chunks: seq<seq<byte>>) {
    forall i :: 0 <= i < |chunks| ==> WholeBlocks(chunks[i])
  }

  lemma NoBlocks()
    ensures WholeBlocks([])
  {
  }

  lemma JoinNext(chunks: seq<seq<byte>>, c: seq<byte>)
    ensures Join(chunks + [c]) == Join(chunks) + c && Join([]) == []
  {
    assert (chunks + [c])[..|chunks|] == chunks;
  }

  lemma CutWhole(s: seq<byte>, count: nat, n: nat)
    requires WholeBlocks(s) && n == if 16 * count < |s| then 16 * count else |s|
    ensures WholeBlocks(s[..n]) && WholeBlocks(s[n..])
  {
  }

  /** Cuts whole blocks into chunks of the given numbers of blocks. */
  method CutBlocks(data: seq<byte>, counts: seq<nat>) returns (chunks: seq<seq<byte>>)
    requires WholeBlocks(data)
    ensures AllWhole(chunks) && Join(chunks) == data
  {
    hide Join, WholeBlocks;
    chunks := [];
    var rest := data;
    assert Join([]) + rest == data by { JoinNext([], []); }
    for i := 0 to |counts|
      invariant AllWhole(chunks) && WholeBlocks(rest) && Join(chunks) + rest == data
    {
      var n := if 16 * counts[i] < |rest| then 16 * counts[i] else |rest|;
      CutWhole(rest, counts[i], n);
      JoinNext(chunks, rest[..n]);
      assert rest[..n] + rest[n..] == rest;
      chunks, rest := chunks + [rest[..n]], rest[n..];
    }
    JoinNext(chunks, rest);
    chunks := chunks + [rest];
  }
}
