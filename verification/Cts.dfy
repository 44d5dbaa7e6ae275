/** AES with ciphertext stealing: CBC-CS3 of the Addendum to NIST SP 800-38A, for any block cipher. */
module Cts {
  import opened Arithmetic
  import opened Bytes
  import opened BlockModes

  /** The length of the last block: 1 to 16 bytes. */
  function LastLength(n: nat): (m: nat)
    requires n > 0
    ensures 1 <= m <= 16 && m <= n && (n - m) % 16 == 0
  {
    if n % 16 == 0 then 16 else n % 16
  }

  // ----- The construction on whole messages longer than one block

  /** A message split into leading whole blocks, the last whole block and the stolen-from rest. */
  datatype Split = Split(head: seq<byte>, block: Block, rest: seq<byte>)

  function SplitMessage(data: seq<byte>): (s: Split)
    requires |data| > 16
    ensures WholeBlocks(s.head) && 1 <= |s.rest| <= 16 && s.head + s.block + s.rest == data
  {
    var m := LastLength(|data|);
    var h := |data| - m - 16;
    Split(data[..h], data[h..h + 16], data[h + 16..])
  }

  /** The last two ciphertext blocks, swapped and the last one cut to length. */
  function StealEncrypt(enc: Block -> Block, chain: Block, block: Block, rest: seq<byte>): (c: seq<byte>)
    requires 1 <= |rest| <= 16
    ensures |c| == 16 + |rest|
  {
    var x := enc(Xor(block, chain));
    enc(Xor(rest + Zeros(16 - |rest|), x)) + x[..|rest|]
  }

  function Encrypt(enc: Block -> Block, iv: Block, data: seq<byte>): (c: seq<byte>)
    requires |data| > 16
    ensures |c| == |data|
  {
    var s := SplitMessage(data);
    SameLengthBlocks(s.head);
    var c := CbcEncrypt(enc, iv, s.head);
    c + StealEncrypt(enc, Chain(iv, c), s.block, s.rest)
  }

  /** The tail stolen from the decrypted block completes the ciphertext. */
  function StealDecrypt(dec: Block -> Block, chain: Block, block: Block, rest: seq<byte>): (p: seq<byte>)
    requires 1 <= |rest| <= 16
    ensures |p| == 16 + |rest|
  {
    var d := dec(block);
    var x: Block := rest + d[|rest|..];
    Xor(dec(x), chain) + Xor(d, x)[..|rest|]
  }

  function Decrypt(dec: Block -> Block, iv: Block, data: seq<byte>): (p: seq<byte>)
    requires |data| > 16
    ensures |p| == |data|
  {
    var s := SplitMessage(data);
    CbcDecrypt(dec, iv, s.head) + StealDecrypt(dec, Chain(iv, s.head), s.block, s.rest)
  }

  lemma SplitUnique(head: seq<byte>, block: Block, rest: seq<byte>)
    requires WholeBlocks(head) && 1 <= |rest| <= 16
    ensures |head + block + rest| > 16 && SplitMessage(head + block + rest) == Split(head, block, rest)
  {
    var data := head + block + rest;
    assert LastLength(|data|) == |rest|;
  }

  lemma StealInverse(enc: Block -> Block, dec: Block -> Block, chain: Block, block: Block, rest: seq<byte>)
    requires 1 <= |rest| <= 16 && Inverse(enc, dec)
    ensures var c := StealEncrypt(enc, chain, block, rest);
            StealDecrypt(dec, chain, c[..16], c[16..]) == block + rest
  {
    var r := |rest|;
    var a := Xor(block, chain);
    var x := enc(a);
    var padded: Block := rest + Zeros(16 - r);
    var b := Xor(padded, x);
    var c := StealEncrypt(enc, chain, block, rest);
    assert c[..16] == enc(b) && c[16..] == x[..r];
    assert dec(enc(a)) == a && dec(enc(b)) == b;
    StolenTail(rest, x);
    XorCancels(block, chain);
    XorCancels(padded, x);
    assert padded[..r] == rest;
  }

  /** Decryption undoes encryption for every message longer than a block. */
  lemma DecryptEncrypt(enc: Block -> Block, dec: Block -> Block, iv: Block, data: seq<byte>)
    requires |data| > 16 && Inverse(enc, dec)
    ensures Decrypt(dec, iv, Encrypt(enc, iv, data)) == data
  {
    hide CbcEncrypt, CbcDecrypt, WholeBlocks, SplitMessage, StealEncrypt, StealDecrypt, Inverse, Chain;
    var s := SplitMessage(data);
    var c := CbcEncrypt(enc, iv, s.head);
    SameLengthBlocks(s.head);
    var t := StealEncrypt(enc, Chain(iv, c), s.block, s.rest);
    assert c + t[..16] + t[16..] == c + t;
    SplitUnique(c, t[..16], t[16..]);
    CbcInverse(enc, dec, iv, s.head);
    StealInverse(enc, dec, Chain(iv, c), s.block, s.rest);
    assert s.head + (s.block + s.rest) == data;
  }

  lemma StolenTail(rest: seq<byte>, x: Block)
    requires 1 <= |rest| <= 16
    ensures Xor(rest + Zeros(16 - |rest|), x)[|rest|..] == x[|rest|..]
    ensures x[..|rest|] + Xor(rest + Zeros(16 - |rest|), x)[|rest|..] == x
  {
    var p := rest + Zeros(16 - |rest|);
    forall i | |rest| <= i < 16 ensures Xor(p, x)[i] == x[i] {
      ZeroXor(x[i]);
    }
  }

  lemma ZeroXor(b: byte)
    ensures 0 ^ b == b
  {
  }

  // ----- The textbook form: CBC of the padded message, last two blocks swapped, cut to length

  function Padded(data: seq<byte>): (r: seq<byte>)
    requires |data| > 16
    ensures WholeBlocks(r) && |r| >= 32
  {
    var s := SplitMessage(data);
    s.head + s.block + (s.rest + Zeros(16 - |s.rest|))
  }

  lemma EncryptIsSwappedCbc(enc: Block -> Block, iv: Block, data: seq<byte>)
    requires |data| > 16
    ensures var c := CbcEncrypt(enc, iv, Padded(data));
            var n := |c|;
            Encrypt(enc, iv, data) == (c[..n - 32] + c[n - 16..] + c[n - 32..n - 16])[..|data|]
  {
    hide CbcEncrypt, WholeBlocks, SplitMessage, Xor, Chain;
    var s := SplitMessage(data);
    var last: Block := s.rest + Zeros(16 - |s.rest|);
    SameLengthBlocks(s.head);
    var c := CbcEncrypt(enc, iv, s.head);
    var x := enc(Xor(s.block, Chain(iv, c)));
    var y := enc(Xor(last, x));
    TwoMoreBlocks(enc, iv, s.head, s.block, last);
    var all := CbcEncrypt(enc, iv, Padded(data));
    var n := |all|;
    assert all[..n - 32] == c && all[n - 16..] == y && all[n - 32..n - 16] == x;
    assert (c + y + x)[..|data|] == c + (y + x[..|s.rest|]);
  }

  lemma TwoMoreBlocks(enc: Block -> Block, iv: Block, head: seq<byte>, b: Block, d: Block)
    requires WholeBlocks(head)
    ensures WholeBlocks(CbcEncrypt(enc, iv, head)) && WholeBlocks(head + b + d)
    ensures var c := CbcEncrypt(enc, iv, head);
            var x := enc(Xor(b, Chain(iv, c)));
            CbcEncrypt(enc, iv, head + b + d) == c + x + enc(Xor(d, x))
  {
    hide CbcEncrypt, WholeBlocks, Xor, Chain;
    CbcOne(enc, iv, b);
    CbcOne(enc, iv, d);
    SameLengthBlocks(head);
    BlocksAppend(head, b);
    BlocksAppend(head + b, d);
    var c := CbcEncrypt(enc, iv, head);
    var x := enc(Xor(b, Chain(iv, c)));
    CbcEncryptAppend(enc, iv, head, b);
    CbcOne(enc, Chain(iv, c), b);
    CbcEncryptAppend(enc, iv, head + b, d);
    ChainAppend(iv, c, x);
    CbcOne(enc, x, d);
  }

  // ----- Leading whole blocks may be handed over first

  lemma EncryptParts(enc: Block -> Block, iv: Block, head: seq<byte>, block: Block, rest: seq<byte>)
    requires WholeBlocks(head) && 1 <= |rest| <= 16
    ensures var c := CbcEncrypt(enc, iv, head);
            && WholeBlocks(c) && |head + block + rest| > 16
            && Encrypt(enc, iv, head + block + rest) == c + StealEncrypt(enc, Chain(iv, c), block, rest)
  {
    hide CbcEncrypt, WholeBlocks, SplitMessage, Chain, StealEncrypt;
    SameLengthBlocks(head);
    SplitUnique(head, block, rest);
  }

  lemma DecryptParts(dec: Block -> Block, iv: Block, head: seq<byte>, block: Block, rest: seq<byte>)
    requires WholeBlocks(head) && 1 <= |rest| <= 16
    ensures |head + block + rest| > 16
    ensures Decrypt(dec, iv, head + block + rest) ==
            CbcDecrypt(dec, iv, head) + StealDecrypt(dec, Chain(iv, head), block, rest)
  {
    hide CbcDecrypt, WholeBlocks, SplitMessage, Chain, StealDecrypt;
    SplitUnique(head, block, rest);
  }

  lemma EncryptAppend(enc: Block -> Block, iv: Block, a: seq<byte>, b: seq<byte>)
    requires WholeBlocks(a) && |b| > 16
    ensures WholeBlocks(CbcEncrypt(enc, iv, a))
    ensures Encrypt(enc, iv, a + b) == CbcEncrypt(enc, iv, a) + Encrypt(enc, Chain(iv, CbcEncrypt(enc, iv, a)), b)
  {
    hide *;
    var s := SplitMessage(b);
    BlocksAppend(a, s.head);
    CbcEncryptAppend(enc, iv, a, s.head);
    var ca := CbcEncrypt(enc, iv, a);
    var chain := Chain(iv, ca);
    var cb := CbcEncrypt(enc, chain, s.head);
    EncryptParts(enc, iv, a + s.head, s.block, s.rest);
    EncryptParts(enc, chain, s.head, s.block, s.rest);
    ChainTwice(iv, ca, cb);
    AppendAssociates(ca, cb, StealEncrypt(enc, Chain(chain, cb), s.block, s.rest));
    assert a + s.head + s.block + s.rest == a + b;
  }

  lemma DecryptAppend(dec: Block -> Block, iv: Block, a: seq<byte>, b: seq<byte>)
    requires WholeBlocks(a) && |b| > 16
    ensures Decrypt(dec, iv, a + b) == CbcDecrypt(dec, iv, a) + Decrypt(dec, Chain(iv, a), b)
  {
    hide *;
    var s := SplitMessage(b);
    BlocksAppend(a, s.head);
    CbcDecryptAppend(dec, iv, a, s.head);
    DecryptParts(dec, iv, a + s.head, s.block, s.rest);
    DecryptParts(dec, Chain(iv, a), s.head, s.block, s.rest);
    ChainTwice(iv, a, s.head);
    AppendAssociates(CbcDecrypt(dec, iv, a), CbcDecrypt(dec, Chain(iv, a), s.head),
                     StealDecrypt(dec, Chain(Chain(iv, a), s.head), s.block, s.rest));
    assert a + s.head + s.block + s.rest == a + b;
  }

  // ----- The streaming context

  datatype Direction = Encrypting | Decrypting

  /** Overflow is not returned: the product of two ints left their range, where C promises nothing. */
  datatype Status = Success | BadParameters | BadState | Overflow

  const INT_MAX := 0x7fff_ffff

  /** The longest last update the ints can count. */
  const LIMIT := 0x8000_0000

  /** A size_t value stored in an int: its low 32 bits, read as a signed number. */
  function ToInt(n: nat): int {
    var r := n % TWO32;
    if r <= INT_MAX then r else r - TWO32
  }

  /** The number of blocks as the int the code holds it in; the sum is one of 64-bit words. */
  function IntBlocks(len: nat): int {
    ToInt((len + 15) % TWO64 / 16)
  }

  /** What a last update of the given length returns. */
  function LastStatus(len: nat): Status {
    if IntBlocks(len) < 2 then BadState
    else if (IntBlocks(len) - 1) * 16 > INT_MAX then Overflow
    else Success
  }

  /** How many bytes a successful last update takes. */
  function Taken(len: nat): (k: nat)
    requires LastStatus(len) == Success
    ensures 16 < k <= len && k <= LIMIT && LastLength(k) == LastLength(len)
  {
    IntBlocksBound(len);
    (IntBlocks(len) - 1) * 16 + LastLength(len)
  }

  lemma IntBlocksBound(len: nat)
    requires IntBlocks(len) >= 2
    ensures (IntBlocks(len) - 1) * 16 + LastLength(len) <= len
  {
    var sum := (len + 15) % TWO64;
    var blocks := sum / 16;
    assert IntBlocks(len) <= blocks && sum <= len + 15;
    assert blocks * 16 <= len + 15;
  }

  ghost predicate TakenWhole(len: nat) {
    LastStatus(len) == Success && Taken(len) == len
  }

  /** A last update is taken whole exactly when it is longer than a block and at most 2^31 bytes. */
  lemma WhenTakenWhole(len: nat)
    ensures TakenWhole(len) <==> 16 < len <= LIMIT
  {
    if 16 < len <= LIMIT {
      assert IntBlocks(len) == (len + 15) / 16;
      assert Taken(len) == len;
    } else if len > 16 {
      assert LastStatus(len) == Success ==> Taken(len) <= LIMIT;
    }
  }

  /** Longer last updates overflow, are refused although they are long enough, or lose their tail unnoticed. */
  lemma LongLastUpdates()
    ensures LastStatus(LIMIT + 1) == Overflow
    ensures LastStatus(0x10_0000_0005) == BadState
    ensures LastStatus(0x10_0000_0040) == Success && Taken(0x10_0000_0040) == 64
  {
  }

  /** CBC in the given direction. */
  function Cbc(d: Direction, enc: Block -> Block, dec: Block -> Block, iv: Block, data: seq<byte>): (r: seq<byte>)
    requires WholeBlocks(data)
    ensures |r| == |data| && WholeBlocks(r)
  {
    SameLengthBlocks(data);
    if d == Encrypting then CbcEncrypt(enc, iv, data) else CbcDecrypt(dec, iv, data)
  }

  /** The chaining value after CBC: the last block of ciphertext, whichever side that is. */
  function CbcNext(d: Direction, enc: Block -> Block, dec: Block -> Block, iv: Block, data: seq<byte>): Block
    requires WholeBlocks(data)
  {
    Chain(iv, if d == Encrypting then Cbc(d, enc, dec, iv, data) else data)
  }

  /** Ciphertext stealing in the given direction. */
  function Steal(d: Direction, enc: Block -> Block, dec: Block -> Block, iv: Block, data: seq<byte>): (r: seq<byte>)
    requires |data| > 16
    ensures |r| == |data|
  {
    if d == Encrypting then Encrypt(enc, iv, data) else Decrypt(dec, iv, data)
  }

  lemma StealAppend(d: Direction, enc: Block -> Block, dec: Block -> Block, iv: Block, a: seq<byte>, b: seq<byte>)
    requires WholeBlocks(a) && |b| > 16
    ensures Steal(d, enc, dec, iv, a + b) ==
            Cbc(d, enc, dec, iv, a) + Steal(d, enc, dec, CbcNext(d, enc, dec, iv, a), b)
  {
    hide Encrypt, Decrypt, CbcEncrypt, CbcDecrypt, Chain, WholeBlocks;
    EncryptAppend(enc, iv, a, b);
    DecryptAppend(dec, iv, a, b);
  }

  lemma CbcTwice(d: Direction, enc: Block -> Block, dec: Block -> Block, iv: Block, a: seq<byte>, b: seq<byte>)
    requires WholeBlocks(a) && WholeBlocks(b)
    ensures WholeBlocks(a + b)
    ensures Cbc(d, enc, dec, iv, a + b) == Cbc(d, enc, dec, iv, a) + Cbc(d, enc, dec, CbcNext(d, enc, dec, iv, a), b)
    ensures CbcNext(d, enc, dec, iv, a + b) == CbcNext(d, enc, dec, CbcNext(d, enc, dec, iv, a), b)
  {
    hide CbcEncrypt, CbcDecrypt, Chain, WholeBlocks;
    BlocksAppend(a, b);
    CbcEncryptAppend(enc, iv, a, b);
    CbcDecryptAppend(dec, iv, a, b);
    ChainTwice(iv, a, b);
    ChainTwice(iv, Cbc(d, enc, dec, iv, a), Cbc(d, enc, dec, CbcNext(d, enc, dec, iv, a), b));
  }

  class Context {
    const enc: Block -> Block
    const dec: Block -> Block
    const mode: Direction
    var iv: Block

    constructor (enc: Block -> Block, dec: Block -> Block, mode: Direction, iv: Block)
      ensures this.enc == enc && this.dec == dec && this.mode == mode && this.iv == iv
    {
      this.enc, this.dec, this.mode, this.iv := enc, dec, mode, iv;
    }

    /** An update of the CBC context: whole blocks only. */
    method CbcUpdate(data: seq<byte>, dst: array<byte>, at: nat) returns (r: Status)
      requires at + |data| <= dst.Length
      modifies this, dst
      ensures r == if WholeBlocks(data) then Success else BadParameters
      ensures WholeBlocks(data) ==>
                && dst[..] == Place(old(dst[..]), at, Cbc(mode, enc, dec, old(iv), data))
                && iv == CbcNext(mode, enc, dec, old(iv), data)
      ensures !WholeBlocks(data) ==> iv == old(iv) && dst[..] == old(dst[..])
    {
      hide Cbc, CbcNext, Place;
      if |data| % 16 != 0 {
        return BadParameters;
      }
      Write(dst, at, Cbc(mode, enc, dec, iv, data));
      iv := CbcNext(mode, enc, dec, iv, data);
      return Success;
    }

    /**
     * Any number of updates with whole blocks, then one last update with more than a block. The
     * last update takes all of its data when there are at most 2^31 bytes of it.
     */
    method Update(last: bool, data: seq<byte>, dst: array<byte>) returns (r: Status)
      requires |data| <= dst.Length
      modifies this, dst
      ensures r == if last then LastStatus(|data|) else if WholeBlocks(data) then Success else BadParameters
      ensures r == BadParameters || r == BadState ==> iv == old(iv) && dst[..] == old(dst[..])
      ensures r == Success && !last ==>
                && dst[..|data|] == Cbc(mode, enc, dec, old(iv), data) && dst[|data|..] == old(dst[|data|..])
                && iv == CbcNext(mode, enc, dec, old(iv), data)
      ensures r == Success && last ==>
                var k := Taken(|data|);
                dst[..k] == Steal(mode, enc, dec, old(iv), data[..k]) && dst[k..] == old(dst[k..])
      ensures last && 16 < |data| <= LIMIT ==>
                r == Success && dst[..|data|] == Steal(mode, enc, dec, old(iv), data)
    {
      hide Cbc, CbcNext, Encrypt, Decrypt, IntBlocks;
      WhenTakenWhole(|data|);
      if !last {
        r := CbcUpdate(data, dst, 0);
        return;
      }
      var blocks := IntBlocks(|data|);
      if blocks < 2 {
        return BadState;
      }
      if (blocks - 1) * 16 > INT_MAX {
        return Overflow;
      }
      var m := LastLength(|data|);
      assert Taken(|data|) == (blocks - 1) * 16 + m;
      assert |data| <= LIMIT ==> data[..|data|] == data;
      if mode == Encrypting {
        EncryptLast(data, blocks, m, dst);
      } else {
        DecryptLast(data, blocks, m, dst);
      }
      return Success;
    }

    method EncryptLast(data: seq<byte>, blocks: nat, m: nat, dst: array<byte>)
      requires blocks >= 2 && 1 <= m <= 16 && (blocks - 1) * 16 + m <= |data| <= dst.Length && mode == Encrypting
      modifies this, dst
      ensures var k := (blocks - 1) * 16 + m;
              dst[..k] == Encrypt(enc, old(iv), data[..k]) && dst[k..] == old(dst[k..])
    {
      hide *;
      var n := (blocks - 1) * 16;
      Aligned(data, blocks, m);
      var head, block: Block, rest := data[..n - 16], data[n - 16..n], data[n..n + m];
      EncryptParts(enc, iv, head, block, rest);
      ghost var s, c := dst[..], CbcEncrypt(enc, iv, head);
      ghost var x := enc(Xor(block, Chain(iv, c)));
      EncryptHeadBlock(enc, dec, iv, head, block);
      var _ := CbcUpdate(data[..n], dst, 0);
      var stolen := dst[..][n - 16..n][..m];
      Write(dst, n, stolen);
      var tail: Block := rest + Zeros(16 - m);
      OneBlock(mode, enc, dec, x, tail);
      var _ := CbcUpdate(tail, dst, n - 16);
      StealEncryptIs(enc, Chain(old(iv), c), block, rest);
      PlacedLast(s, c, x, enc(Xor(tail, x)), m);
    }

    method DecryptLast(data: seq<byte>, blocks: nat, m: nat, dst: array<byte>)
      requires blocks >= 2 && 1 <= m <= 16 && (blocks - 1) * 16 + m <= |data| <= dst.Length && mode == Decrypting
      modifies this, dst
      ensures var k := (blocks - 1) * 16 + m;
              dst[..k] == Decrypt(dec, old(iv), data[..k]) && dst[k..] == old(dst[k..])
    {
      hide *;
      var n := (blocks - 1) * 16;
      Aligned(data, blocks, m);
      var head, block: Block, rest := data[..n - 16], data[n - 16..n], data[n..n + m];
      DecryptParts(dec, iv, head, block, rest);
      ghost var s, p := dst[..], CbcDecrypt(dec, iv, head);
      var d := dec(block);
      var tail: Block := rest + d[m..];
      DecryptHead(enc, dec, iv, head);
      if n > 16 {
        var _ := CbcUpdate(head, dst, 0);
      } else {
        assert head == [];
        CbcNone(dec, iv);
        PlacedNone(dst[..]);
      }
      assert dst[..] == Place(s, 0, p) && iv == Chain(old(iv), head) && |p| == n - 16;
      OneBlock(mode, enc, dec, iv, tail);
      var _ := CbcUpdate(tail, dst, n - 16);
      var tmp := new byte[16];
      PlacedAll(tmp[..], Xor(d, tail));
      OneBlock(mode, enc, dec, iv, block);
      var _ := CbcUpdate(block, tmp, 0);
      Write(dst, n, tmp[..][..m]);
      StealDecryptIs(dec, Chain(old(iv), head), block, rest);
      PlacedParts(s, p, Xor(dec(tail), Chain(old(iv), head)), Xor(d, tail)[..m]);
      assert |p| + 16 + m == n + m;
    }
  }

  // ----- Writing into the destination

  /** Ciphertext written whole, its last block copied behind it and then overwritten. */
  lemma PlacedLast(s: seq<byte>, c: seq<byte>, x: Block, y: Block, m: nat)
    requires m <= 16 && |c| + 16 + m <= |s|
    ensures var n := |c| + 16;
            var s1 := Place(s, 0, c + x);
            var s3 := Place(Place(s1, n, s1[n - 16..n][..m]), n - 16, y);
            s1[n - 16..n] == x && s3[..n + m] == c + (y + x[..m]) && s3[n + m..] == s[n + m..]
  {
    var s1 := Place(s, 0, c + x);
    assert s1[|c|..|c| + 16] == x;
  }

  lemma PlacedParts(s: seq<byte>, p: seq<byte>, x: seq<byte>, y: seq<byte>)
    requires |p| + |x| + |y| <= |s|
    ensures var r := Place(Place(Place(s, 0, p), |p|, x), |p| + |x|, y);
            r[..|p| + |x| + |y|] == p + (x + y) && r[|p| + |x| + |y|..] == s[|p| + |x| + |y|..]
  {
  }

  lemma PlacedNone(s: seq<byte>)
    ensures Place(s, 0, []) == s
  {
  }

  lemma PlacedAll(s: seq<byte>, x: seq<byte>)
    requires |s| == |x|
    ensures Place(s, 0, x) == x
  {
  }

  lemma Aligned(data: seq<byte>, blocks: nat, m: nat)
    requires blocks >= 2 && (blocks - 1) * 16 + m <= |data|
    ensures var n := (blocks - 1) * 16;
            && WholeBlocks(data[..n - 16]) && WholeBlocks(data[..n])
            && data[..n - 16] + data[n - 16..n] == data[..n]
            && data[..n - 16] + data[n - 16..n] + data[n..n + m] == data[..n + m]
  {
  }

  lemma EncryptHeadBlock(enc: Block -> Block, dec: Block -> Block, iv: Block, head: seq<byte>, block: Block)
    requires WholeBlocks(head)
    ensures var c := CbcEncrypt(enc, iv, head);
            && WholeBlocks(c) && WholeBlocks(head + block)
            && Cbc(Encrypting, enc, dec, iv, head + block) == c + enc(Xor(block, Chain(iv, c)))
            && CbcNext(Encrypting, enc, dec, iv, head + block) == enc(Xor(block, Chain(iv, c)))
  {
    hide CbcEncrypt, Chain, Xor, WholeBlocks;
    CbcOne(enc, Chain(iv, CbcEncrypt(enc, iv, head)), block) by {
      SameLengthBlocks(head);
    }
    BlocksAppend(head, block);
    CbcEncryptAppend(enc, iv, head, block);
    ChainAppend(iv, CbcEncrypt(enc, iv, head), enc(Xor(block, Chain(iv, CbcEncrypt(enc, iv, head)))));
  }

  lemma OneBlock(d: Direction, enc: Block -> Block, dec: Block -> Block, iv: Block, b: Block)
    ensures WholeBlocks(b)
    ensures d == Encrypting ==>
              Cbc(d, enc, dec, iv, b) == enc(Xor(b, iv)) && CbcNext(d, enc, dec, iv, b) == enc(Xor(b, iv))
    ensures d == Decrypting ==> Cbc(d, enc, dec, iv, b) == Xor(dec(b), iv) && CbcNext(d, enc, dec, iv, b) == b
  {
    hide CbcEncrypt, CbcDecrypt, Xor;
    CbcOne(enc, iv, b);
    CbcOne(dec, iv, b);
  }

  lemma DecryptHead(enc: Block -> Block, dec: Block -> Block, iv: Block, head: seq<byte>)
    requires WholeBlocks(head)
    ensures Cbc(Decrypting, enc, dec, iv, head) == CbcDecrypt(dec, iv, head)
    ensures CbcNext(Decrypting, enc, dec, iv, head) == Chain(iv, head)
  {
  }

  lemma StealEncryptIs(enc: Block -> Block, chain: Block, block: Block, rest: seq<byte>)
    requires 1 <= |rest| <= 16
    ensures var x := enc(Xor(block, chain));
            StealEncrypt(enc, chain, block, rest) == enc(Xor(rest + Zeros(16 - |rest|), x)) + x[..|rest|]
  {
  }

  lemma StealDecryptIs(dec: Block -> Block, chain: Block, block: Block, rest: seq<byte>)
    requires 1 <= |rest| <= 16
    ensures var d := dec(block);
            var x := rest + d[|rest|..];
            StealDecrypt(dec, chain, block, rest) == Xor(dec(x), chain) + Xor(d, x)[..|rest|]
  {
  }

  // ----- Whole messages in chunks

  /** A message in chunks comes out as the whole message would, up to what the last update takes. */
  method Feed(ctx: Context, chunks: seq<seq<byte>>, last: seq<byte>) returns (r: Status, out: seq<byte>)
    requires AllWhole(chunks)
    modifies ctx
    ensures r == LastStatus(|last|)
    ensures r == Success ==>
              out == Steal(ctx.mode, ctx.enc, ctx.dec, old(ctx.iv), Join(chunks) + last[..Taken(|last|)])
    ensures 16 < |last| <= LIMIT ==>
              r == Success && out == Steal(ctx.mode, ctx.enc, ctx.dec, old(ctx.iv), Join(chunks) + last)
  {
    hide Cbc, CbcNext, Steal, WholeBlocks, LastStatus, Taken;
    ghost var d, enc, dec, iv0 := ctx.mode, ctx.enc, ctx.dec, ctx.iv;
    out := [];
    CbcNothing(d, enc, dec, iv0);
    for i := 0 to |chunks|
      invariant WholeBlocks(Join(chunks[..i])) && out == Cbc(d, enc, dec, iv0, Join(chunks[..i]))
      invariant ctx.iv == CbcNext(d, enc, dec, iv0, Join(chunks[..i]))
    {
      assert chunks[..i + 1][..i] == chunks[..i];
      CbcTwice(d, enc, dec, iv0, Join(chunks[..i]), chunks[i]);
      var dst := new byte[|chunks[i]|];
      var status := ctx.Update(false, chunks[i], dst);
      assert status == Success;
      out := out + dst[..];
    }
    assert chunks[..|chunks|] == chunks;
    var dst := new byte[|last|];
    WhenTakenWhole(|last|);
    r := ctx.Update(true, last, dst);
    if r == Success {
      ghost var part := last[..Taken(|last|)];
      StealAppend(d, enc, dec, iv0, Join(chunks), part);
      out := out + dst[..Taken(|last|)];
      assert |last| <= LIMIT ==> part == last;
    }
  }

  lemma CbcNothing(d: Direction, enc: Block -> Block, dec: Block -> Block, iv: Block)
    ensures WholeBlocks([]) && Cbc(d, enc, dec, iv, []) == [] && CbcNext(d, enc, dec, iv, []) == iv
  {
  }

  /**
   * What is encrypted in some chunks and decrypted in others comes back. The receiver cuts the
   * ciphertext wherever it likes, as long as both last updates are ones that are taken whole.
   */
  method RoundTrip(enc: Block -> Block, dec: Block -> Block, iv: Block, chunks: seq<seq<byte>>, last: seq<byte>,
                   lead: nat, counts: seq<nat>) returns (out: seq<byte>)
    requires Inverse(enc, dec) && AllWhole(chunks)
    requires 16 < |last| <= LIMIT && 16 < |Join(chunks) + last| - 16 * lead <= LIMIT
    ensures out == Join(chunks) + last
  {
    hide WholeBlocks, Inverse, Join, Encrypt, Decrypt, LastStatus, Taken;
    var e := new Context(enc, dec, Encrypting, iv);
    var r, c := Feed(e, chunks, last);
    DecryptEncrypt(enc, dec, iv, Join(chunks) + last);
    LeadingBlocks(c, lead);
    var cut := CutBlocks(c[..16 * lead], counts);
    var d := new Context(enc, dec, Decrypting, iv);
    assert c[..16 * lead] + c[16 * lead..] == c;
    r, out := Feed(d, cut, c[16 * lead..]);
  }

  lemma LeadingBlocks(c: seq<byte>, lead: nat)
    requires 16 * lead <= |c|
    ensures WholeBlocks(c[..16 * lead])
  {
  }
}
