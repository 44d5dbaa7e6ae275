/** Messages for which the code's GCM is not the GCM of NIST SP 800-38D. */
module GcmDiffers {
  import opened BigEndian
  import opened Bytes
  import opened GcmSpec
  import opened GcmStandard
  import opened GcmStream
  import opened GhashTable
  import opened Gf128

  const ONE_BLOCK: Block := [0x80] + Zeros(15)

  /** Sixteen bytes of nonce that hash to a counter block ending in 32 one bits. */
  const NONCE: seq<byte> := Zeros(12) + [0xff, 0xff, 0xff, 0x7f]

  /** A permutation of the blocks that takes the zero block to the one of the field. */
  function Swap(b: Block): Block {
    if b == ZERO_BLOCK then ONE_BLOCK else if b == ONE_BLOCK then ZERO_BLOCK else b
  }

  lemma SwapInvolution(b: Block)
    ensures Swap(Swap(b)) == b
  {
    assert ONE_BLOCK[0] != ZERO_BLOCK[0];
  }

  lemma OneIsOne()
    ensures FromBytes(ONE_BLOCK) == ONE
  {
    assert ONE_BLOCK[..8] == [0x80, 0, 0, 0, 0, 0, 0, 0] && ONE_BLOCK[8..] == [0, 0, 0, 0, 0, 0, 0, 0];
  }

  /** With that hash key GHASH only adds up its blocks. */
  lemma MulByOne(y: Block)
    ensures GhashMul(ONE_BLOCK, y) == y
  {
    hide FromBytes, ToBytes, Mul, GhashMul, ShlN;
    OneIsOne();
    TableOrder(ONE_BLOCK, y);
    MulOne(FromBytes(y));
    BlockRoundTrip(y);
  }

  lemma MulOne(x: Elem)
    ensures Mul(x, ONE) == x
  {
    hide Prod, ShlN;
    ShlN128(x);
    ProdOne(128, x);
  }

  lemma SwapMul(y: Block)
    ensures MakeKey(Swap).mul(y) == y
  {
    hide GhashMul;
    assert Swap(ZERO_BLOCK) == ONE_BLOCK;
    MulByOne(y);
  }

  lemma LengthOfNonce()
    ensures Lengths(0, 16) == Zeros(15) + [0x80]
  {
    hide ByteOf;
    ByteOfNat(0);
    ByteOfNat(128);
    ByteUnique(ByteOf(0), 0);
    ByteUnique(ByteOf(128), 128);
    assert BitCount(0) == 0 && BitCount(16) == 128;
    SmallDigits(7);
    assert Digits(8, 128) == Digits(7, 0) + [ByteOf(128)];
    assert Digits(8, 0) == Digits(7, 0) + [ByteOf(0)];
  }

  lemma {:induction false} SmallDigits(k: nat)
    ensures Digits(k, 0) == Zeros(k)
  {
    hide ByteOf;
    if k > 0 {
      SmallDigits(k - 1);
      ByteOfNat(0);
      ByteUnique(ByteOf(0), 0);
    }
  }

  /** Where GHASH only adds up, the counter block is the nonce plus its length. */
  lemma SummedNonce(k: Key, n: Block)
    requires forall y: Block :: k.mul(y) == y
    ensures k.J0(n) == Xor(n, Lengths(0, 16))
  {
    hide Lengths, k.Ghash;
    assert Pad(n) == n;
    k.GhashBlock(ZERO_BLOCK, n);
    ZeroSum(n);
    k.GhashBlock(n, Lengths(0, 16));
  }

  lemma ZeroSum(n: Block)
    ensures Xor(ZERO_BLOCK, n) == n
  {
  }

  /** The counter block the nonce leads to. */
  lemma FirstBlock()
    ensures MakeKey(Swap).J0(NONCE) == LastCounter()
  {
    var k := MakeKey(Swap);
    forall y: Block ensures k.mul(y) == y {
      SwapMul(y);
    }
    hide k.J0, Lengths;
    SummedNonce(k, NONCE);
    LengthOfNonce();
    NonceSum();
  }

  function LastCounter(): Block {
    Zeros(12) + [0xff, 0xff, 0xff, 0xff]
  }

  lemma NonceSum()
    ensures Xor(NONCE, Zeros(15) + [0x80]) == LastCounter()
  {
  }

  lemma Stepped32()
    ensures Inc32(LastCounter()) == ZERO_BLOCK
  {
    hide Bump;
    var j := LastCounter();
    BumpOverflow(j[12..]);
    assert j[..12] + Zeros(4) == ZERO_BLOCK;
  }

  lemma Stepped128()
    ensures Bump(LastCounter()) == Zeros(11) + [1] + Zeros(4)
  {
    var j := LastCounter();
    hide Bump;
    BumpCarry(j, 11);
    assert j[..11] == Zeros(11);
  }

  lemma SteppedBlock()
    ensures var j := LastCounter();
            Inc32(j) == ZERO_BLOCK && Inc(j)[0] == 0 && Inc(j) != ZERO_BLOCK && Inc(j) != ONE_BLOCK
  {
    hide Inc, Inc32, Bump, LastCounter;
    IncIsPlusOne(LastCounter());
    Stepped32();
    Stepped128();
    assert Inc(LastCounter())[11] == 1 && ONE_BLOCK[11] == 0 && ZERO_BLOCK[11] == 0;
  }

  lemma OneByte(k: Key, nonce: seq<byte>)
    ensures k.Seal(nonce, [], [0], 16).0 == [0 ^ k.enc(Inc(k.J0(nonce)))[0]]
    ensures StdSeal(k, nonce, [], [0], 16).0 == [0 ^ k.enc(Inc32(StdJ0(k, nonce)))[0]]
  {
    hide k.J0, StdJ0, Inc, Inc32, k.Digest, k.Ghash, StdLengths, Pad;
    var c := Inc32(StdJ0(k, nonce));
    assert Inc32N(0, c) == c;
    assert StdCrypt(k, c, [0]) == [0 ^ k.enc(Inc32N(0, c))[0]];
  }

  ghost predicate Injective(f: Block -> Block) {
    forall x: Block, y: Block :: f(x) == f(y) ==> x == y
  }

  /** One zero byte under that nonce and a permutation of the blocks: a different keystream, a different ciphertext. */
  lemma DiffersFromStandard()
    ensures (forall b: Block :: Swap(Swap(b)) == b) && Injective(Swap)
    ensures var k := MakeKey(Swap);
            k.Seal(NONCE, [], [0], 16).0 == [0] && StdSeal(k, NONCE, [], [0], 16).0 == [0x80]
  {
    SwapPermutes();
    var k := MakeKey(Swap);
    hide k.J0, StdJ0, Inc, Inc32, k.Seal, StdSeal, LastCounter, Injective;
    FirstBlock();
    SteppedBlock();
    J0Standard(k, NONCE);
    OneByte(k, NONCE);
    assert k.enc(Inc(LastCounter())) == Inc(LastCounter()) && k.enc(ZERO_BLOCK) == ONE_BLOCK;
    assert ONE_BLOCK[0] == 0x80;
  }

  lemma SwapPermutes()
    ensures forall b: Block :: Swap(Swap(b)) == b
    ensures Injective(Swap)
  {
    forall b: Block ensures Swap(Swap(b)) == b {
      SwapInvolution(b);
    }
  }

  // ----- Long messages

  lemma XorCommutes(a: Block, b: Block)
    ensures Xor(a, b) == Xor(b, a)
  {
    forall i | 0 <= i < 16 ensures Xor(a, b)[i] == Xor(b, a)[i] {
      assert a[i] ^ b[i] == b[i] ^ a[i];
    }
  }

  lemma XorInjective(a: Block, b: Block, c: Block)
    ensures Xor(a, b) == Xor(a, c) <==> b == c
  {
    hide Xor;
    XorCommutes(a, b);
    XorCommutes(a, c);
    XorCancels(b, a);
    XorCancels(c, a);
  }

  /** Under a hash key that loses nothing, different lengths give different tags. */
  lemma TagSeparates(k: Key, e: Block, y: Block, l: Block, m: Block)
    requires Injective(k.mul)
    ensures Xor(e, k.Ghash(y, l)) == Xor(e, k.Ghash(y, m)) <==> l == m
  {
    hide Xor, k.Ghash;
    k.GhashBlock(y, l);
    k.GhashBlock(y, m);
    XorInjective(e, k.mul(Xor(y, l)), k.mul(Xor(y, m)));
    XorInjective(y, l, m);
  }

  lemma SealTag(k: Key, nonce: seq<byte>, aad: seq<byte>, plaintext: seq<byte>)
    ensures var r := k.Seal(nonce, aad, plaintext, 16);
            && r.0 == k.Crypt(Inc(k.J0(nonce)), 0, plaintext) && |r.0| == |plaintext|
            && r.1 == Xor(k.enc(k.J0(nonce)),
                          k.Ghash(k.Ghash(k.Ghash(ZERO_BLOCK, Pad(aad)), Pad(r.0)), Lengths(|aad|, |r.0|)))
  {
    hide k.J0, Inc, k.Ghash, k.Crypt, Lengths, Pad;
  }

  lemma StdSealTag(k: Key, nonce: seq<byte>, aad: seq<byte>, plaintext: seq<byte>)
    ensures var r := StdSeal(k, nonce, aad, plaintext, 16);
            var j := StdJ0(k, nonce);
            && r.0 == StdCrypt(k, Inc32(j), plaintext)
            && r.1 == Xor(k.enc(j), k.Ghash(k.Ghash(k.Ghash(ZERO_BLOCK, Pad(aad)), Pad(r.0)), StdLengths(|aad|, |r.0|)))
  {
    hide StdJ0, Inc32, k.Ghash, StdCrypt, StdLengths, Pad;
  }

  /**
   Whenever multiplication by the hash key is one-to-one and the counter does not wrap, the code produces the
   standard's ciphertext, and the standard's tag exactly when both lengths are below 2^29 bytes.
   */
  lemma TagStandardWhen(k: Key, nonce: seq<byte>, aad: seq<byte>, plaintext: seq<byte>)
    requires Injective(k.mul) && |nonce| < 0x2000_0000
    requires |aad| < 0x2000_0000_0000_0000 && |plaintext| < 0x2000_0000_0000_0000
    requires Low32(k.J0(nonce)) + (|plaintext| + 15) / 16 < 0x1_0000_0000
    ensures k.Seal(nonce, aad, plaintext, 16).0 == StdSeal(k, nonce, aad, plaintext, 16).0
    ensures k.Seal(nonce, aad, plaintext, 16).1 == StdSeal(k, nonce, aad, plaintext, 16).1 <==>
            |aad| < 0x2000_0000 && |plaintext| < 0x2000_0000
  {
    hide Injective, k.J0, StdJ0, Inc, Inc32, Low32, k.Seal, StdSeal, k.Ghash, k.Crypt, StdCrypt;
    hide Lengths, StdLengths, Xor, Pad;
    J0Standard(k, nonce);
    CryptStandard(k, k.J0(nonce), plaintext);
    SealTag(k, nonce, aad, plaintext);
    StdSealTag(k, nonce, aad, plaintext);
    var c := k.Seal(nonce, aad, plaintext, 16).0;
    var y := k.Ghash(k.Ghash(ZERO_BLOCK, Pad(aad)), Pad(c));
    TagSeparates(k, k.enc(k.J0(nonce)), y, Lengths(|aad|, |c|), StdLengths(|aad|, |c|));
    LengthsAgree(|aad|, |c|);
  }

  /** Half a gigabyte or more of additional data: with that permutation and any 12-byte nonce the tag is another one. */
  lemma LongAadDiffers(nonce: seq<byte>, aad: seq<byte>)
    requires |nonce| == 12 && 0x2000_0000 <= |aad| < 0x2000_0000_0000_0000
    ensures var k := MakeKey(Swap);
            k.Seal(nonce, aad, [], 16).1 != StdSeal(k, nonce, aad, [], 16).1
  {
    var k := MakeKey(Swap);
    hide k.J0, k.Seal, StdSeal, Low32;
    SwapMulInjective();
    J0Standard(k, nonce);
    TagStandardWhen(k, nonce, aad, []);
  }

  lemma SwapMulInjective()
    ensures Injective(MakeKey(Swap).mul)
  {
    var k := MakeKey(Swap);
    hide MakeKey;
    forall y: Block ensures k.mul(y) == y {
      SwapMul(y);
    }
  }
}
