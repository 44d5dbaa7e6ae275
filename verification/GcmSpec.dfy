/** AES-GCM as a function of whole byte strings, for any block cipher and any GHASH multiplier. */
module GcmSpec {
  import opened Bytes
  import opened BigEndian
  import opened Gf128

  const ZERO_BLOCK: Block := Zeros(16)

  /** The 16-byte tail of zeros that completes the last block of s. */
  function Pad(s: seq<byte>): (r: seq<byte>)
    ensures |r| % 16 == 0 && |s| <= |r| < |s| + 16 && r[..|s|] == s
  {
    s + Zeros((16 - |s| % 16) % 16)
  }

  /** The counter step of the code: plus one on the 128-bit big-endian counter. */
  function Inc(c: Block): Block {
    var lo := Be64(c[8..]) + 1;
    (if lo == 0 then PutBe64(Be64(c[..8]) + 1) else c[..8]) + PutBe64(lo)
  }

  function IncN(n: nat, c: Block): Block {
    if n == 0 then c else Inc(IncN(n - 1, c))
  }

  /** A byte count as the code turns it into bits: times eight, in 32 bits. */
  function BitCount(n: nat): (r: nat)
    ensures r < 0x1_0000_0000
  {
    n * 8 % 0x1_0000_0000
  }

  function Lengths(a: nat, c: nat): Block {
    Digits(8, BitCount(a)) + Digits(8, BitCount(c))
  }

  lemma XorZeros(y: Block)
    ensures Xor(y, ZERO_BLOCK) == y
  {
    forall i | 0 <= i < 16 ensures Xor(y, ZERO_BLOCK)[i] == y[i] {
      assert y[i] ^ 0 == y[i];
    }
  }

  lemma XorThree(a: Block, b: Block, c: Block)
    ensures Xor(Xor(a, b), c) == Xor(a, Xor(b, c))
  {
    forall i | 0 <= i < 16 ensures Xor(Xor(a, b), c)[i] == Xor(a, Xor(b, c))[i] {
      assert (a[i] ^ b[i]) ^ c[i] == a[i] ^ (b[i] ^ c[i]);
    }
  }

  /** A key: its block cipher and multiplication by its hash key. */
  datatype Key = Key(enc: Block -> Block, mul: Block -> Block) {

    /** GHASH of a whole number of blocks from chaining value y. */
    function Ghash(y: Block, data: seq<byte>): Block
      requires |data| % 16 == 0
      decreases |data|
    {
      if data == [] then y else Ghash(mul(Xor(y, data[..16])), data[16..])
    }

    /** The pre-counter block. */
    function J0(nonce: seq<byte>): Block {
      hide *;
      if |nonce| == 12 then Inc(nonce + Zeros(4))
      else Ghash(Ghash(ZERO_BLOCK, Pad(nonce)), Lengths(0, |nonce|))
    }

    /** Byte p of the keystream whose first block encrypts counter c. */
    function KeyByte(c: Block, p: nat): byte {
      enc(IncN(p / 16, c))[p % 16]
    }

    /** data under the keystream from position p on. */
    function Crypt(c: Block, p: nat, data: seq<byte>): (r: seq<byte>)
      ensures |r| == |data|
    {
      seq(|data|, i requires 0 <= i < |data| => data[i] ^ KeyByte(c, p + i))
    }

    function FirstCounter(nonce: seq<byte>): Block {
      Inc(J0(nonce))
    }

    /** GHASH of the padded additional data, the padded ciphertext and the lengths. */
    function Digest(hashedAad: seq<byte>, aadLen: nat, ciphertext: seq<byte>): Block {
      hide *;
      Ghash(Ghash(Ghash(ZERO_BLOCK, Pad(hashedAad)), Pad(ciphertext)), Lengths(aadLen, |ciphertext|))
    }

    function Tag(nonce: seq<byte>, hashedAad: seq<byte>, aadLen: nat, ciphertext: seq<byte>, tagLen: nat): seq<byte>
      requires tagLen <= 16
    {
      Xor(enc(J0(nonce)), Digest(hashedAad, aadLen, ciphertext))[..tagLen]
    }

    /** Authenticated encryption of a whole message. */
    function Seal(nonce: seq<byte>, aad: seq<byte>, plaintext: seq<byte>, tagLen: nat): (seq<byte>, seq<byte>)
      requires tagLen <= 16
    {
      var c := Crypt(FirstCounter(nonce), 0, plaintext);
      (c, Tag(nonce, aad, |aad|, c, tagLen))
    }

    lemma {:induction false} GhashAppend(y: Block, a: seq<byte>, b: seq<byte>)
      requires |a| % 16 == 0 && |b| % 16 == 0
      ensures Ghash(y, a + b) == Ghash(Ghash(y, a), b)
      decreases |a|
    {
      if a == [] {
        assert a + b == b;
      } else {
        assert (a + b)[..16] == a[..16] && (a + b)[16..] == a[16..] + b;
        GhashAppend(mul(Xor(y, a[..16])), a[16..], b);
      }
    }

    lemma GhashBlock(y: Block, b: Block)
      ensures Ghash(y, b) == mul(Xor(y, b))
    {
      assert b[..16] == b && b[16..] == [];
    }

    /** Multiplication by the hash key goes with sums. */
    ghost predicate Additive() {
      forall a: Block, b: Block :: mul(Xor(a, b)) == Xor(mul(a), mul(b))
    }

    /** b times the n-th power of the hash key. */
    function Power(n: nat, b: Block): Block {
      if n == 0 then b else Power(n - 1, mul(b))
    }

    /** The sum of the blocks, each times the power of the hash key that counts it and the blocks behind it. */
    function Terms(data: seq<byte>): Block
      requires |data| % 16 == 0
    {
      if data == [] then ZERO_BLOCK else Xor(Power(|data| / 16, data[..16]), Terms(data[16..]))
    }

    lemma {:induction false} PowerAdds(n: nat, a: Block, b: Block)
      requires Additive()
      ensures Power(n, Xor(a, b)) == Xor(Power(n, a), Power(n, b))
    {
      hide Xor;
      if n > 0 {
        PowerAdds(n - 1, mul(a), mul(b));
      }
    }

    /** GHASH is the value of a polynomial at the hash key. */
    lemma {:induction false} GhashIsSum(y: Block, data: seq<byte>)
      requires Additive() && |data| % 16 == 0
      ensures Ghash(y, data) == Xor(Power(|data| / 16, y), Terms(data))
      decreases |data|
    {
      hide Xor, Additive, ZERO_BLOCK;
      if data == [] {
        XorZeros(y);
      } else {
        var n, x: Block, rest := |data| / 16, data[..16], data[16..];
        assert |rest| / 16 == n - 1;
        GhashIsSum(mul(Xor(y, x)), rest);
        PowerAdds(n, y, x);
        XorThree(Power(n, y), Power(n, x), Terms(rest));
      }
    }

    lemma CryptAppend(c: Block, p: nat, a: seq<byte>, b: seq<byte>)
      ensures Crypt(c, p, a + b) == Crypt(c, p, a) + Crypt(c, p + |a|, b)
    {
    }

    /** Applying the keystream twice gives the data back. */
    lemma CryptInvolution(c: Block, p: nat, data: seq<byte>)
      ensures Crypt(c, p, Crypt(c, p, data)) == data
    {
      forall i | 0 <= i < |data| ensures Crypt(c, p, Crypt(c, p, data))[i] == data[i] {
        var d, b := data[i], KeyByte(c, p + i);
        assert (d ^ b) ^ b == d;
      }
    }
  }
}
