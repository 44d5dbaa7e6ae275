/** The streaming AES-GCM context, proved against the one-shot specification for every chunking. */
module GcmStream {
  import opened Arithmetic
  import opened Bytes
  import opened GcmSpec
  import opened GhashTable
  import opened Polynomial
  import Gf128

  datatype Mode = Encrypt | Decrypt

  datatype Status = Success | BadParameters | ShortBuffer | MacInvalid

  // ----- What the fields mean, on values

  /** The hash has absorbed the whole blocks of data and buf holds the rest. */
  ghost predicate Buffered(k: Key, y: Block, data: seq<byte>, hash: Block, buf: seq<byte>, pos: nat) {
    && |buf| == 16 && pos == |data| % 16
    && buf[..pos] == data[|data| - pos..]
    && hash == k.Ghash(y, data[..|data| - pos])
  }

  /** Where the counter and the keystream buffer stand after n payload bytes. */
  ghost predicate Keyed(k: Key, mode: Mode, c: Block, n: nat, ctr: Block, cryp: seq<byte>) {
    && |cryp| == 16
    && ctr == IncN(if mode == Encrypt then n / 16 + 1 else n / 16, c)
    && (mode == Encrypt || n % 16 != 0 ==>
          forall j :: n % 16 <= j < 16 ==> cryp[j] == k.KeyByte(c, n / 16 * 16 + j))
  }

  /** As Keyed, with the keystream block at hand in either mode. */
  ghost predicate Ready(k: Key, mode: Mode, c: Block, n: nat, ctr: Block, cryp: seq<byte>) {
    && |cryp| == 16
    && ctr == IncN(if mode == Encrypt then n / 16 + 1 else n / 16, c)
    && forall j :: n % 16 <= j < 16 ==> cryp[j] == k.KeyByte(c, n / 16 * 16 + j)
  }

  lemma BufferSome(k: Key, y: Block, data: seq<byte>, hash: Block, buf: seq<byte>, pos: nat, more: seq<byte>)
    requires Buffered(k, y, data, hash, buf, pos) && pos + |more| < 16
    ensures Buffered(k, y, data + more, hash, buf[..pos] + more + buf[pos + |more|..], pos + |more|)
  {
    var all := data + more;
    assert |all| % 16 == pos + |more|;
    assert all[..|data| - pos] == data[..|data| - pos];
    assert all[|data| - pos..] == data[|data| - pos..] + more;
  }

  lemma BufferFull(k: Key, y: Block, data: seq<byte>, hash: Block, buf: seq<byte>, pos: nat, more: seq<byte>, b: Block)
    requires Buffered(k, y, data, hash, buf, pos) && pos + |more| == 16 && b == buf[..pos] + more
    ensures Buffered(k, y, data + more, k.mul(Xor(hash, b)), b, 0)
  {
    var all := data + more;
    assert |all| % 16 == 0;
    assert all[..|all|] == data[..|data| - pos] + b;
    k.GhashAppend(y, data[..|data| - pos], b);
    k.GhashBlock(hash, b);
  }

  lemma BufferBlocks(k: Key, y: Block, data: seq<byte>, hash: Block, buf: seq<byte>, more: seq<byte>, buf': seq<byte>)
    requires Buffered(k, y, data, hash, buf, 0) && |more| % 16 == 0 && |buf'| == 16
    ensures Buffered(k, y, data + more, k.Ghash(hash, more), buf', 0)
  {
    var all := data + more;
    BlocksSum(|data|, |more|);
    assert all[..|all|] == all && data[..|data|] == data && all[|all|..] == [];
    k.GhashAppend(y, data, more);
  }

  lemma BlocksSum(a: nat, b: nat)
    requires a % 16 == 0 && b % 16 == 0
    ensures (a + b) % 16 == 0
  {
  }

  lemma BufferPad(k: Key, y: Block, data: seq<byte>, hash: Block, buf: seq<byte>, pos: nat, b: Block)
    requires Buffered(k, y, data, hash, buf, pos)
    requires pos == 0 || b == buf[..pos] + Zeros(16 - pos)
    ensures k.Ghash(y, Pad(data)) == if pos == 0 then hash else k.mul(Xor(hash, b))
  {
    if pos == 0 {
      assert Pad(data) == data == data[..|data|];
    } else {
      assert Pad(data) == data[..|data| - pos] + b;
      k.GhashAppend(y, data[..|data| - pos], b);
      k.GhashBlock(hash, b);
    }
  }

  /** A byte count as it is kept, in 32 bits. */
  function Wrap(n: nat): (r: nat)
    ensures r < 0x1_0000_0000 && (n < 0x1_0000_0000 ==> r == n)
  {
    n % TWO32
  }

  lemma WrapSum(a: nat, b: nat)
    ensures Wrap(Wrap(a) + b) == Wrap(a + b)
  {
    ModAdd(a, b, TWO32);
  }

  lemma PadPadded(data: seq<byte>)
    ensures Pad(Pad(data)) == Pad(data)
    ensures |data| % 16 == 0 ==> Pad(data) == data
  {
  }

  lemma PhaseChange(k: Key, data: seq<byte>, hash: Block, buf: seq<byte>)
    requires |data| % 16 == 0
    ensures Buffered(k, ZERO_BLOCK, data, hash, buf, 0) <==> Buffered(k, k.Ghash(ZERO_BLOCK, data), [], hash, buf, 0)
  {
    assert data[..|data|] == data;
  }

  lemma BitCountWrap(a: nat)
    ensures BitCount(Wrap(a)) == BitCount(a)
  {
    var q, r := a / TWO32, a % TWO32;
    var q', r' := r * 8 / TWO32, r * 8 % TWO32;
    assert a * 8 == (q * 8 + q') * TWO32 + r';
    WrapUnique(a * 8, q * 8 + q', r');
  }

  lemma WrapUnique(x: nat, q: nat, r: nat)
    requires x == q * TWO32 + r && r < TWO32
    ensures x % TWO32 == r
  {
  }

  lemma WrapBlocks(n: nat)
    ensures Wrap(n) == 0 ==> n % 16 == 0
  {
    if n % TWO32 == 0 {
      assert n == n / TWO32 * 0x1000_0000 * 16;
    }
  }

  lemma LengthsWrap(a: nat, c: nat)
    ensures Lengths(Wrap(a), Wrap(c)) == Lengths(a, c)
  {
    hide BitCount;
    BitCountWrap(a);
    BitCountWrap(c);
  }

  predicate Aligned(address: nat) {
    address % 16 == 0
  }

  // ----- The keystream, on values

  /** What the hash covers: the ciphertext, produced or received. */
  ghost function CipherText(k: Key, mode: Mode, c: Block, text: seq<byte>): (r: seq<byte>)
    ensures |r| == |text|
  {
    if mode == Encrypt then k.Crypt(c, 0, text) else text
  }

  lemma CipherTextAppend(k: Key, mode: Mode, c: Block, text: seq<byte>, more: seq<byte>)
    ensures CipherText(k, mode, c, text + more) ==
            CipherText(k, mode, c, text) + if mode == Encrypt then k.Crypt(c, |text|, more) else more
  {
    hide k.Crypt;
    k.CryptAppend(c, 0, text, more);
  }

  /** n bytes of a block taken from the keystream buffer are the next n bytes of the keystream. */
  lemma BufferedKey(k: Key, mode: Mode, c: Block, n: nat, ctr: Block, cryp: seq<byte>, src: seq<byte>, out: seq<byte>)
    requires Ready(k, mode, c, n, ctr, cryp) && n % 16 + |src| <= 16 && |out| == |src|
    requires forall i :: 0 <= i < |src| ==> out[i] == cryp[n % 16 + i] ^ src[i]
    ensures out == k.Crypt(c, n, src)
  {
    forall i | 0 <= i < |src| ensures out[i] == src[i] ^ k.KeyByte(c, n + i) {
      assert n / 16 * 16 + (n % 16 + i) == n + i;
      XorByte(cryp[n % 16 + i], src[i]);
    }
  }

  lemma XorByte(a: byte, b: byte)
    ensures a ^ b == b ^ a
  {
  }

  lemma FreshKey(k: Key, c: Block, n: nat, cryp: Block)
    requires n % 16 == 0 && cryp == k.enc(IncN(n / 16, c))
    ensures forall j :: 0 <= j < 16 ==> cryp[j] == k.KeyByte(c, n / 16 * 16 + j)
  {
  }

  lemma KeyedReady(k: Key, mode: Mode, c: Block, n: nat, ctr: Block, cryp: seq<byte>)
    requires Keyed(k, mode, c, n, ctr, cryp)
    ensures Ready(k, mode, c, n, ctr, if mode == Decrypt && n % 16 == 0 then k.enc(ctr) else cryp)
  {
    hide Inc;
  }

  lemma KeyedStart(k: Key, c: Block, cryp: seq<byte>)
    requires |cryp| == 16
    ensures Keyed(k, Encrypt, c, 0, Inc(c), k.enc(c)) && Keyed(k, Decrypt, c, 0, c, cryp)
  {
    hide Inc;
    FreshKey(k, c, 0, k.enc(c));
    assert IncN(1, c) == Inc(IncN(0, c));
  }

  lemma ReadyCounter(k: Key, mode: Mode, c: Block, n: nat, ctr: Block, cryp: seq<byte>)
    requires Ready(k, mode, c, n, ctr, cryp)
    ensures ctr == IncN(if mode == Encrypt then n / 16 + 1 else n / 16, c)
  {
  }

  lemma KeyedPartial(k: Key, mode: Mode, c: Block, n: nat, m: nat, ctr: Block, cryp: seq<byte>, cryp': seq<byte>)
    requires Ready(k, mode, c, n, ctr, cryp) && n % 16 + m < 16 && |cryp'| == 16
    requires cryp'[n % 16 + m..] == cryp[n % 16 + m..]
    ensures Keyed(k, mode, c, n + m, ctr, cryp')
  {
    hide Inc;
    assert (n + m) / 16 == n / 16 && (n + m) % 16 == n % 16 + m;
    forall j | (n + m) % 16 <= j < 16 ensures cryp'[j] == k.KeyByte(c, (n + m) / 16 * 16 + j) {
      assert cryp'[j] == cryp'[n % 16 + m..][j - (n % 16 + m)];
    }
  }

  lemma KeyedFull(k: Key, mode: Mode, c: Block, n: nat, m: nat, ctr: Block, cryp: seq<byte>)
    requires n % 16 + m == 16 && |cryp| == 16
    requires ctr == IncN(if mode == Encrypt then n / 16 + 1 else n / 16, c)
    requires mode == Encrypt ==> cryp == k.enc(ctr)
    ensures Keyed(k, mode, c, n + m, Inc(ctr), cryp)
  {
    hide Inc;
    assert (n + m) / 16 == n / 16 + 1 && (n + m) % 16 == 0;
    if mode == Encrypt {
      FreshKey(k, c, n + m, cryp);
    }
  }

  // ----- The context

  ghost predicate MulFor(mul: Block -> Block, subkey: Block) {
    forall y: Block :: mul(y) == GhashMul(subkey, y)
  }

  /** The key of a block cipher: GHASH multiplies by the encryption of the zero block. */
  function MakeKey(enc: Block -> Block): Key {
    Key(enc, y => GhashMul(enc(ZERO_BLOCK), y))
  }

  lemma MakeKeyMul(enc: Block -> Block)
    ensures MulFor(MakeKey(enc).mul, enc(ZERO_BLOCK))
  {
    hide GhashMul;
  }

  /** The hash key multiplies as section 6.3 of NIST SP 800-38D says, and GHASH is the sum of section 6.4. */
  lemma HashKeyStandard(enc: Block -> Block, y: Block, data: seq<byte>)
    requires |data| % 16 == 0
    ensures var k := MakeKey(enc);
            && Gf128.Coefficients(k.mul(y)) ==
               Reduced(Product(Gf128.Coefficients(enc(ZERO_BLOCK)), Gf128.Coefficients(y)))
            && k.Ghash(y, data) == Xor(k.Power(|data| / 16, y), k.Terms(data))
  {
    hide GhashMul, Gf128.Coefficients, Reduced, Product, Key.Ghash, Key.Power, Key.Terms, Xor;
    var k, h := MakeKey(enc), enc(ZERO_BLOCK);
    GhashMulIs(h, y);
    forall a: Block, b: Block ensures k.mul(Xor(a, b)) == Xor(k.mul(a), k.mul(b)) {
      GhashMulAdds(h, a, b);
    }
    k.GhashIsSum(y, data);
  }

  class Context {
    const k: Key
    const mode: Mode
    const tableBased: bool
    const subkey: Block
    const hl: array<bv64>
    const hh: array<bv64>
    const bufTag: array<byte>
    const bufHash: array<byte>
    const bufCryp: array<byte>
    const tagLen: nat
    var ctr: Block
    var hashState: Block
    var aadBytes: nat
    var payloadBytes: nat
    var bufPos: nat

    /** What was handed in: the nonce, the AAD, the AAD as hashed, and the payload. */
    ghost const nonce: seq<byte>
    ghost var aad: seq<byte>
    ghost var hashed: seq<byte>
    ghost var text: seq<byte>

    ghost function C(): Block {
      k.FirstCounter(nonce)
    }

    ghost predicate Shape() {
      && bufTag.Length == bufHash.Length == bufCryp.Length == 16
      && hl.Length == hh.Length == 16 && hl != hh
      && bufTag != bufHash && bufTag != bufCryp && bufHash != bufCryp
      && tagLen <= 16
    }

    ghost predicate KeySet()
      reads hl, hh
    {
      && Shape()
      && MulFor(k.mul, subkey)
      && (tableBased ==> TableFor(hl[..], hh[..], Gf128.FromBytes(subkey)))
    }

    /** The hash, continued from y, has taken in data; what does not fill a block is buffered. */
    ghost predicate Holding(y: Block, data: seq<byte>)
      reads this`hashState, this`bufPos, bufHash
    {
      Buffered(k, y, data, hashState, bufHash[..], bufPos)
    }

    ghost predicate InAad()
      reads this`text, this`hashed, this`hashState, this`bufPos, bufHash
    {
      text == [] && Holding(ZERO_BLOCK, hashed)
    }

    ghost predicate InPayload()
      reads this`text, this`hashed, this`hashState, this`bufPos, bufHash
    {
      && |hashed| % 16 == 0
      && Holding(k.Ghash(ZERO_BLOCK, hashed), CipherText(k, mode, C(), text))
    }

    ghost predicate Valid()
      reads this, hl, hh, bufTag, bufHash, bufCryp
    {
      && KeySet()
      && bufTag[..] == k.enc(k.J0(nonce))
      && aadBytes == Wrap(|aad|) && payloadBytes == Wrap(|text|)
      && Keyed(k, mode, C(), |text|, ctr, bufCryp[..])
      && (if text == [] then InAad() else InPayload())
    }

    /** A fresh context: the first counter block, and for encryption the first keystream block. */
    constructor (enc: Block -> Block, tableBased: bool, mode: Mode, nonce: seq<byte>, tagLen: nat)
      requires tagLen <= 16
      ensures Valid() && k == MakeKey(enc) && this.mode == mode && this.nonce == nonce && this.tagLen == tagLen
      ensures aad == hashed == text == []
      ensures fresh(hl) && fresh(hh) && fresh(bufTag) && fresh(bufHash) && fresh(bufCryp)
    {
      k, this.mode, this.tableBased, subkey := MakeKey(enc), mode, tableBased, enc(ZERO_BLOCK);
      hl, hh := new bv64[16], new bv64[16];
      bufTag, bufHash, bufCryp := new byte[16], new byte[16], new byte[16];
      this.tagLen, this.nonce := tagLen, nonce;
      ctr, hashState := ZERO_BLOCK, ZERO_BLOCK;
      aadBytes, payloadBytes, bufPos := 0, 0, 0;
      aad, hashed, text := [], [], [];
      new;
      hide GhashMul, Gf128.FromBytes, TableFor, MulFor, Valid, Inc;
      MakeKeyMul(enc);
      if tableBased {
        GenTable(hl, hh, subkey);
      }
      Start(nonce);
    }

    method Start(nonce: seq<byte>)
      requires nonce == this.nonce && KeySet() && hashState == ZERO_BLOCK && aadBytes == payloadBytes == bufPos == 0
      requires aad == hashed == text == []
      modifies this`ctr, this`hashState, bufTag, bufCryp
      ensures Valid()
    {
      hide *;
      KeySetShape();
      SetFirstCounter(nonce);
      CopyInto(bufTag, 0, k.enc(ctr));
      assert bufTag[..] == k.enc(ctr);
      ctr := Inc(ctr);
      KeyedStart(k, ctr, bufCryp[..]);
      if mode == Encrypt {
        CopyInto(bufCryp, 0, k.enc(ctr));
        assert bufCryp[..] == k.enc(ctr);
        ctr := Inc(ctr);
      }
      ValidStart(Inc(k.J0(nonce)));
    }

    lemma ValidStart(c: Block)
      requires KeySet() && hashState == ZERO_BLOCK && aadBytes == payloadBytes == bufPos == 0
      requires aad == hashed == text == [] && bufTag[..] == k.enc(k.J0(nonce))
      requires c == Inc(k.J0(nonce)) && Keyed(k, mode, c, 0, ctr, bufCryp[..])
      ensures Valid()
    {
      hide MulFor, TableFor, Inc, Keyed, k.J0;
    }

    method SetFirstCounter(nonce: seq<byte>)
      requires KeySet() && hashState == ZERO_BLOCK
      modifies this`ctr, this`hashState
      ensures ctr == k.J0(nonce) && hashState == ZERO_BLOCK
    {
      hide MulFor, TableFor, Inc, Lengths;
      if |nonce| == 12 {
        ctr := Inc(nonce + Zeros(4));
      } else {
        HashPadZero(nonce);
        k.GhashBlock(hashState, Lengths(0, |nonce|));
        HashBlock(Lengths(0, |nonce|));
        ctr := hashState;
        hashState := ZERO_BLOCK;
      }
    }

    /** Whole blocks, then the rest padded with zeros. */
    method HashPadZero(data: seq<byte>)
      requires KeySet()
      modifies this`hashState
      ensures hashState == k.Ghash(old(hashState), Pad(data))
    {
      hide MulFor, TableFor;
      var n := |data| / 16;
      ghost var y := hashState;
      HashBlocks(data, n);
      if |data| - n * 16 > 0 {
        var block: Block := data[n * 16..] + Zeros(16 - (|data| - n * 16));
        assert Pad(data) == data[..16 * n] + block;
        k.GhashAppend(y, data[..16 * n], block);
        k.GhashBlock(hashState, block);
        HashBlock(block);
      } else {
        assert Pad(data) == data[..16 * n];
      }
    }

    /** One block into the hash, by whichever multiplier the build has. */
    method HashBlock(b: Block)
      requires KeySet()
      modifies this`hashState
      ensures hashState == k.mul(Xor(old(hashState), b))
    {
      hide TableFor, Gf128.FromBytes, Gf128.ToBytes, Gf128.Mul;
      var y: Block := Xor(hashState, b);
      ghost var product := k.mul(y);
      assert product == GhashMul(subkey, y);
      TableOrder(subkey, y);
      if tableBased {
        hashState := MultTable(hl, hh, y, Gf128.FromBytes(subkey));
      } else {
        hashState := Gf128.GfMul(subkey, y);
      }
    }

    /** A run of whole blocks into the hash. */
    method HashBlocks(data: seq<byte>, n: nat)
      requires KeySet() && 16 * n <= |data|
      modifies this`hashState
      ensures hashState == k.Ghash(old(hashState), data[..16 * n])
    {
      hide MulFor;
      for i := 0 to n
        invariant hashState == k.Ghash(old(hashState), data[..16 * i])
      {
        var b: Block := data[16 * i..16 * i + 16];
        assert data[..16 * (i + 1)] == data[..16 * i] + b;
        k.GhashAppend(old(hashState), data[..16 * i], b);
        k.GhashBlock(hashState, b);
        HashBlock(b);
      }
    }

    /** A filled hash buffer that is still to be hashed. */
    ghost predicate Pending(y: Block, data: seq<byte>)
      reads this`hashState, this`bufPos, bufHash
    {
      && bufPos == 0 && bufHash.Length == 16
      && Buffered(k, y, data, k.mul(Xor(hashState, bufHash[..])), bufHash[..], 0)
    }

    method BufferAad(d: seq<byte>, ghost y: Block, ghost before: seq<byte>) returns (full: bool)
      requires KeySet() && Holding(y, before) && bufPos + |d| <= 16
      modifies this`bufPos, bufHash
      ensures KeySet() && full == (old(bufPos) + |d| == 16)
      ensures if full then Pending(y, before + d) else Holding(y, before + d)
    {
      hide MulFor, TableFor;
      ghost var buf := bufHash[..];
      CopyInto(bufHash, bufPos, d);
      full := bufPos + |d| == 16;
      if full {
        BufferFull(k, y, before, hashState, buf, bufPos, d, bufHash[..]);
        bufPos := 0;
      } else {
        BufferSome(k, y, before, hashState, buf, bufPos, d);
        bufPos := bufPos + |d|;
      }
    }

    /** The optional head block, then n blocks of data. */
    method HashAad(head: bool, data: seq<byte>, n: nat, ghost y: Block, ghost before: seq<byte>)
      requires KeySet() && 16 * n <= |data|
      requires if head then Pending(y, before) else Holding(y, before) && bufPos == 0
      modifies this`hashState
      ensures Holding(y, before + data[..16 * n]) && bufPos == 0
    {
      hide MulFor, TableFor;
      if head {
        HashBlock(bufHash[..]);
      }
      ghost var h := hashState;
      HashBlocks(data, n);
      BufferBlocks(k, y, before, h, bufHash[..], data[..16 * n], bufHash[..]);
    }

    /**
     The loop over a buffer at the given address.  `head` is set once the hash buffer has been filled and, as in
     the code, never cleared: the last invariant shows no iteration can hash the same head again.
     */
    method AbsorbAad(data: seq<byte>, address: nat, ghost y: Block, ghost before: seq<byte>)
      requires KeySet() && Holding(y, before)
      modifies this`hashState, this`bufPos, bufHash
      ensures Holding(y, before + data)
    {
      hide *;
      var off, head := 0, false;
      assert before + data[..0] == before;
      while off < |data|
        invariant off <= |data| && KeySet() && Holding(y, before + data[..off])
        invariant head && off < |data| ==> bufPos != 0 || !Aligned(address + off) || |data| - off < 16
      {
        BufferPosition(y, before + data[..off]);
        if bufPos != 0 || !Aligned(address + off) || |data| - off < 16 {
          var n := if 16 - bufPos < |data| - off then 16 - bufPos else |data| - off;
          head := BufferAad(data[off..off + n], y, before + data[..off]);
          NextSlice(data, off, n);
          AppendAssociates(before, data[..off], data[off..off + n]);
          off := off + n;
          if !head {
            assert data[..off] == data;
            return;
          }
        }
        var n := if Aligned(address + off) then (|data| - off) / 16 else 0;
        HashAad(head, data[off..], n, y, before + data[..off]);
        NextSlice(data, off, 16 * n);
        AppendAssociates(before, data[..off], data[off..off + 16 * n]);
        off := off + 16 * n;
      }
      assert data[..off] == data;
    }

    /**
     Additional data is refused while the 32-bit count of payload bytes is not zero.  After a payload of a multiple
     of 2^32 bytes it is taken, and hashed as if it were more ciphertext.
     */
    method UpdateAad(data: seq<byte>, address: nat) returns (res: Status)
      requires Valid()
      modifies this`aad, this`aadBytes, this`hashed, this`hashState, this`bufPos, bufHash
      ensures res == if Wrap(|text|) == 0 then Success else BadParameters
      ensures res != Success ==> Valid() && aad == old(aad) && hashed == old(hashed)
      ensures text == [] ==> Valid() && aad == old(aad) + data && hashed == old(hashed) + data
      ensures res == Success && text != [] ==>
                && hashed == old(hashed)
                && Holding(k.Ghash(ZERO_BLOCK, Pad(hashed)), CipherText(k, mode, C(), text) + data)
    {
      hide *;
      AadStart();
      if payloadBytes != 0 {
        return BadParameters;
      }
      WrapSum(|aad|, |data|);
      aadBytes := Wrap(aadBytes + |data|);
      aad := aad + data;
      ghost var y := if text == [] then ZERO_BLOCK else k.Ghash(ZERO_BLOCK, hashed);
      ghost var before := if text == [] then hashed else CipherText(k, mode, C(), text);
      AbsorbAad(data, address, y, before);
      PadPadded(hashed);
      if text == [] {
        hashed := hashed + data;
        AadValid();
      }
      return Success;
    }

    lemma AadStart()
      requires Valid()
      ensures KeySet() && bufTag[..] == k.enc(k.J0(nonce)) && Keyed(k, mode, C(), |text|, ctr, bufCryp[..])
      ensures aadBytes == Wrap(|aad|) && payloadBytes == Wrap(|text|) && bufTag != bufHash && bufCryp != bufHash
      ensures text == [] ==> Holding(ZERO_BLOCK, hashed) && payloadBytes == 0
      ensures text != [] ==> |hashed| % 16 == 0 && Holding(k.Ghash(ZERO_BLOCK, hashed), CipherText(k, mode, C(), text))
    {
      hide MulFor, TableFor, Keyed, Buffered;
    }

    lemma AadValid()
      requires KeySet() && bufTag[..] == k.enc(k.J0(nonce)) && Keyed(k, mode, C(), |text|, ctr, bufCryp[..])
      requires aadBytes == Wrap(|aad|) && payloadBytes == Wrap(|text|) && text == [] && Holding(ZERO_BLOCK, hashed)
      ensures Valid()
    {
    }

    lemma BufferPosition(y: Block, data: seq<byte>)
      requires Holding(y, data)
      ensures bufPos < 16
    {
    }

    ghost predicate Payload()
      reads this`ctr, this`text, this`hashed, this`hashState, this`bufPos, hl, hh, bufHash, bufCryp
    {
      KeySet() && InPayload() && Keyed(k, mode, C(), |text|, ctr, bufCryp[..])
    }

    lemma PayloadPosition()
      requires InPayload()
      ensures bufPos == |text| % 16
    {
    }

    /** Makes sure the keystream block is in the buffer. */
    method PrepareKey(m: Mode)
      requires Payload() && m == mode
      modifies bufCryp
      ensures KeySet() && InPayload() && bufPos == |text| % 16
      ensures Ready(k, mode, C(), |text|, ctr, bufCryp[..])
    {
      hide MulFor, TableFor, InPayload, Keyed, Ready, C;
      PayloadPosition();
      KeyedReady(k, mode, C(), |text|, ctr, bufCryp[..]);
      if bufPos == 0 && m == Decrypt {
        CopyInto(bufCryp, 0, k.enc(ctr));
        assert bufCryp[..] == k.enc(ctr);
      }
    }

    method XorKey(s: seq<byte>) returns (out: seq<byte>)
      requires Shape() && bufPos == |text| % 16 && bufPos + |s| <= 16
      requires Ready(k, mode, C(), |text|, ctr, bufCryp[..])
      modifies bufCryp
      ensures out == k.Crypt(C(), |text|, s)
      ensures bufCryp[bufPos + |s|..] == old(bufCryp[bufPos + |s|..])
    {
      hide Inc, C;
      ghost var cryp := bufCryp[..];
      XorInto(bufCryp, bufPos, s);
      out := bufCryp[bufPos..bufPos + |s|];
      BufferedKey(k, mode, C(), |text|, ctr, cryp, s, out);
    }

    /** The ciphertext of s joins the hash buffer, which is hashed when full. */
    method BufferPayload(covered: seq<byte>, ghost s: seq<byte>) returns (full: bool)
      requires KeySet() && InPayload() && bufPos + |s| <= 16
      requires covered == if mode == Encrypt then k.Crypt(C(), |text|, s) else s
      modifies this`hashState, this`bufPos, this`text, bufHash
      ensures KeySet() && InPayload() && text == old(text) + s
      ensures full == (old(bufPos) + |s| == 16)
    {
      hide *;
      KeySetShape();
      PayloadBuffered();
      ghost var hash, pos := bufHash[..], bufPos;
      ghost var y, cipher := k.Ghash(ZERO_BLOCK, hashed), CipherText(k, mode, C(), text);
      CipherTextAppend(k, mode, C(), text, s);
      CopyInto(bufHash, bufPos, covered);
      full := bufPos + |covered| == 16;
      if full {
        assert bufHash[..] == hash[..pos] + covered;
        BufferFull(k, y, cipher, hashState, hash, pos, covered, bufHash[..]);
        HashBlock(bufHash[..]);
        bufPos := 0;
      } else {
        BufferSome(k, y, cipher, hashState, hash, pos, covered);
        bufPos := bufPos + |covered|;
      }
      text := text + s;
      BufferedPayload();
    }

    lemma PayloadBuffered()
      requires InPayload()
      ensures |hashed| % 16 == 0
      ensures Buffered(k, k.Ghash(ZERO_BLOCK, hashed), CipherText(k, mode, C(), text), hashState, bufHash[..], bufPos)
    {
    }

    lemma BufferedPayload()
      requires |hashed| % 16 == 0
      requires Buffered(k, k.Ghash(ZERO_BLOCK, hashed), CipherText(k, mode, C(), text), hashState, bufHash[..], bufPos)
      ensures InPayload()
    {
    }

    /** Up to the end of the current block. */
    method CryptPartial(m: Mode, s: seq<byte>) returns (out: seq<byte>)
      requires Payload() && m == mode && bufPos + |s| <= 16
      modifies this`ctr, this`hashState, this`bufPos, this`text, bufHash, bufCryp
      ensures Payload() && text == old(text) + s
      ensures out == k.Crypt(C(), |old(text)|, s)
    {
      hide MulFor, TableFor, Inc, Keyed, Buffered, Ready, C, InPayload;
      PrepareKey(m);
      ghost var cryp, n := bufCryp[..], |text|;
      out := XorKey(s);
      var full := BufferPayload(if m == Encrypt then out else s, s);
      if full {
        if m == Encrypt {
          CopyInto(bufCryp, 0, k.enc(ctr));
          assert bufCryp[..] == k.enc(ctr);
        }
        ReadyCounter(k, mode, C(), n, ctr, cryp);
        KeyedFull(k, mode, C(), n, |s|, ctr, bufCryp[..]);
        ctr := Inc(ctr);
      } else {
        KeyedPartial(k, mode, C(), n, |s|, ctr, cryp, bufCryp[..]);
      }
    }

    /** A whole ciphertext block goes to the hash past the buffer. */
    method HashPayloadBlock(b: Block, ghost src: Block)
      requires KeySet() && InPayload() && bufPos == 0
      requires b == if mode == Encrypt then k.Crypt(C(), |text|, src) else src
      modifies this`hashState, this`text
      ensures InPayload() && text == old(text) + src
    {
      hide MulFor, TableFor, C;
      CipherTextAppend(k, mode, C(), text, src);
      k.GhashBlock(hashState, b);
      ghost var c := CipherText(k, mode, C(), text);
      BufferBlocks(k, k.Ghash(ZERO_BLOCK, hashed), c, hashState, bufHash[..], b, bufHash[..]);
      HashBlock(b);
      text := text + src;
    }

    /** One whole block, with the keystream block computed ahead. */
    method EncryptBlock(src: Block) returns (dst: Block)
      requires Payload() && mode == Encrypt && bufPos == 0
      modifies this`ctr, this`hashState, this`text, bufCryp
      ensures Payload() && text == old(text) + src
      ensures dst == k.Crypt(C(), |old(text)|, src)
    {
      hide MulFor, TableFor, Inc, Keyed, Ready, C, InPayload;
      PayloadPosition();
      ghost var n, cryp := |text|, bufCryp[..];
      KeyedReady(k, mode, C(), n, ctr, cryp);
      ReadyCounter(k, mode, C(), n, ctr, cryp);
      dst := XorKey(src);
      HashPayloadBlock(dst, src);
      CopyInto(bufCryp, 0, k.enc(ctr));
      assert bufCryp[..] == k.enc(ctr);
      KeyedFull(k, mode, C(), n, 16, ctr, bufCryp[..]);
      ctr := Inc(ctr);
    }

    /** One whole block, with the keystream block computed on demand. */
    method DecryptBlock(src: Block) returns (dst: Block)
      requires Payload() && mode == Decrypt && bufPos == 0
      modifies this`ctr, this`hashState, this`text, bufCryp
      ensures Payload() && text == old(text) + src
      ensures dst == k.Crypt(C(), |old(text)|, src)
    {
      hide MulFor, TableFor, Inc, Keyed, Ready, C, InPayload;
      PayloadPosition();
      ghost var n, ctr0 := |text|, ctr;
      KeyedReady(k, mode, C(), n, ctr, bufCryp[..]);
      ReadyCounter(k, mode, C(), n, ctr, k.enc(ctr));
      CopyInto(bufCryp, 0, k.enc(ctr));
      assert bufCryp[..] == k.enc(ctr);
      dst := XorKey(src);
      KeyedFull(k, mode, C(), n, 16, ctr, bufCryp[..]);
      ctr := Inc(ctr);
      HashPayloadBlock(src, src);
    }

    /** A run of whole blocks. */
    method CryptBlocks(m: Mode, src: seq<byte>, n: nat) returns (dst: seq<byte>)
      requires Payload() && m == mode && bufPos == 0 && |src| == 16 * n
      modifies this`ctr, this`hashState, this`text, bufCryp
      ensures Payload() && text == old(text) + src
      ensures dst == k.Crypt(C(), |old(text)|, src)
    {
      hide *;
      dst := [];
      assert src[..0] == [] && old(text) + src[..0] == text;
      k.CryptAppend(C(), |text|, [], []);
      for i := 0 to n
        invariant Payload() && text == old(text) + src[..16 * i]
        invariant dst == k.Crypt(C(), |old(text)|, src[..16 * i])
      {
        var b: Block := src[16 * i..16 * i + 16];
        var out: Block;
        k.CryptAppend(C(), |old(text)|, src[..16 * i], b);
        if m == Encrypt {
          out := EncryptBlock(b);
        } else {
          out := DecryptBlock(b);
        }
        assert src[..16 * i] + b == src[..16 * (i + 1)];
        dst := dst + out;
      }
      assert src[..16 * n] == src;
    }

    /** The last partial block of additional data, padded with zeros. */
    method PadAad()
      requires KeySet() && InAad() && bufPos != 0
      modifies this`hashState, this`bufPos, this`hashed, bufHash
      ensures InAad() && bufPos == 0 && hashed == Pad(old(hashed))
    {
      hide MulFor, TableFor;
      ghost var buf := bufHash[..];
      CopyInto(bufHash, bufPos, Zeros(16 - bufPos));
      BufferPad(k, ZERO_BLOCK, hashed, hashState, buf, bufPos, bufHash[..]);
      HashBlock(bufHash[..]);
      bufPos := 0;
      hashed := Pad(hashed);
      assert hashed[..|hashed|] == hashed;
    }

    lemma AadIsPayload()
      requires InAad() && bufPos == 0
      ensures InPayload() && Pad(hashed) == hashed
    {
      PadPadded(hashed);
      PhaseChange(k, hashed, hashState, bufHash[..]);
    }

    /** Ends the additional data and turns to the payload. */
    method EnterPayload()
      requires Valid()
      modifies this`hashState, this`bufPos, this`hashed, bufHash
      ensures Payload() && bufTag[..] == old(bufTag[..])
      ensures hashed == if text == [] then Pad(old(hashed)) else old(hashed)
    {
      hide MulFor, TableFor, Keyed, Buffered, InAad, InPayload, C;
      if text != [] {
        PayloadPosition();
        WrapBlocks(|text|);
      }
      if payloadBytes == 0 && bufPos != 0 {
        PadAad();
      }
      if text == [] {
        AadIsPayload();
      }
    }

    /** The loop over one call's payload. */
    method CryptAll(m: Mode, src: seq<byte>) returns (dst: seq<byte>)
      requires Payload() && m == mode
      modifies this`ctr, this`hashState, this`bufPos, this`text, bufHash, bufCryp
      ensures Payload() && text == old(text) + src
      ensures dst == k.Crypt(C(), |old(text)|, src)
    {
      hide *;
      dst := [];
      var off := 0;
      assert src[..0] == [] && old(text) + src[..0] == text;
      k.CryptAppend(C(), |text|, [], []);
      while off < |src|
        invariant off <= |src| && Payload() && text == old(text) + src[..off]
        invariant dst == k.Crypt(C(), |old(text)|, src[..off])
      {
        var n, out := 0, [];
        PayloadBounds();
        if bufPos != 0 || |src| - off < 16 {
          n := if 16 - bufPos < |src| - off then 16 - bufPos else |src| - off;
          out := CryptPartial(m, src[off..off + n]);
        } else {
          n := (|src| - off) / 16 * 16;
          out := CryptBlocks(m, src[off..off + n], n / 16);
        }
        k.CryptAppend(C(), |old(text)|, src[..off], src[off..off + n]);
        NextSlice(src, off, n);
        dst := dst + out;
        off := off + n;
      }
      assert src[..off] == src;
    }

    lemma PayloadBounds()
      requires Payload()
      ensures bufPos < 16
    {
    }

    /** Payload in, the same number of bytes out. */
    method UpdatePayload(m: Mode, src: seq<byte>) returns (dst: seq<byte>)
      requires Valid() && m == mode
      modifies this`ctr, this`hashState, this`bufPos, this`payloadBytes, this`hashed, this`text, bufHash, bufCryp
      ensures Valid()
      ensures text == old(text) + src && hashed == if old(text) == [] then Pad(old(hashed)) else old(hashed)
      ensures dst == k.Crypt(C(), |old(text)|, src)
    {
      hide *;
      ValidFacts();
      EnterPayload();
      WrapSum(|text|, |src|);
      payloadBytes := Wrap(payloadBytes + |src|);
      dst := CryptAll(m, src);
      PayloadValid();
    }

    lemma PayloadValid()
      requires Payload() && bufTag[..] == k.enc(k.J0(nonce))
      requires aadBytes == Wrap(|aad|) && payloadBytes == Wrap(|text|)
      ensures Valid()
    {
      hide MulFor, TableFor, Keyed, Buffered, C;
      if text == [] {
        PhaseChange(k, hashed, hashState, bufHash[..]);
        PayloadPosition();
      }
    }

    /** The tag of everything handed in. */
    ghost function FinalTag(cipher: seq<byte>): seq<byte>
      requires Shape()
      reads this`hashed, this`aad
    {
      k.Tag(nonce, hashed, |aad|, cipher, tagLen)
    }

    /** After the last payload byte: the pad, the lengths and the tag. */
    method HashEnd()
      requires Valid() && bufPos == |text| % 16 && |hashed| % 16 == 0
      modifies this`hashState, bufHash
      ensures Shape() && bufTag[..] == old(bufTag[..])
      ensures hashState == k.Digest(hashed, |aad|, CipherText(k, mode, C(), text))
    {
      hide MulFor, TableFor, Keyed, Lengths, C;
      ghost var y, cipher := k.Ghash(ZERO_BLOCK, hashed), CipherText(k, mode, C(), text);
      PadPadded(hashed);
      if text == [] {
        PhaseChange(k, hashed, hashState, bufHash[..]);
      }
      assert Buffered(k, y, cipher, hashState, bufHash[..], bufPos);
      ghost var buf := bufHash[..];
      if bufPos != 0 {
        CopyInto(bufHash, bufPos, Zeros(16 - bufPos));
      }
      BufferPad(k, y, cipher, hashState, buf, bufPos, bufHash[..]);
      if bufPos != 0 {
        HashBlock(bufHash[..]);
      }
      LengthsWrap(|aad|, |text|);
      k.GhashBlock(hashState, Lengths(|aad|, |text|));
      HashBlock(Lengths(aadBytes, payloadBytes));
    }

    method OperationFinal(m: Mode, src: seq<byte>) returns (dst: seq<byte>)
      requires Valid() && m == mode
      modifies this, bufTag, bufHash, bufCryp
      ensures text == old(text) + src && aad == old(aad)
      ensures hashed == if old(text) == [] then Pad(old(hashed)) else old(hashed)
      ensures dst == k.Crypt(C(), |old(text)|, src)
      ensures Shape() && bufTag[..tagLen] == FinalTag(CipherText(k, mode, C(), text))
    {
      hide *;
      ValidFacts();
      dst := UpdatePayload(m, src);
      AfterPayload();
      ValidFacts();
      HashEnd();
      XorInto(bufTag, 0, hashState[..tagLen]);
      TagBytes(k, nonce, hashed, |aad|, CipherText(k, mode, C(), text), tagLen, bufTag[..]);
      FinalTagUnfolds(CipherText(k, mode, C(), text));
    }

    lemma FinalTagUnfolds(cipher: seq<byte>)
      requires Shape()
      ensures FinalTag(cipher) == k.Tag(nonce, hashed, |aad|, cipher, tagLen)
    {
    }

    lemma FirstCounterHere()
      ensures C() == k.FirstCounter(nonce)
    {
    }

    lemma KeySetShape()
      requires KeySet()
      ensures bufTag.Length == bufHash.Length == bufCryp.Length == 16
      ensures bufTag != bufCryp && bufHash != bufCryp && bufTag != bufHash
    {
    }

    lemma ValidFacts()
      requires Valid()
      ensures Shape() && KeySet() && bufTag[..] == k.enc(k.J0(nonce)) && bufTag.Length == 16 && tagLen <= 16
      ensures bufTag != bufHash && bufTag != bufCryp
      ensures text != [] ==> |hashed| % 16 == 0
      ensures aadBytes == Wrap(|aad|) && payloadBytes == Wrap(|text|)
    {
    }

    lemma AfterPayload()
      requires Valid() && |hashed| % 16 == 0
      ensures bufPos == |text| % 16
    {
    }

    method EncFinal(src: seq<byte>, tagRoom: nat) returns (res: Status, dst: seq<byte>, tag: seq<byte>)
      requires Valid() && mode == Encrypt
      modifies this, bufTag, bufHash, bufCryp
      ensures res == if tagRoom < tagLen then ShortBuffer else Success
      ensures res == Success ==> dst == k.Crypt(C(), |old(text)|, src)
      ensures res == Success ==>
                var all := k.Crypt(C(), 0, old(text) + src);
                Shape() && tag == k.Tag(nonce, old(hashed), |old(aad)|, all, tagLen)
      ensures res != Success ==> unchanged(this) && unchanged(bufTag, bufHash, bufCryp)
    {
      hide Valid, C, k.J0, k.Digest;
      dst, tag := [], [];
      if tagRoom < tagLen {
        return ShortBuffer, dst, tag;
      }
      ValidFacts();
      dst := OperationFinal(Encrypt, src);
      tag := bufTag[..tagLen];
      PadPadded(old(hashed));
      DigestPadded(k, old(hashed), |aad|, CipherText(k, mode, C(), text));
      res := Success;
    }


    method DecFinal(src: seq<byte>, tag: seq<byte>) returns (res: Status, dst: seq<byte>)
      requires Valid() && mode == Decrypt
      modifies this, bufTag, bufHash, bufCryp
      ensures |tag| != tagLen ==> res == MacInvalid && unchanged(this) && unchanged(bufTag, bufHash, bufCryp)
      ensures |tag| == tagLen ==> dst == k.Crypt(C(), |old(text)|, src)
      ensures Shape()
      ensures |tag| == tagLen ==>
                (res == Success <==> tag == k.Tag(nonce, old(hashed), |old(aad)|, old(text) + src, tagLen))
      ensures res == Success || res == MacInvalid
    {
      hide Valid, C, k.J0, k.Digest;
      ValidFacts();
      if |tag| != tagLen {
        return MacInvalid, [];
      }
      dst := OperationFinal(Decrypt, src);
      PadPadded(old(hashed));
      DigestPadded(k, old(hashed), |aad|, CipherText(k, mode, C(), text));
      res := if bufTag[..tagLen] == tag then Success else MacInvalid;
    }
  }

  // ----- Whole messages, in any chunks

  /** Initialisation refuses tags longer than a block. */
  method Init(enc: Block -> Block, tableBased: bool, mode: Mode, nonce: seq<byte>, tagLen: nat)
      returns (res: Status, ctx: Context?)
    ensures res == if tagLen > 16 then BadParameters else Success
    ensures res == Success <==> ctx != null
    ensures ctx != null ==> && fresh(ctx) && ctx.Valid() && ctx.k == MakeKey(enc) && ctx.mode == mode
                            && ctx.nonce == nonce && ctx.tagLen == tagLen && ctx.aad == ctx.hashed == ctx.text == []
  {
    if tagLen > 16 {
      return BadParameters, null;
    }
    ctx := new Context(enc, tableBased, mode, nonce, tagLen);
    return Success, ctx;
  }

  /** A stretch of additional data and the address it is read from. */
  datatype Chunk = Chunk(data: seq<byte>, address: nat)

  function JoinAad(chunks: seq<Chunk>): seq<byte> {
    if chunks == [] then [] else JoinAad(chunks[..|chunks| - 1]) + chunks[|chunks| - 1].data
  }

  /** Feeds every chunk of additional data to a fresh context. */
  method FeedAad(ctx: Context, chunks: seq<Chunk>)
    requires ctx.Valid() && ctx.text == ctx.aad == ctx.hashed == []
    modifies ctx, ctx.bufHash
    ensures ctx.Valid() && ctx.text == [] && ctx.aad == ctx.hashed == JoinAad(chunks)
  {
    hide ctx.Valid;
    for i := 0 to |chunks|
      invariant ctx.Valid() && ctx.text == [] && ctx.aad == ctx.hashed == JoinAad(chunks[..i])
    {
      assert chunks[..i + 1][..i] == chunks[..i];
      var res := ctx.UpdateAad(chunks[i].data, chunks[i].address);
    }
    assert chunks[..|chunks|] == chunks;
  }

  /** Feeds every payload chunk; the additional data is hashed as it was handed in. */
  method FeedPayload(ctx: Context, chunks: seq<seq<byte>>) returns (out: seq<byte>)
    requires ctx.Valid() && ctx.text == []
    modifies ctx, ctx.bufHash, ctx.bufCryp
    ensures ctx.Valid() && ctx.text == Join(chunks) && ctx.aad == old(ctx.aad)
    ensures Pad(ctx.hashed) == Pad(old(ctx.hashed))
    ensures out == ctx.k.Crypt(ctx.C(), 0, Join(chunks))
  {
    hide ctx.Valid, ctx.C, Pad;
    out := [];
    for i := 0 to |chunks|
      invariant ctx.Valid() && ctx.text == Join(chunks[..i]) && ctx.aad == old(ctx.aad)
      invariant Pad(ctx.hashed) == Pad(old(ctx.hashed))
      invariant out == ctx.k.Crypt(ctx.C(), 0, Join(chunks[..i]))
    {
      assert chunks[..i + 1][..i] == chunks[..i];
      PadPadded(ctx.hashed);
      ctx.k.CryptAppend(ctx.C(), 0, Join(chunks[..i]), chunks[i]);
      var more := ctx.UpdatePayload(ctx.mode, chunks[i]);
      out := out + more;
    }
    assert chunks[..|chunks|] == chunks;
  }

  lemma TagBytes(k: Key, nonce: seq<byte>, a: seq<byte>, n: nat, c: seq<byte>, tagLen: nat, tag: seq<byte>)
    requires tagLen <= |tag| == 16
    requires forall i :: 0 <= i < tagLen ==> tag[i] == k.enc(k.J0(nonce))[i] ^ k.Digest(a, n, c)[i]
    ensures tag[..tagLen] == k.Tag(nonce, a, n, c, tagLen)
  {
    hide k.Digest, k.J0;
  }

  lemma DigestPadded(k: Key, a: seq<byte>, n: nat, c: seq<byte>)
    ensures k.Digest(Pad(a), n, c) == k.Digest(a, n, c)
  {
    hide Lengths;
    PadPadded(a);
  }
}
