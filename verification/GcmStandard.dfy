/** Where the code's GCM is the GCM of NIST SP 800-38D, and where it is not. */
module GcmStandard {
  import opened Bytes
  import opened BigEndian
  import opened Gf128
  import opened GcmSpec

  // ----- The counter step of the code is plus one on sixteen bytes

  function LowByte(w: bv64): byte {
    (w & 0xff) as byte
  }

  function Shr8(w: bv64): bv64 {
    w >> 8
  }

  function Succ(w: bv64): bv64 {
    w + 1
  }

  const ONES: bv64 := 0xffffffffffffffff

  /** The last k bytes of a word. */
  function BytesOf(k: nat, w: bv64): (r: seq<byte>)
    ensures |r| == k
  {
    if k == 0 then [] else BytesOf(k - 1, Shr8(w)) + [LowByte(w)]
  }

  lemma ShiftedBytes(w: bv64)
    ensures PutBe64(w) ==
            [LowByte(Shr8(Shr8(Shr8(Shr8(Shr8(Shr8(Shr8(w)))))))), LowByte(Shr8(Shr8(Shr8(Shr8(Shr8(Shr8(w))))))),
             LowByte(Shr8(Shr8(Shr8(Shr8(Shr8(w)))))), LowByte(Shr8(Shr8(Shr8(Shr8(w))))), LowByte(Shr8(Shr8(Shr8(w)))),
             LowByte(Shr8(Shr8(w))), LowByte(Shr8(w)), LowByte(w)]
  {
  }

  lemma WordBytes(w: bv64)
    ensures PutBe64(w) == BytesOf(8, w)
  {
    hide LowByte, PutBe64, Shr8;
    ShiftedBytes(w);
    var w1 := Shr8(w);
    var w2 := Shr8(w1);
    var w3 := Shr8(w2);
    var w4 := Shr8(w3);
    var w5 := Shr8(w4);
    var w6 := Shr8(w5);
    var w7 := Shr8(w6);
    assert BytesOf(1, w7) == BytesOf(0, Shr8(w7)) + [LowByte(w7)];
    assert BytesOf(2, w6) == BytesOf(1, w7) + [LowByte(w6)];
    assert BytesOf(3, w5) == BytesOf(2, w6) + [LowByte(w5)];
    assert BytesOf(4, w4) == BytesOf(3, w5) + [LowByte(w4)];
    assert BytesOf(5, w3) == BytesOf(4, w4) + [LowByte(w3)];
    assert BytesOf(6, w2) == BytesOf(5, w3) + [LowByte(w2)];
    assert BytesOf(7, w1) == BytesOf(6, w2) + [LowByte(w1)];
    assert BytesOf(8, w) == BytesOf(7, w1) + [LowByte(w)];
  }

  lemma WordCarry(w: bv64)
    ensures LowByte(w) != 255 ==> Shr8(Succ(w)) == Shr8(w) && LowByte(Succ(w)) == LowByte(w) + 1
    ensures LowByte(w) == 255 ==> LowByte(Succ(w)) == 0
    ensures LowByte(w) == 255 && w != ONES ==> Shr8(Succ(w)) == Succ(Shr8(w))
    ensures Shr8(Succ(ONES)) == 0 == Shr8(0) && LowByte(0) == 0 && Succ(Shr8(ONES)) == Top(7)
  {
    assert Top(6) == 0x1000000000000;
  }

  /** The word with a one at byte m and zeros elsewhere. */
  function Top(m: nat): bv64
    requires m <= 7
  {
    if m == 0 then 1 else Top(m - 1) << 8
  }

  lemma TopShift(m: nat)
    requires 0 < m <= 7
    ensures Shr8(Top(m)) == Top(m - 1) && LowByte(Top(m)) == 0
  {
    assert Top(1) == 0x100 && Top(2) == 0x10000 && Top(3) == 0x1000000 && Top(4) == 0x100000000;
    assert Top(5) == 0x10000000000 && Top(6) == 0x1000000000000 && Top(7) == 0x100000000000000;
  }

  lemma {:induction false} TopZeros(j: nat, m: nat)
    requires j <= m <= 7
    ensures BytesOf(j, Top(m)) == Zeros(j) == BytesOf(j, 0)
  {
    hide Top, Shr8, LowByte, Succ;
    if j > 0 {
      TopShift(m);
      TopZeros(j - 1, m - 1);
      WordCarry(0);
    }
  }

  lemma BytesNext(k: nat, w: bv64)
    requires k > 0
    ensures BytesOf(k, w) == BytesOf(k - 1, Shr8(w)) + [LowByte(w)]
  {
    hide Shr8, LowByte;
  }

  lemma BumpLast(s: seq<byte>, b: byte)
    ensures Bump(s + [b]) == if b == 255 then Bump(s) + [0] else s + [b + 1]
  {
    assert (s + [b])[..|s|] == s;
  }

  lemma {:induction false} BytesPlusOne(k: nat, w: bv64)
    requires k <= 8
    ensures BytesOf(k, Succ(w)) == Bump(BytesOf(k, w))
    decreases k
  {
    if k > 0 {
      hide Top, Shr8, LowByte, Succ, BytesOf, Bump;
      BytesNext(k, w);
      BytesNext(k, Succ(w));
      BumpLast(BytesOf(k - 1, Shr8(w)), LowByte(w));
      WordCarry(w);
      BytesPlusOne(k - 1, Shr8(w));
      if w == ONES {
        TopZeros(k - 1, 7);
      }
    }
  }

  lemma {:induction false} ZerosValue(n: nat)
    ensures Value(Zeros(n)) == 0
  {
    if n > 0 {
      ZerosValue(n - 1);
      assert Zeros(n)[..n - 1] == Zeros(n - 1);
      assert (0 as byte) as int == 0;
    }
  }

  lemma WordPlusOne(b: seq<byte>)
    requires |b| == 8
    ensures PutBe64(Succ(Be64(b))) == Bump(b)
    ensures Succ(Be64(b)) == 0 <==> Value(b) + 1 == Pow256(8)
  {
    hide Be64, PutBe64, Succ, BytesOf;
    var w := Be64(b);
    Be64Inverse(b);
    WordBytes(w);
    BytesPlusOne(8, w);
    WordBytes(Succ(w));
    PutBe64Inverse(Succ(w));
    PutBe64Inverse(0);
    BumpValue(b);
    ZerosValue(8);
    ZeroWord();
    if Value(b) + 1 == Pow256(8) {
      ValueInjective(Bump(b), Zeros(8));
    }
  }

  lemma ZeroWord()
    ensures PutBe64(0) == Zeros(8)
  {
  }

  lemma IncUnfolds(c: Block)
    ensures var lo := Succ(Be64(c[8..]));
            Inc(c) == (if lo == 0 then PutBe64(Succ(Be64(c[..8]))) else c[..8]) + PutBe64(lo)
  {
  }

  /** The two 64-bit halves with their carry are plus one modulo 2^128. */
  lemma IncIsPlusOne(c: Block)
    ensures Inc(c) == Bump(c)
    ensures Value(Inc(c)) == (Value(c) + 1) % Pow256(16)
  {
    hide Inc, Be64, PutBe64, Succ, Bump, Value, Pow256;
    IncUnfolds(c);
    WordPlusOne(c[..8]);
    WordPlusOne(c[8..]);
    BumpSplits(c[..8], c[8..]);
    assert c[..8] + c[8..] == c;
    BumpIsPlusOne(c);
  }

  // ----- inc32 of the standard

  /** inc32 of section 6.2: plus one on the last four bytes only. */
  function Inc32(c: Block): Block {
    c[..12] + Bump(c[12..])
  }

  function Inc32N(n: nat, c: Block): Block {
    if n == 0 then c else Inc32(Inc32N(n - 1, c))
  }

  /** The last 32 bits of a counter block, as a number. */
  function Low32(c: Block): nat {
    Value(c[12..])
  }

  lemma Pow256Values()
    ensures Pow256(4) == 0x1_0000_0000
  {
    assert Pow256(2) == 0x10000;
  }

  lemma {:induction false} BumpDiffers(s: seq<byte>)
    requires s != []
    ensures Bump(s) != s
  {
    if s[|s| - 1] != 255 {
      BytePlusOne(s[|s| - 1]);
    }
  }

  /** The full increment and inc32 part ways exactly when the last 32 bits are all ones. */
  lemma IncVersusInc32(c: Block)
    ensures Inc(c) == Inc32(c) <==> Low32(c) + 1 != 0x1_0000_0000
    ensures Low32(Inc32(c)) == if Low32(c) + 1 == 0x1_0000_0000 then 0 else Low32(c) + 1
  {
    hide Inc, Bump, Value;
    IncIsPlusOne(c);
    BumpSplits(c[..12], c[12..]);
    assert c[..12] + c[12..] == c;
    Pow256Values();
    BumpDiffers(c[..12]);
    assert (Bump(c[..12]) + Bump(c[12..]))[..12] == Bump(c[..12]);
    assert (c[..12] + Bump(c[12..]))[..12] == c[..12] && Inc32(c)[12..] == Bump(c[12..]);
    BumpValue(c[12..]);
  }

  lemma {:induction false} CountersMatch(n: nat, c: Block)
    requires Low32(c) + n < 0x1_0000_0000
    ensures IncN(n, c) == Inc32N(n, c) && Low32(Inc32N(n, c)) == Low32(c) + n
  {
    hide Inc, Inc32, Low32;
    if n > 0 {
      CountersMatch(n - 1, c);
      IncVersusInc32(Inc32N(n - 1, c));
    }
  }

  ghost predicate SameCounter(i: nat, c: Block) {
    IncN(i, c) == Inc32N(i, c)
  }

  /** The code walks the standard's counter sequence exactly as long as the last 32 bits do not wrap. */
  lemma CountersAgree(n: nat, c: Block)
    ensures (forall i :: 0 <= i <= n ==> SameCounter(i, c)) <==> Low32(c) + n < 0x1_0000_0000
  {
    hide Inc, Inc32, Low32;
    if Low32(c) + n < 0x1_0000_0000 {
      forall i | 0 <= i <= n ensures SameCounter(i, c) {
        CountersMatch(i, c);
      }
    } else {
      Low32Bound(c);
      var i := 0x1_0000_0000 - Low32(c);
      CountersMatch(i - 1, c);
      IncVersusInc32(Inc32N(i - 1, c));
      assert !SameCounter(i, c);
    }
  }

  lemma Low32Bound(c: Block)
    ensures Low32(c) < 0x1_0000_0000
  {
    ValueBound(c[12..]);
    Pow256Values();
  }

  // ----- Length fields

  /** The length block of section 7.1: both bit lengths in 64 bits. */
  function StdLengths(a: nat, c: nat): Block {
    Digits(8, 8 * a) + Digits(8, 8 * c)
  }

  lemma Pow256Eight()
    ensures Pow256(8) == 0x1_0000_0000_0000_0000
  {
    Pow256Values();
    assert Pow256(6) == 0x1_0000_0000_0000;
  }

  lemma DigitsInjective(m: nat, n: nat)
    requires m < Pow256(8) && n < Pow256(8)
    ensures Digits(8, m) == Digits(8, n) <==> m == n
  {
    hide Digits, Value, Pow256;
    DigitsValue(8, m);
    DigitsValue(8, n);
  }

  /** The 32-bit multiplication of the code keeps the lengths right exactly below 2^29 bytes. */
  lemma LengthsAgree(a: nat, c: nat)
    requires a < 0x2000_0000_0000_0000 && c < 0x2000_0000_0000_0000
    ensures Lengths(a, c) == StdLengths(a, c) <==> a < 0x2000_0000 && c < 0x2000_0000
  {
    hide Digits;
    Pow256Eight();
    DigitsInjective(BitCount(a), 8 * a);
    DigitsInjective(BitCount(c), 8 * c);
    assert Lengths(a, c)[..8] == Digits(8, BitCount(a)) && StdLengths(a, c)[..8] == Digits(8, 8 * a);
    assert Lengths(a, c)[8..] == Digits(8, BitCount(c)) && StdLengths(a, c)[8..] == Digits(8, 8 * c);
  }

  // ----- The whole construction

  function StdJ0(k: Key, nonce: seq<byte>): Block {
    hide *;
    if |nonce| == 12 then nonce + [0, 0, 0, 1]
    else k.Ghash(k.Ghash(ZERO_BLOCK, Pad(nonce)), StdLengths(0, |nonce|))
  }

  /** GCTR of section 6.5 from counter block c. */
  function StdCrypt(k: Key, c: Block, data: seq<byte>): seq<byte> {
    seq(|data|, i requires 0 <= i < |data| => data[i] ^ k.enc(Inc32N(i / 16, c))[i % 16])
  }

  /** GCM-AE of section 7.1. */
  function StdSeal(k: Key, nonce: seq<byte>, aad: seq<byte>, plaintext: seq<byte>, tagLen: nat): (seq<byte>, seq<byte>)
    requires tagLen <= 16
  {
    var j := StdJ0(k, nonce);
    var c := StdCrypt(k, Inc32(j), plaintext);
    var s := k.Ghash(k.Ghash(k.Ghash(ZERO_BLOCK, Pad(aad)), Pad(c)), StdLengths(|aad|, |c|));
    (c, Xor(k.enc(j), s)[..tagLen])
  }

  lemma J0Standard(k: Key, nonce: seq<byte>)
    requires |nonce| < 0x2000_0000
    ensures k.J0(nonce) == StdJ0(k, nonce)
    ensures |nonce| == 12 ==> Low32(k.J0(nonce)) == 1
  {
    if |nonce| == 12 {
      hide Inc;
      IncIsPlusOne(nonce + Zeros(4));
      var z := nonce + Zeros(4);
      assert Bump(z) == nonce + [0, 0, 0, 1];
      assert (nonce + [0, 0, 0, 1])[12..] == [0, 0, 0] + [1];
      LowOne();
    } else {
      hide Lengths, StdLengths, k.Ghash;
      LengthsAgree(0, |nonce|);
    }
  }

  lemma LowOne()
    ensures Value([0, 0, 0] + [1]) == 1
  {
    assert ([0, 0, 0] + [1])[..3] == Zeros(3);
    ZerosValue(3);
    assert (1 as byte) as int == 1;
  }

  lemma {:induction false} IncNShift(n: nat, c: Block)
    ensures IncN(n, Inc(c)) == IncN(n + 1, c) && Inc32N(n, Inc32(c)) == Inc32N(n + 1, c)
  {
    hide Inc, Inc32;
    if n > 0 {
      IncNShift(n - 1, c);
    } else {
      assert IncN(1, c) == Inc(IncN(0, c)) && Inc32N(1, c) == Inc32(Inc32N(0, c));
    }
  }

  lemma CryptStandard(k: Key, j: Block, data: seq<byte>)
    requires Low32(j) + (|data| + 15) / 16 < 0x1_0000_0000
    ensures k.Crypt(Inc(j), 0, data) == StdCrypt(k, Inc32(j), data)
  {
    hide Inc, Inc32, Low32, Inc32N, IncN;
    forall i | 0 <= i < |data| ensures k.KeyByte(Inc(j), i) == k.enc(Inc32N(i / 16, Inc32(j)))[i % 16] {
      IncNShift(i / 16, j);
      CountersMatch(i / 16 + 1, j);
    }
  }

  /**
   The code computes GCM-AE of the standard for every 96-bit nonce and all lengths below 2^29 bytes; for other
   nonces, as long as the last 32 bits of the counter do not wrap.
   */
  lemma SealIsStandard(k: Key, nonce: seq<byte>, aad: seq<byte>, plaintext: seq<byte>, tagLen: nat)
    requires tagLen <= 16 && |aad| < 0x2000_0000 && |plaintext| < 0x2000_0000 && |nonce| < 0x2000_0000
    requires |nonce| == 12 || Low32(k.J0(nonce)) + (|plaintext| + 15) / 16 < 0x1_0000_0000
    ensures k.Seal(nonce, aad, plaintext, tagLen) == StdSeal(k, nonce, aad, plaintext, tagLen)
  {
    hide Inc, Inc32, Low32, StdJ0, Lengths, StdLengths, k.Crypt, StdCrypt, k.Ghash, k.J0;
    var j := k.J0(nonce);
    J0Standard(k, nonce);
    CryptStandard(k, j, plaintext);
    var c := k.Crypt(Inc(j), 0, plaintext);
    assert |c| == |plaintext|;
    LengthsAgree(|aad|, |c|);
  }

  // ----- Additional data after an empty payload call

  /**
   An empty payload call pads the additional data so far, and a later call for more is still accepted.  What is
   then hashed is what the standard hashes exactly under the stated condition on the two parts.
   */
  lemma LateAad(a: seq<byte>, b: seq<byte>)
    ensures Pad(Pad(a) + b) == Pad(a + b) <==>
            |a| % 16 == 0 || b == [] || (b == Zeros(|b|) && |Pad(Pad(a) + b)| == |Pad(a + b)|)
  {
    var l, r := Pad(Pad(a) + b), Pad(a + b);
    if |a| % 16 == 0 {
      assert Pad(a) == a;
    } else if b == [] {
      assert Pad(a) + b == Pad(a) && a + b == a;
    } else if l == r {
      forall i | 0 <= i < |b| ensures b[i] == 0 {
        LateZero(a, b, i);
      }
    }
  }

  lemma {:induction false} LateZero(a: seq<byte>, b: seq<byte>, i: nat)
    requires |a| % 16 != 0 && i < |b| && Pad(Pad(a) + b) == Pad(a + b)
    ensures b[i] == 0
  {
    var gap := |Pad(a)| - |a|;
    assert Pad(a + b)[|a| + i] == b[i];
    if i >= gap {
      LateZero(a, b, i - gap);
      assert Pad(Pad(a) + b)[|a| + i] == b[i - gap];
    } else {
      assert Pad(Pad(a) + b)[|a| + i] == 0;
    }
  }
}
