/**
 The two GF(2^128) multipliers of AES-GCM.  An element is the pair of 64-bit words the code keeps;
 the top bit of `hi` is the coefficient of P^0 and the bottom bit of `lo` that of P^127.
 */
module Gf128 {
  import opened Bytes
  import opened Polynomial

  datatype Elem = Elem(hi: bv64, lo: bv64)

  const ZERO := Elem(0, 0)
  const ONE := Elem(0x8000000000000000, 0)

  function XorWord(a: bv64, b: bv64): bv64 {
    a ^ b
  }

  function Add(a: Elem, b: Elem): Elem {
    Elem(XorWord(a.hi, b.hi), XorWord(a.lo, b.lo))
  }

  predicate Msb(a: Elem) {
    a.hi & 0x8000000000000000 != 0
  }

  function ShlHigh(hi: bv64, lo: bv64): bv64 {
    (hi << 1) | (lo >> 63)
  }

  function ShlLow(lo: bv64): bv64 {
    lo << 1
  }

  function Shl(a: Elem): Elem {
    Elem(ShlHigh(a.hi, a.lo), ShlLow(a.lo))
  }

  function MulPHigh(hi: bv64, lo: bv64): bv64 {
    (hi >> 1) ^ (0xe100000000000000 * (lo & 1))
  }

  function MulPLow(hi: bv64, lo: bv64): bv64 {
    (hi << 63) | (lo >> 1)
  }

  /** Multiplication by P: one step of V in section 6.3 of NIST SP 800-38D. */
  function MulP(a: Elem): Elem {
    Elem(MulPHigh(a.hi, a.lo), MulPLow(a.hi, a.lo))
  }

  /** x scaled by a single coefficient. */
  function Scale(c: bool, x: Elem): Elem {
    if c then x else ZERO
  }

  /** The product of y with the polynomial formed by the n leading coefficients of x. */
  function Prod(n: nat, x: Elem, y: Elem): Elem {
    if n == 0 then ZERO else Add(Scale(Msb(x), y), MulP(Prod(n - 1, Shl(x), y)))
  }

  /** The field product. */
  function Mul(x: Elem, y: Elem): Elem {
    Prod(128, x, y)
  }

  function ShlN(n: nat, x: Elem): Elem {
    if n == 0 then x else ShlN(n - 1, Shl(x))
  }

  // ----- Word-level facts.  The later proofs hide the word operations and use only these.

  lemma XorAssociates(a: bv64, b: bv64, c: bv64)
    ensures (a ^ b) ^ c == a ^ (b ^ c)
  {
  }

  lemma XorWordFacts(a: bv64, b: bv64, c: bv64)
    ensures XorWord(XorWord(a, b), c) == XorWord(a, XorWord(b, c))
    ensures XorWord(a, b) == XorWord(b, a)
    ensures XorWord(a, 0) == a && XorWord(a, a) == 0
  {
    XorAssociates(a, b, c);
  }

  lemma AddFacts(a: Elem, b: Elem, c: Elem)
    ensures Add(a, b) == Add(b, a)
    ensures Add(Add(a, b), c) == Add(a, Add(b, c))
    ensures Add(a, ZERO) == a == Add(ZERO, a)
    ensures Add(a, a) == ZERO
  {
    hide XorWord;
    XorWordFacts(a.hi, b.hi, c.hi);
    XorWordFacts(a.lo, b.lo, c.lo);
    XorWordFacts(0, a.hi, 0);
    XorWordFacts(0, a.lo, 0);
  }

  lemma AddExchange(a: Elem, b: Elem, c: Elem, d: Elem)
    ensures Add(Add(a, b), Add(c, d)) == Add(Add(a, c), Add(b, d))
  {
    hide Add;
    AddFacts(a, b, Add(c, d));
    AddFacts(b, c, d);
    AddFacts(c, b, d);
    AddFacts(a, c, Add(b, d));
  }

  lemma MulPWordsLinear(ah: bv64, al: bv64, bh: bv64, bl: bv64)
    ensures ((ah ^ bh) >> 1) ^ (0xe100000000000000 * ((al ^ bl) & 1))
         == ((ah >> 1) ^ (0xe100000000000000 * (al & 1))) ^ ((bh >> 1) ^ (0xe100000000000000 * (bl & 1)))
    ensures ((ah ^ bh) << 63) | ((al ^ bl) >> 1) == ((ah << 63) | (al >> 1)) ^ ((bh << 63) | (bl >> 1))
  {
  }

  lemma MulPHighLinear(ah: bv64, al: bv64, bh: bv64, bl: bv64)
    ensures MulPHigh(XorWord(ah, bh), XorWord(al, bl)) == XorWord(MulPHigh(ah, al), MulPHigh(bh, bl))
  {
    MulPWordsLinear(ah, al, bh, bl);
  }

  lemma MulPLowLinear(ah: bv64, al: bv64, bh: bv64, bl: bv64)
    ensures MulPLow(XorWord(ah, bh), XorWord(al, bl)) == XorWord(MulPLow(ah, al), MulPLow(bh, bl))
  {
    MulPWordsLinear(ah, al, bh, bl);
  }

  lemma MulPLinear(a: Elem, b: Elem)
    ensures MulP(Add(a, b)) == Add(MulP(a), MulP(b))
  {
    hide XorWord, MulPHigh, MulPLow;
    MulPHighLinear(a.hi, a.lo, b.hi, b.lo);
    MulPLowLinear(a.hi, a.lo, b.hi, b.lo);
  }

  lemma MulPZero()
    ensures MulP(ZERO) == ZERO
  {
  }

  lemma ShlWordsLinear(ah: bv64, al: bv64, bh: bv64, bl: bv64)
    ensures ((ah ^ bh) << 1) | ((al ^ bl) >> 63) == ((ah << 1) | (al >> 63)) ^ ((bh << 1) | (bl >> 63))
    ensures (al ^ bl) << 1 == (al << 1) ^ (bl << 1)
    ensures (ah ^ bh) & 0x8000000000000000 == (ah & 0x8000000000000000) ^ (bh & 0x8000000000000000)
  {
  }

  lemma ShlHighLinear(ah: bv64, al: bv64, bh: bv64, bl: bv64)
    ensures ShlHigh(XorWord(ah, bh), XorWord(al, bl)) == XorWord(ShlHigh(ah, al), ShlHigh(bh, bl))
  {
    ShlWordsLinear(ah, al, bh, bl);
  }

  lemma ShlLowLinear(al: bv64, bl: bv64)
    ensures ShlLow(XorWord(al, bl)) == XorWord(ShlLow(al), ShlLow(bl))
  {
    ShlWordsLinear(0, al, 0, bl);
  }

  lemma ShlLinear(a: Elem, b: Elem)
    ensures Shl(Add(a, b)) == Add(Shl(a), Shl(b))
  {
    hide XorWord, ShlHigh, ShlLow;
    ShlHighLinear(a.hi, a.lo, b.hi, b.lo);
    ShlLowLinear(a.lo, b.lo);
  }

  lemma MsbLinear(a: Elem, b: Elem)
    ensures Msb(Add(a, b)) <==> Msb(a) != Msb(b)
  {
    ShlWordsLinear(a.hi, a.lo, b.hi, b.lo);
  }

  function TopWord(hi: bv64): bv64 {
    hi & 0x8000000000000000
  }

  function Half(hi: bv64): bv64 {
    hi >> 1
  }

  lemma TopOrNone(hi: bv64)
    ensures TopWord(hi) == 0 || TopWord(hi) == 0x8000000000000000
  {
  }

  lemma TopAndRest(hi: bv64, lo: bv64)
    ensures XorWord(TopWord(hi), Half(ShlHigh(hi, lo))) == hi
  {
  }

  lemma EvenShift(lo: bv64)
    ensures ShlLow(lo) & 1 == 0
  {
  }

  lemma EvenHalves(hi: bv64, lo: bv64)
    ensures lo & 1 == 0 ==> MulPHigh(hi, lo) == Half(hi)
  {
    if lo & 1 == 0 {
      assert 0xe100000000000000 * (lo & 1) == 0xe100000000000000 * 0;
    }
  }

  lemma PeelHigh(hi: bv64, lo: bv64)
    ensures XorWord(TopWord(hi), MulPHigh(ShlHigh(hi, lo), ShlLow(lo))) == hi
  {
    hide XorWord, TopWord, MulPHigh, ShlHigh, ShlLow, Half;
    EvenShift(lo);
    EvenHalves(ShlHigh(hi, lo), ShlLow(lo));
    TopAndRest(hi, lo);
  }

  lemma PeelLow(hi: bv64, lo: bv64)
    ensures XorWord(0, MulPLow(ShlHigh(hi, lo), ShlLow(lo))) == lo
  {
  }

  /** Every element is its leading coefficient plus P times the rest. */
  lemma Peel(x: Elem)
    ensures x == Add(Scale(Msb(x), ONE), MulP(Shl(x)))
  {
    TopOrNone(x.hi);
    assert Scale(Msb(x), ONE).hi == TopWord(x.hi);
    hide XorWord, MulPHigh, MulPLow, ShlHigh, ShlLow;
    PeelHigh(x.hi, x.lo);
    PeelLow(x.hi, x.lo);
  }

  // ----- Linearity of the product

  lemma {:induction false} ProdLinearRight(n: nat, x: Elem, a: Elem, b: Elem)
    ensures Prod(n, x, Add(a, b)) == Add(Prod(n, x, a), Prod(n, x, b))
  {
    hide Add, MulP, Shl, Msb;
    AddFacts(ZERO, ZERO, ZERO);
    if n > 0 {
      var p, q := Prod(n - 1, Shl(x), a), Prod(n - 1, Shl(x), b);
      ProdLinearRight(n - 1, Shl(x), a, b);
      MulPLinear(p, q);
      AddExchange(Scale(Msb(x), a), MulP(p), Scale(Msb(x), b), MulP(q));
    }
  }

  lemma ScaleLinear(c: bool, d: bool, y: Elem)
    ensures Scale(c != d, y) == Add(Scale(c, y), Scale(d, y))
  {
    hide Add;
    AddFacts(y, y, y);
    AddFacts(ZERO, y, y);
  }

  lemma {:induction false} ProdLinearLeft(n: nat, a: Elem, b: Elem, y: Elem)
    ensures Prod(n, Add(a, b), y) == Add(Prod(n, a, y), Prod(n, b, y))
  {
    hide Add, MulP, Shl, Msb;
    AddFacts(ZERO, ZERO, ZERO);
    if n > 0 {
      var p, q := Prod(n - 1, Shl(a), y), Prod(n - 1, Shl(b), y);
      ShlLinear(a, b);
      MsbLinear(a, b);
      ProdLinearLeft(n - 1, Shl(a), Shl(b), y);
      MulPLinear(p, q);
      ScaleLinear(Msb(a), Msb(b), y);
      AddExchange(Scale(Msb(a), y), Scale(Msb(b), y), MulP(p), MulP(q));
    }
  }

  /** A factor P of the right operand comes out of the product. */
  lemma {:induction false} ProdMulP(n: nat, x: Elem, y: Elem)
    ensures Prod(n, x, MulP(y)) == MulP(Prod(n, x, y))
  {
    hide Add, MulP, Shl, Msb;
    MulPZero();
    if n > 0 {
      ProdMulP(n - 1, Shl(x), y);
      MulPLinear(Scale(Msb(x), y), MulP(Prod(n - 1, Shl(x), y)));
    }
  }

  lemma {:induction false} ProdZeroRight(n: nat, x: Elem)
    ensures Prod(n, x, ZERO) == ZERO
  {
    hide Add, MulP, Shl, Msb;
    if n > 0 {
      ProdZeroRight(n - 1, Shl(x));
      MulPZero();
      AddFacts(ZERO, ZERO, ZERO);
    }
  }

  // ----- Commutativity

  lemma {:induction false} ProdOne(n: nat, x: Elem)
    requires ShlN(n, x) == ZERO
    ensures Prod(n, x, ONE) == x
  {
    hide Add, MulP, Shl, Msb;
    if n > 0 {
      ProdOne(n - 1, Shl(x));
      Peel(x);
    }
  }

  lemma {:induction false} ProdCommutes(n: nat, x: Elem, y: Elem)
    requires ShlN(n, x) == ZERO
    ensures Prod(n, x, y) == Mul(y, x)
  {
    hide Add, MulP, Shl, Msb;
    ProdZeroRight(128, y);
    if n > 0 {
      ProdCommutes(n - 1, Shl(x), y);
      ProdMulP(128, y, Shl(x));
      ShlN128(y);
      ProdOne(128, y);
      assert Scale(Msb(x), y) == Mul(y, Scale(Msb(x), ONE));
      ProdLinearRight(128, y, Scale(Msb(x), ONE), MulP(Shl(x)));
      Peel(x);
    }
  }

  lemma MulCommutes(x: Elem, y: Elem)
    ensures Mul(x, y) == Mul(y, x)
  {
    hide Prod;
    ShlN128(x);
    ProdCommutes(128, x, y);
  }

  // ----- Bytes

  function Be64(b: seq<byte>): bv64
    requires |b| == 8
  {
    (b[0] as bv64 << 56) | (b[1] as bv64 << 48) | (b[2] as bv64 << 40) | (b[3] as bv64 << 32) |
    (b[4] as bv64 << 24) | (b[5] as bv64 << 16) | (b[6] as bv64 << 8) | (b[7] as bv64)
  }

  function PutBe64(v: bv64): (r: seq<byte>)
    ensures |r| == 8
  {
    [((v >> 56) & 0xff) as byte, ((v >> 48) & 0xff) as byte, ((v >> 40) & 0xff) as byte, ((v >> 32) & 0xff) as byte,
     ((v >> 24) & 0xff) as byte, ((v >> 16) & 0xff) as byte, ((v >> 8) & 0xff) as byte, (v & 0xff) as byte]
  }

  function FromBytes(b: Block): Elem {
    Elem(Be64(b[..8]), Be64(b[8..]))
  }

  function ToBytes(a: Elem): Block {
    PutBe64(a.hi) + PutBe64(a.lo)
  }

  function Shl8(a: Elem): Elem {
    Elem((a.hi << 8) | (a.lo >> 56), a.lo << 8)
  }

  function Shl4(a: Elem): Elem {
    Elem((a.hi << 4) | (a.lo >> 60), a.lo << 4)
  }

  lemma Shl4IsShl(a: Elem)
    ensures Shl(Shl(Shl(Shl(a)))) == Shl4(a)
  {
  }

  lemma Shl4Twice(a: Elem)
    ensures Shl4(Shl4(a)) == Shl8(a)
  {
  }

  lemma ShlN4(n: nat, a: Elem)
    ensures ShlN(n + 4, a) == ShlN(n, Shl4(a))
  {
    hide Shl, Shl4;
    Shl4IsShl(a);
    assert ShlN(n + 4, a) == ShlN(n + 3, Shl(a)) == ShlN(n + 2, Shl(Shl(a))) == ShlN(n + 1, Shl(Shl(Shl(a))));
  }

  lemma WordShl8(h: seq<byte>, l: seq<byte>)
    requires |h| == |l| == 8
    ensures (Be64(h) << 8) | (Be64(l) >> 56) == Be64(h[1..] + [l[0]])
    ensures Be64(l) << 8 == Be64(l[1..] + [0])
  {
  }

  lemma Shl8DropsByte(b: Block)
    ensures Shl8(FromBytes(b)) == FromBytes(b[1..] + [0])
  {
    hide Be64;
    var c := b[1..] + [0];
    WordShl8(b[..8], b[8..]);
    assert c[..8] == b[..8][1..] + [b[8..][0]];
    assert c[8..] == b[8..][1..] + [0];
  }

  lemma ShlN8(n: nat, a: Elem)
    ensures ShlN(n + 8, a) == ShlN(n, Shl8(a))
  {
    hide Shl, Shl4, Shl8;
    ShlN4(n + 4, a);
    ShlN4(n, Shl4(a));
    Shl4Twice(a);
  }

  lemma {:induction false} ShlBytes(k: nat, b: Block)
    requires k <= 16
    ensures ShlN(8 * k, FromBytes(b)) == FromBytes(b[k..] + Zeros(k))
  {
    hide FromBytes, Shl, Shl8;
    if k == 0 {
      assert b[0..] + Zeros(0) == b;
    } else {
      var c: Block := b[1..] + [0];
      ShlN8(8 * (k - 1), FromBytes(b));
      Shl8DropsByte(b);
      ShlBytes(k - 1, c);
      assert c[k - 1..] + Zeros(k - 1) == b[k..] + Zeros(k);
    }
  }

  lemma {:induction false} ShlNAdds(m: nat, n: nat, x: Elem)
    ensures ShlN(m + n, x) == ShlN(n, ShlN(m, x))
  {
    hide Shl;
    if m > 0 {
      ShlNAdds(m - 1, n, Shl(x));
    }
  }

  lemma ShlNNext(n: nat, x: Elem)
    ensures ShlN(n + 1, x) == Shl(ShlN(n, x))
  {
    hide Shl;
    ShlNAdds(n, 1, x);
    assert ShlN(1, ShlN(n, x)) == ShlN(0, Shl(ShlN(n, x)));
  }

  lemma PutBe64Inverse(v: bv64)
    ensures Be64(PutBe64(v)) == v
  {
  }

  lemma Be64Inverse(b: seq<byte>)
    requires |b| == 8
    ensures PutBe64(Be64(b)) == b
  {
  }

  lemma BytesRoundTrip(a: Elem)
    ensures FromBytes(ToBytes(a)) == a
  {
    hide Be64, PutBe64;
    PutBe64Inverse(a.hi);
    PutBe64Inverse(a.lo);
    assert ToBytes(a)[..8] == PutBe64(a.hi) && ToBytes(a)[8..] == PutBe64(a.lo);
  }

  lemma ShlN128(x: Elem)
    ensures ShlN(128, x) == ZERO
  {
    hide ShlN, ToBytes;
    BytesRoundTrip(x);
    ShlBytes(16, ToBytes(x));
    assert ToBytes(x)[16..] + Zeros(16) == Zeros(16);
    assert FromBytes(Zeros(16)) == ZERO;
  }

  // ----- Coefficient tests

  /** The test of the code: bit n of a byte string, counted from the most significant bit of its first byte. */
  predicate TestBit(t: byte, j: nat)
    requires j < 8
  {
    t & (1 << (7 - j)) != 0
  }

  predicate TopBit(w: bv64, j: nat)
    requires j < 8
  {
    if j == 0 then w & 0x8000000000000000 != 0 else if j == 1 then w & 0x4000000000000000 != 0
    else if j == 2 then w & 0x2000000000000000 != 0 else if j == 3 then w & 0x1000000000000000 != 0
    else if j == 4 then w & 0x0800000000000000 != 0 else if j == 5 then w & 0x0400000000000000 != 0
    else if j == 6 then w & 0x0200000000000000 != 0 else w & 0x0100000000000000 != 0
  }

  lemma ShiftedMasks(hi: bv64, lo: bv64)
    ensures ((hi << 1) | (lo >> 63)) & 0x8000000000000000 != 0 <==> hi & 0x4000000000000000 != 0
    ensures ((hi << 1) | (lo >> 63)) & 0x4000000000000000 != 0 <==> hi & 0x2000000000000000 != 0
    ensures ((hi << 1) | (lo >> 63)) & 0x2000000000000000 != 0 <==> hi & 0x1000000000000000 != 0
    ensures ((hi << 1) | (lo >> 63)) & 0x1000000000000000 != 0 <==> hi & 0x0800000000000000 != 0
    ensures ((hi << 1) | (lo >> 63)) & 0x0800000000000000 != 0 <==> hi & 0x0400000000000000 != 0
    ensures ((hi << 1) | (lo >> 63)) & 0x0400000000000000 != 0 <==> hi & 0x0200000000000000 != 0
    ensures ((hi << 1) | (lo >> 63)) & 0x0200000000000000 != 0 <==> hi & 0x0100000000000000 != 0
  {
  }

  lemma TopBitShl(hi: bv64, lo: bv64, j: nat)
    requires 0 < j < 8
    ensures TopBit(ShlHigh(hi, lo), j - 1) <==> TopBit(hi, j)
  {
    ShiftedMasks(hi, lo);
  }

  lemma {:induction false} TopCoefficient(a: Elem, j: nat)
    requires j < 8
    ensures Msb(ShlN(j, a)) <==> TopBit(a.hi, j)
    decreases j
  {
    if j > 0 {
      hide ShlHigh, ShlLow, TopBit, Msb;
      TopCoefficient(Shl(a), j - 1);
      TopBitShl(a.hi, a.lo, j);
    }
  }

  lemma TestBitValues(t: byte)
    ensures TestBit(t, 0) <==> t & 0x80 != 0
    ensures TestBit(t, 1) <==> t & 0x40 != 0
    ensures TestBit(t, 2) <==> t & 0x20 != 0
    ensures TestBit(t, 3) <==> t & 0x10 != 0
    ensures TestBit(t, 4) <==> t & 0x08 != 0
    ensures TestBit(t, 5) <==> t & 0x04 != 0
    ensures TestBit(t, 6) <==> t & 0x02 != 0
    ensures TestBit(t, 7) <==> t & 0x01 != 0
  {
  }

  lemma TopWordTest(w: bv64, t: byte)
    requires w >> 56 == t as bv64
    ensures w & 0x8000000000000000 != 0 <==> t & 0x80 != 0
    ensures w & 0x4000000000000000 != 0 <==> t & 0x40 != 0
    ensures w & 0x2000000000000000 != 0 <==> t & 0x20 != 0
    ensures w & 0x1000000000000000 != 0 <==> t & 0x10 != 0
    ensures w & 0x0800000000000000 != 0 <==> t & 0x08 != 0
    ensures w & 0x0400000000000000 != 0 <==> t & 0x04 != 0
    ensures w & 0x0200000000000000 != 0 <==> t & 0x02 != 0
    ensures w & 0x0100000000000000 != 0 <==> t & 0x01 != 0
  {
  }

  lemma TopBitValues(w: bv64, t: byte)
    requires w >> 56 == t as bv64
    ensures TopBit(w, 0) <==> t & 0x80 != 0
    ensures TopBit(w, 1) <==> t & 0x40 != 0
    ensures TopBit(w, 2) <==> t & 0x20 != 0
    ensures TopBit(w, 3) <==> t & 0x10 != 0
    ensures TopBit(w, 4) <==> t & 0x08 != 0
    ensures TopBit(w, 5) <==> t & 0x04 != 0
    ensures TopBit(w, 6) <==> t & 0x02 != 0
    ensures TopBit(w, 7) <==> t & 0x01 != 0
  {
    TopWordTest(w, t);
  }

  lemma TopByteWord(b: seq<byte>)
    requires |b| == 8
    ensures Be64(b) >> 56 == b[0] as bv64
  {
  }

  lemma TopByteTest(b: seq<byte>, j: nat)
    requires |b| == 8 && j < 8
    ensures TopBit(Be64(b), j) <==> TestBit(b[0], j)
  {
    hide TopBit, TestBit, Be64;
    TopByteWord(b);
    TopBitValues(Be64(b), b[0]);
    TestBitValues(b[0]);
    assert j == 0 || j == 1 || j == 2 || j == 3 || j == 4 || j == 5 || j == 6 || j == 7;
  }

  /** The byte-and-mask test of the code reads the coefficient of P^n. */
  lemma CoefficientTest(b: Block, n: nat)
    requires n < 128
    ensures Msb(ShlN(n, FromBytes(b))) <==> TestBit(b[n / 8], n % 8)
  {
    hide ShlN, Msb, Be64, TopBit, TestBit;
    var c: Block := b[n / 8..] + Zeros(n / 8);
    ShlBytes(n / 8, b);
    ShlNAdds(8 * (n / 8), n % 8, FromBytes(b));
    assert 8 * (n / 8) + n % 8 == n;
    TopCoefficient(FromBytes(c), n % 8);
    TopByteTest(c[..8], n % 8);
  }

  // ----- Elements as polynomials

  /** A block as a polynomial: the coefficient of P^n is bit n, counted from the top bit of the first byte. */
  function Coefficients(b: Block): (r: seq<bool>)
    ensures |r| == 128 && forall n :: 0 <= n < 128 ==> r[n] == TestBit(b[n / 8], n % 8)
  {
    seq(128, n requires 0 <= n < 128 => TestBit(b[n / 8], n % 8))
  }

  ghost function Poly(a: Elem): (r: seq<bool>)
    ensures |r| == 128 && forall n :: 0 <= n < 128 ==> r[n] == Msb(ShlN(n, a))
  {
    seq(128, n requires 0 <= n < 128 => Msb(ShlN(n, a)))
  }

  lemma PolyOfBytes(b: Block)
    ensures Poly(FromBytes(b)) == Coefficients(b)
  {
    hide ShlN, Msb, TestBit, FromBytes;
    forall n | 0 <= n < 128 ensures Poly(FromBytes(b))[n] == Coefficients(b)[n] {
      CoefficientTest(b, n);
    }
  }

  lemma CoefficientsOf(a: Elem)
    ensures Coefficients(ToBytes(a)) == Poly(a)
  {
    hide FromBytes, ToBytes, Poly, Coefficients;
    BytesRoundTrip(a);
    PolyOfBytes(ToBytes(a));
  }

  lemma {:induction false} ShlNLinear(n: nat, a: Elem, b: Elem)
    ensures ShlN(n, Add(a, b)) == Add(ShlN(n, a), ShlN(n, b))
  {
    hide Add, Shl;
    if n > 0 {
      ShlLinear(a, b);
      ShlNLinear(n - 1, Shl(a), Shl(b));
    }
  }

  lemma PolyAdd(a: Elem, b: Elem)
    ensures Poly(Add(a, b)) == Sum(Poly(a), Poly(b))
  {
    hide Add, ShlN, Msb;
    forall n | 0 <= n < 128 ensures Poly(Add(a, b))[n] == Sum(Poly(a), Poly(b))[n] {
      ShlNLinear(n, a, b);
      MsbLinear(ShlN(n, a), ShlN(n, b));
    }
  }

  lemma {:induction false} ShlNZero(n: nat)
    ensures ShlN(n, ZERO) == ZERO
  {
    if n > 0 {
      ShlNZero(n - 1);
    }
  }

  lemma PolyZero()
    ensures Poly(ZERO) == NoTerms(128)
  {
    hide ShlN;
    forall n | 0 <= n < 128 ensures !Poly(ZERO)[n] {
      ShlNZero(n);
    }
  }

  /** The coefficients from P on are those of the shifted element. */
  lemma PolyShl(a: Elem, n: nat)
    requires n < 127
    ensures Poly(Shl(a))[n] == Poly(a)[n + 1]
  {
    hide Shl, Msb;
  }

  /** The element P^127. */
  const LOW := Elem(0, 1)

  /** What replaces P^128. */
  const TAIL := Elem(0xe100000000000000, 0)

  lemma OneBytes()
    ensures FromBytes(Zeros(15) + [1]) == LOW && FromBytes([0xe1] + Zeros(15)) == TAIL
  {
    var l, t: Block := Zeros(15) + [1], [0xe1] + Zeros(15);
    assert l[..8] == [0, 0, 0, 0, 0, 0, 0, 0] && l[8..] == [0, 0, 0, 0, 0, 0, 0, 1];
    assert t[..8] == [0xe1, 0, 0, 0, 0, 0, 0, 0] && t[8..] == [0, 0, 0, 0, 0, 0, 0, 0];
  }

  lemma ByteTests(j: nat)
    requires j < 8
    ensures !TestBit(0, j) && (TestBit(1, j) <==> j == 7)
    ensures TestBit(0xe1, j) <==> j == 0 || j == 1 || j == 2 || j == 7
  {
    hide TestBit;
    TestBitValues(0);
    TestBitValues(1);
    TestBitValues(0xe1);
    assert j == 0 || j == 1 || j == 2 || j == 3 || j == 4 || j == 5 || j == 6 || j == 7;
  }

  lemma PolyLow(n: nat)
    requires n < 128
    ensures Poly(LOW)[n] <==> n == 127
    ensures Poly(TAIL)[n] <==> n == 0 || n == 1 || n == 2 || n == 7
  {
    hide TestBit, FromBytes, Poly;
    var l, t: Block := Zeros(15) + [1], [0xe1] + Zeros(15);
    OneBytes();
    PolyOfBytes(l);
    PolyOfBytes(t);
    ByteTests(n % 8);
  }

  /** P times a without the reduction. */
  function Shr(a: Elem): Elem {
    Elem(a.hi >> 1, MulPLow(a.hi, a.lo))
  }

  predicate Lsb(a: Elem) {
    a.lo & 1 != 0
  }

  lemma LowBit(lo: bv64)
    ensures lo & 1 == 0 || lo & 1 == 1
  {
  }

  lemma MulPHighParts(hi: bv64, lo: bv64)
    ensures MulPHigh(hi, lo) == XorWord(hi >> 1, if lo & 1 != 0 then 0xe100000000000000 else 0)
  {
    LowBit(lo);
    if lo & 1 != 0 {
      assert 0xe100000000000000 * (lo & 1) == 0xe100000000000000;
    } else {
      assert 0xe100000000000000 * (lo & 1) == 0;
    }
  }

  lemma MulPParts(a: Elem)
    ensures MulP(a) == Add(Shr(a), Scale(Lsb(a), TAIL))
  {
    hide MulPHigh, MulPLow, XorWord;
    MulPHighParts(a.hi, a.lo);
    XorWordFacts(MulPLow(a.hi, a.lo), 0, 0);
  }

  lemma ShrShl(a: Elem)
    ensures !Msb(Shr(a)) && Add(Shl(Shr(a)), Scale(Lsb(a), LOW)) == a
  {
  }

  lemma LastCoefficient(a: Elem)
    ensures Poly(a)[127] == Lsb(a)
  {
    hide Poly;
    CoefficientsOf(a);
    TestBitValues(ToBytes(a)[15]);
    LowByteBit(a.lo);
  }

  lemma LowByteBit(lo: bv64)
    ensures PutBe64(lo)[7] & 1 != 0 <==> lo & 1 != 0
  {
  }

  /**
   Multiplication by P: coefficient n is coefficient n - 1, flipped for n in {0, 1, 2, 7} if P^127 has become
   P^128.
   */
  lemma PolyMulP(a: Elem)
    ensures Poly(MulP(a)) == Polynomial.Fold([false] + Poly(a))
  {
    hide MulP, Add, Shl, Shr, Lsb, Msb;
    MulPParts(a);
    PolyAdd(Shr(a), Scale(Lsb(a), TAIL));
    ShrShl(a);
    PolyAdd(Shl(Shr(a)), Scale(Lsb(a), LOW));
    LastCoefficient(a);
    PolyZero();
    forall n | 0 <= n < 128
      ensures Poly(MulP(a))[n] == Polynomial.Fold([false] + Poly(a))[n]
    {
      PolyLow(n);
      if n == 0 {
        assert !Poly(Shr(a))[0];
      } else {
        PolyShl(Shr(a), n - 1);
        PolyLow(n - 1);
      }
    }
  }

  lemma PolyProdNone(x: Elem, y: Elem)
    ensures Poly(ZERO) == Reduced(Product(Poly(x)[..0], Poly(y)))
  {
    hide Poly, Reduced, Product, ZERO;
    PolyZero();
    ProductNone(Poly(y));
    ReducedFold(NoTerms(128));
    assert Poly(x)[..0] == [];
  }

  lemma PolyScale(c: bool, y: Elem)
    ensures Poly(Scale(c, y)) == if c then Poly(y) else NoTerms(128)
  {
    hide Poly;
    PolyZero();
  }

  lemma PolyProdStep(n: nat, x: Elem, y: Elem, rest: Elem)
    requires 0 < n <= 128 && Poly(rest) == Reduced(Product(Poly(Shl(x))[..n - 1], Poly(y)))
    ensures Poly(Add(Scale(Msb(x), y), MulP(rest))) == Reduced(Product(Poly(x)[..n], Poly(y)))
  {
    hide *;
    PolyAdd(Scale(Msb(x), y), MulP(rest));
    PolyScale(Msb(x), y);
    PolyMulP(rest);
    LeadingTerms(n, x);
    HornerStep(Msb(x), Poly(Shl(x))[..n - 1], Poly(y));
  }

  /** The product with the first n coefficients of x, as polynomials. */
  lemma {:induction false} PolyProd(n: nat, x: Elem, y: Elem)
    requires n <= 128
    ensures Poly(Prod(n, x, y)) == Reduced(Product(Poly(x)[..n], Poly(y)))
  {
    hide MulP, Add, Shl, Msb, Reduced, Product, Poly, Scale;
    if n == 0 {
      PolyProdNone(x, y);
    } else {
      PolyProd(n - 1, Shl(x), y);
      PolyProdStep(n, x, y, Prod(n - 1, Shl(x), y));
    }
  }

  lemma LeadingTerms(n: nat, x: Elem)
    requires 0 < n <= 128
    ensures Poly(x)[..n] == [Msb(x)] + Poly(Shl(x))[..n - 1]
  {
    hide Shl, Msb;
    assert Poly(x)[0] == Msb(ShlN(0, x));
    forall i | 0 < i < n ensures Poly(x)[..n][i] == Poly(Shl(x))[..n - 1][i - 1] {
      PolyShl(x, i - 1);
    }
  }

  /** The product of the code is the product of the polynomials modulo P^128 + P^7 + P^2 + P + 1. */
  lemma MulIsPolynomialProduct(x: Block, y: Block)
    ensures Coefficients(ToBytes(Mul(FromBytes(x), FromBytes(y)))) ==
            Reduced(Product(Coefficients(x), Coefficients(y)))
  {
    hide ToBytes, FromBytes, Prod, Coefficients, Poly, Reduced, Product;
    PolyOfBytes(x);
    PolyOfBytes(y);
    CoefficientsOf(Mul(FromBytes(x), FromBytes(y)));
    PolyProd(128, FromBytes(x), FromBytes(y));
    assert Coefficients(x)[..128] == Coefficients(x);
  }

  // ----- The bit-by-bit multiplier

  lemma BitStep(m: nat, x: Elem, y: Elem, z: Elem)
    ensures Add(if Msb(x) then Add(z, y) else z, Prod(m, Shl(x), MulP(y))) == Add(z, Prod(m + 1, x, y))
  {
    hide Add, MulP, Shl, Msb;
    ProdMulP(m, Shl(x), y);
    AddFacts(z, Scale(Msb(x), y), Prod(m, Shl(x), MulP(y)));
    AddFacts(z, z, z);
  }

  lemma MulUnfolds(x: Elem, y: Elem)
    ensures Add(ZERO, Prod(128, ShlN(0, x), y)) == Mul(x, y)
  {
    hide Add, Prod;
    AddFacts(Mul(x, y), ZERO, ZERO);
  }

  lemma {:induction false} ProdNone(x: Elem, y: Elem, z: Elem)
    ensures Add(z, Prod(0, x, y)) == z
  {
    hide Add;
    AddFacts(z, ZERO, ZERO);
  }

  method GfMul(X: Block, Y: Block) returns (product: Block)
    ensures Coefficients(product) == Reduced(Product(Coefficients(X), Coefficients(Y)))
    ensures product == ToBytes(Mul(FromBytes(X), FromBytes(Y)))
  {
    hide ShlN, Msb, Be64, PutBe64, MulP, Shl, Prod, Add, TestBit;
    ghost var x := FromBytes(X);
    var y, z := Elem(Be64(Y[..8]), Be64(Y[8..])), ZERO;
    MulUnfolds(x, FromBytes(Y));
    for n := 0 to 128
      invariant Add(z, Prod(128 - n, ShlN(n, x), y)) == Mul(x, FromBytes(Y))
    {
      CoefficientTest(X, n);
      ShlNNext(n, x);
      BitStep(127 - n, ShlN(n, x), y, z);
      if TestBit(X[n / 8], n % 8) {
        z := Add(z, y);
      }
      y := MulP(y);
    }
    ProdNone(ShlN(128, x), y, z);
    MulIsPolynomialProduct(X, Y);
    product := PutBe64(z.hi) + PutBe64(z.lo);
  }
}
