/** Shoup's multiplication with 4-bit tables, and its agreement with the bit-by-bit multiplier. */
module GhashTable {
  import opened Bytes
  import opened Gf128
  import opened Polynomial

  /** A nibble read as a polynomial of degree below four: its top bit is the coefficient of P^0. */
  function Nib(k: nat): Elem
    requires k < 16
  {
    Elem((k as bv64) << 60, 0)
  }

  /** What slot k of the table is meant to hold: nibble k times H. */
  function Entry(k: nat, H: Elem): Elem
    requires k < 16
  {
    Prod(4, Nib(k), H)
  }

  ghost predicate TableFor(hl: seq<bv64>, hh: seq<bv64>, H: Elem) {
    |hl| == |hh| == 16 && forall k :: 0 <= k < 16 ==> Elem(hh[k], hl[k]) == Entry(k, H)
  }

  // ----- Building the table

  lemma {:induction false} ProdZeroLeft(n: nat, y: Elem)
    ensures Prod(n, ZERO, y) == ZERO
  {
    if n > 0 {
      assert Shl(ZERO) == ZERO && !Msb(ZERO);
      hide Add, MulP, Shl, Msb;
      ProdZeroLeft(n - 1, y);
      MulPZero();
      AddFacts(ZERO, ZERO, ZERO);
    }
  }

  lemma NibShifts()
    ensures Nib(0) == ZERO && Nib(8) == ONE && Shl(ONE) == ZERO && Msb(ONE)
    ensures Shl(Nib(4)) == Nib(8) && Shl(Nib(2)) == Nib(4) && Shl(Nib(1)) == Nib(2)
    ensures !Msb(Nib(4)) && !Msb(Nib(2)) && !Msb(Nib(1))
  {
  }

  lemma ProdLeadingOne(n: nat, y: Elem)
    ensures Prod(n + 1, ONE, y) == y
  {
    hide Add, MulP, Shl, Msb, Nib;
    NibShifts();
    ProdZeroLeft(n, y);
    MulPZero();
    AddFacts(y, ZERO, ZERO);
  }

  lemma ProdShiftedLeft(n: nat, x: Elem, y: Elem)
    requires !Msb(x)
    ensures Prod(n + 1, x, y) == MulP(Prod(n, Shl(x), y))
  {
    hide Add, MulP, Shl, Msb;
    AddFacts(MulP(Prod(n, Shl(x), y)), ZERO, ZERO);
  }

  lemma PowerEntries(H: Elem)
    ensures Entry(0, H) == ZERO
    ensures Entry(8, H) == H
    ensures Entry(4, H) == MulP(H)
    ensures Entry(2, H) == MulP(MulP(H))
    ensures Entry(1, H) == MulP(MulP(MulP(H)))
  {
    hide Add, MulP, Shl, Msb, Nib, Prod;
    NibShifts();
    ProdZeroLeft(4, H);
    ProdLeadingOne(3, H);
    ProdLeadingOne(2, H);
    ProdLeadingOne(1, H);
    ProdLeadingOne(0, H);
    ProdShiftedLeft(3, Nib(4), H);
    ProdShiftedLeft(3, Nib(2), H);
    ProdShiftedLeft(2, Nib(4), H);
    ProdShiftedLeft(3, Nib(1), H);
    ProdShiftedLeft(2, Nib(2), H);
    ProdShiftedLeft(1, Nib(4), H);
  }

  lemma NibSums()
    ensures Nib(3) == Add(Nib(2), Nib(1))
    ensures Nib(5) == Add(Nib(4), Nib(1)) && Nib(6) == Add(Nib(4), Nib(2)) && Nib(7) == Add(Nib(4), Nib(3))
    ensures Nib(9) == Add(Nib(8), Nib(1)) && Nib(10) == Add(Nib(8), Nib(2)) && Nib(11) == Add(Nib(8), Nib(3))
    ensures Nib(12) == Add(Nib(8), Nib(4)) && Nib(13) == Add(Nib(8), Nib(5)) && Nib(14) == Add(Nib(8), Nib(6))
    ensures Nib(15) == Add(Nib(8), Nib(7))
  {
  }

  lemma EntrySum(i: nat, j: nat, H: Elem)
    requires (i == 2 || i == 4 || i == 8) && 0 < j < i
    ensures Entry(i + j, H) == Add(Entry(i, H), Entry(j, H))
  {
    hide Add, Nib, Prod;
    NibSums();
    assert Nib(i + j) == Add(Nib(i), Nib(j));
    ProdLinearLeft(4, Nib(i), Nib(j), H);
  }

  ghost predicate Slot(hl: seq<bv64>, hh: seq<bv64>, k: nat, H: Elem) {
    k < 16 && |hl| == |hh| == 16 && Elem(hh[k], hl[k]) == Entry(k, H)
  }

  ghost predicate Powers(hl: seq<bv64>, hh: seq<bv64>, H: Elem) {
    Slot(hl, hh, 2, H) && Slot(hl, hh, 4, H) && Slot(hl, hh, 8, H)
  }

  /** Slots 0, 8, 4, 2 and 1. */
  method FillPowers(hl: array<bv64>, hh: array<bv64>, h: Block)
    requires hl.Length == hh.Length == 16 && hl != hh
    modifies hl, hh
    ensures Powers(hl[..], hh[..], FromBytes(h))
    ensures Slot(hl[..], hh[..], 0, FromBytes(h)) && Slot(hl[..], hh[..], 1, FromBytes(h))
  {
    hide Add, MulP, Entry, Be64;
    ghost var H := FromBytes(h);
    PowerEntries(H);
    var v := Elem(Be64(h[..8]), Be64(h[8..]));
    hl[8], hh[8] := v.lo, v.hi;
    hl[0], hh[0] := 0, 0;
    var i := 4;
    while i > 0
      invariant i == 4 || i == 2 || i == 1 || i == 0
      invariant v == Entry(if i == 0 then 1 else 2 * i, H)
      invariant Slot(hl[..], hh[..], 0, H) && Slot(hl[..], hh[..], 8, H)
      invariant i < 4 ==> Slot(hl[..], hh[..], 4, H)
      invariant i < 2 ==> Slot(hl[..], hh[..], 2, H)
      invariant i < 1 ==> Slot(hl[..], hh[..], 1, H)
    {
      v := MulP(v);
      hl[i], hh[i] := v.lo, v.hi;
      i := i / 2;
    }
  }

  /** The slots from i + 1 up to 2 i - 1, as sums of filled ones. */
  method FillSums(hl: array<bv64>, hh: array<bv64>, i: nat, ghost H: Elem)
    requires hl.Length == hh.Length == 16 && hl != hh
    requires i == 2 || i == 4 || i == 8
    requires Powers(hl[..], hh[..], H)
    requires forall k :: 0 <= k < i ==> Slot(hl[..], hh[..], k, H)
    modifies hl, hh
    ensures Powers(hl[..], hh[..], H)
    ensures forall k :: 0 <= k < 2 * i ==> Slot(hl[..], hh[..], k, H)
  {
    hide Add, Entry;
    var v := Elem(hh[i], hl[i]);
    assert Slot(hl[..], hh[..], i, H);
    for j := 1 to i
      invariant Powers(hl[..], hh[..], H)
      invariant forall k :: 0 <= k < i + j ==> Slot(hl[..], hh[..], k, H)
    {
      EntrySum(i, j, H);
      assert Slot(hl[..], hh[..], j, H);
      ghost var hl0, hh0 := hl[..], hh[..];
      var e := Add(v, Elem(hh[j], hl[j]));
      hh[i + j], hl[i + j] := e.hi, e.lo;
      forall k | 0 <= k < i + j + 1 || k == 4 || k == 8 ensures Slot(hl[..], hh[..], k, H) {
        assert k != i + j ==> Slot(hl0, hh0, k, H);
      }
    }
  }

  /** Fills the whole table in place from H, as the key is set. */
  method GenTable(hl: array<bv64>, hh: array<bv64>, h: Block)
    requires hl.Length == hh.Length == 16 && hl != hh
    modifies hl, hh
    ensures TableFor(hl[..], hh[..], FromBytes(h))
  {
    hide Entry;
    FillPowers(hl, hh, h);
    ghost var H := FromBytes(h);
    var i := 2;
    while i <= 8
      invariant i == 2 || i == 4 || i == 8 || i == 16
      invariant Powers(hl[..], hh[..], H)
      invariant forall k :: 0 <= k < i ==> Slot(hl[..], hh[..], k, H)
      decreases 16 - i
    {
      FillSums(hl, hh, i, H);
      i := i * 2;
    }
    forall k | 0 <= k < 16 ensures Elem(hh[k], hl[k]) == Entry(k, H) {
      assert Slot(hl[..], hh[..], k, H);
    }
  }

  // ----- Multiplying with the table

  const LAST4: seq<bv64> := [
    0x0000, 0x1c20, 0x3840, 0x2460,
    0x7080, 0x6ca0, 0x48c0, 0x54e0,
    0xe100, 0xfd20, 0xd940, 0xc560,
    0x9180, 0x8da0, 0xa9c0, 0xb5e0
  ]

  function Rem(lo: bv64): (k: nat)
    ensures k < 16
  {
    (lo & 0xf) as int
  }

  function Shift4High(hi: bv64, lo: bv64): bv64 {
    (hi >> 4) ^ (LAST4[Rem(lo)] << 48)
  }

  function Shift4Low(hi: bv64, lo: bv64): bv64 {
    (hi << 60) | (lo >> 4)
  }

  /** One nibble step of the loop: shift by four and fold back the bits shifted out. */
  function Shift4(z: Elem): Elem {
    Elem(Shift4High(z.hi, z.lo), Shift4Low(z.hi, z.lo))
  }

  function MulP2High(hi: bv64, lo: bv64): bv64 {
    (hi >> 2) ^ (0x7080000000000000 * (lo & 1)) ^ (0xe100000000000000 * ((lo >> 1) & 1))
  }

  function MulP2Low(hi: bv64, lo: bv64): bv64 {
    (hi << 62) | (lo >> 2)
  }

  function MulP2(z: Elem): Elem {
    Elem(MulP2High(z.hi, z.lo), MulP2Low(z.hi, z.lo))
  }

  lemma MulPTwiceHigh(h: bv64, l: bv64)
    ensures MulPHigh(MulPHigh(h, l), MulPLow(h, l)) == MulP2High(h, l)
  {
  }

  lemma MulPTwiceLow(h: bv64, l: bv64)
    ensures MulPLow(MulPHigh(h, l), MulPLow(h, l)) == MulP2Low(h, l)
  {
  }

  lemma MulPTwice(z: Elem)
    ensures MulP(MulP(z)) == MulP2(z)
  {
    hide MulPHigh, MulPLow, MulP2High, MulP2Low;
    MulPTwiceHigh(z.hi, z.lo);
    MulPTwiceLow(z.hi, z.lo);
  }

  /** What the four bits shifted out contribute once folded back. */
  function Fold(b0: bv64, b1: bv64, b2: bv64, b3: bv64): bv64 {
    (0x1c20000000000000 * b0) ^ (0x3840000000000000 * b1) ^ (0x7080000000000000 * b2) ^ (0xe100000000000000 * b3)
  }

  function MulP4High(h: bv64, l: bv64): bv64 {
    (h >> 4) ^ Fold(l & 1, (l >> 1) & 1, (l >> 2) & 1, (l >> 3) & 1)
  }

  lemma MulP2TwiceHigh(h: bv64, l: bv64)
    ensures MulP2High(MulP2High(h, l), MulP2Low(h, l)) == MulP4High(h, l)
  {
  }

  lemma MulP2TwiceLow(h: bv64, l: bv64)
    ensures MulP2Low(MulP2High(h, l), MulP2Low(h, l)) == Shift4Low(h, l)
  {
  }

  lemma Nibbles(r: bv64)
    requires r & 0xf == r
    ensures r == 0 || r == 1 || r == 2 || r == 3 || r == 4 || r == 5 || r == 6 || r == 7 ||
            r == 8 || r == 9 || r == 10 || r == 11 || r == 12 || r == 13 || r == 14 || r == 15
  {
  }

  lemma Last4Bits(r: bv64)
    requires r & 0xf == r
    ensures LAST4[Rem(r)] << 48 == Fold(r & 1, (r >> 1) & 1, (r >> 2) & 1, (r >> 3) & 1)
  {
    Nibbles(r);
    if r == 0 { } else if r == 1 { } else if r == 2 { } else if r == 3 { }
    else if r == 4 { } else if r == 5 { } else if r == 6 { } else if r == 7 { }
    else if r == 8 { } else if r == 9 { } else if r == 10 { } else if r == 11 { }
    else if r == 12 { } else if r == 13 { } else if r == 14 { } else { }
  }

  lemma LowNibble(l: bv64)
    ensures (l & 0xf) & 0xf == l & 0xf
    ensures (l & 0xf) & 1 == l & 1
    ensures ((l & 0xf) >> 1) & 1 == (l >> 1) & 1
    ensures ((l & 0xf) >> 2) & 1 == (l >> 2) & 1
    ensures ((l & 0xf) >> 3) & 1 == (l >> 3) & 1
  {
  }

  lemma Last4Folds(h: bv64, l: bv64)
    ensures Shift4High(h, l) == MulP4High(h, l)
  {
    hide Fold;
    LowNibble(l);
    Last4Bits(l & 0xf);
    assert Rem(l & 0xf) == Rem(l);
  }

  /** The table of remainders makes one shift by four equal to four multiplications by P. */
  lemma Shift4IsMulP4(z: Elem)
    ensures Shift4(z) == MulP(MulP(MulP(MulP(z))))
  {
    hide MulP, MulP2High, MulP2Low, MulP4High, Shift4High, Shift4Low;
    MulPTwice(z);
    MulPTwice(MulP2(z));
    MulP2TwiceHigh(z.hi, z.lo);
    MulP2TwiceLow(z.hi, z.lo);
    Last4Folds(z.hi, z.lo);
  }

  function MulPN(k: nat, z: Elem): Elem {
    if k == 0 then z else MulP(MulPN(k - 1, z))
  }

  lemma MulPN4(z: Elem)
    ensures MulPN(4, z) == MulP(MulP(MulP(MulP(z))))
  {
    hide MulP;
    assert MulPN(1, z) == MulP(MulPN(0, z));
    assert MulPN(2, z) == MulP(MulPN(1, z));
    assert MulPN(3, z) == MulP(MulPN(2, z));
  }

  /** Splitting off the k leading coefficients. */
  lemma {:induction false} ProdSplit(m: nat, k: nat, x: Elem, y: Elem)
    ensures Prod(m + k, x, y) == Add(Prod(k, x, y), MulPN(k, Prod(m, ShlN(k, x), y)))
  {
    hide Add, MulP, Shl, Msb;
    if k == 0 {
      AddFacts(Prod(m, x, y), ZERO, ZERO);
    } else {
      var p, q := Prod(k - 1, Shl(x), y), MulPN(k - 1, Prod(m, ShlN(k, x), y));
      ProdSplit(m, k - 1, Shl(x), y);
      MulPLinear(p, q);
      AddFacts(Scale(Msb(x), y), MulP(p), MulP(q));
    }
  }

  lemma ProdSplit4(m: nat, x: Elem, y: Elem)
    ensures Prod(m + 4, x, y) == Add(Prod(4, x, y), Shift4(Prod(m, Shl4(x), y)))
  {
    hide Add, MulP, Shl, Msb, Shl4, Shift4, Prod;
    ProdSplit(m, 4, x, y);
    ShlN4(0, x);
    MulPN4(Prod(m, Shl4(x), y));
    Shift4IsMulP4(Prod(m, Shl4(x), y));
  }

  // ----- Nibbles of a byte string

  lemma ShlN3(a: Elem)
    ensures ShlN(0, a) == a && ShlN(1, a) == Shl(a) && ShlN(2, a) == Shl(Shl(a)) && ShlN(3, a) == Shl(Shl(Shl(a)))
  {
    hide Shl;
    assert ShlN(1, a) == ShlN(0, Shl(a));
    assert ShlN(2, a) == ShlN(1, Shl(a)) == ShlN(0, Shl(Shl(a)));
    assert ShlN(3, a) == ShlN(2, Shl(a)) == ShlN(1, Shl(Shl(a))) == ShlN(0, Shl(Shl(Shl(a))));
  }

  lemma Prod4Unfolds(a: Elem, y: Elem)
    ensures Prod(4, a, y) ==
            Add(Scale(Msb(a), y), MulP(Add(Scale(Msb(Shl(a)), y), MulP(Add(Scale(Msb(Shl(Shl(a))), y),
                MulP(Add(Scale(Msb(Shl(Shl(Shl(a)))), y), MulP(ZERO))))))))
  {
    hide Add, MulP, Shl, Msb, Scale;
    var a1 := Shl(a);
    var a2 := Shl(a1);
    var a3 := Shl(a2);
    assert Prod(1, a3, y) == Add(Scale(Msb(a3), y), MulP(Prod(0, Shl(a3), y)));
    assert Prod(2, a2, y) == Add(Scale(Msb(a2), y), MulP(Prod(1, a3, y)));
    assert Prod(3, a1, y) == Add(Scale(Msb(a1), y), MulP(Prod(2, a2, y)));
  }

  lemma Prod4ByTopBits(a: Elem, b: Elem, y: Elem)
    requires TopBit(a.hi, 0) == TopBit(b.hi, 0) && TopBit(a.hi, 1) == TopBit(b.hi, 1)
    requires TopBit(a.hi, 2) == TopBit(b.hi, 2) && TopBit(a.hi, 3) == TopBit(b.hi, 3)
    ensures Prod(4, a, y) == Prod(4, b, y)
  {
    hide Add, MulP, Shl, Msb, TopBit, Prod, ShlN;
    TopCoefficient(a, 0); TopCoefficient(b, 0);
    TopCoefficient(a, 1); TopCoefficient(b, 1);
    TopCoefficient(a, 2); TopCoefficient(b, 2);
    TopCoefficient(a, 3); TopCoefficient(b, 3);
    ShlN3(a);
    ShlN3(b);
    Prod4Unfolds(a, y);
    Prod4Unfolds(b, y);
  }

  function TopNib(w: bv64): bv64 {
    w >> 60
  }

  lemma TopNibMasks(w: bv64)
    ensures w & 0x8000000000000000 == ((w >> 60) << 60) & 0x8000000000000000
    ensures w & 0x4000000000000000 == ((w >> 60) << 60) & 0x4000000000000000
    ensures w & 0x2000000000000000 == ((w >> 60) << 60) & 0x2000000000000000
    ensures w & 0x1000000000000000 == ((w >> 60) << 60) & 0x1000000000000000
  {
  }

  lemma TopNibBits(w: bv64)
    ensures TopBit(w, 0) == TopBit(TopNib(w) << 60, 0) && TopBit(w, 1) == TopBit(TopNib(w) << 60, 1)
    ensures TopBit(w, 2) == TopBit(TopNib(w) << 60, 2) && TopBit(w, 3) == TopBit(TopNib(w) << 60, 3)
  {
    TopNibMasks(w);
  }

  /** Only the top nibble of x matters to its four leading coefficients. */
  lemma Prod4Nibble(x: Elem, k: nat, y: Elem)
    requires k < 16 && k as bv64 == TopNib(x.hi)
    ensures Prod(4, x, y) == Entry(k, y)
  {
    hide Prod, TopBit, TopNib;
    TopNibBits(x.hi);
    Prod4ByTopBits(x, Nib(k), y);
  }

  function TopByte(w: bv64): byte {
    (w >> 56) as byte
  }

  function HiNib(t: byte): (k: nat)
    ensures k < 16
  {
    (t >> 4) as int
  }

  function LoNib(t: byte): (k: nat)
    ensures k < 16
  {
    (t & 0xf) as int
  }

  lemma HiNibWord(w: bv64)
    ensures TopNib(w) == (TopByte(w) >> 4) as bv64
  {
  }

  lemma LoNibWord(x: Elem)
    ensures TopNib(Shl4(x).hi) == (TopByte(x.hi) & 0xf) as bv64
  {
  }

  lemma NibValues(t: byte)
    ensures HiNib(t) as bv64 == (t >> 4) as bv64 && LoNib(t) as bv64 == (t & 0xf) as bv64
  {
  }

  lemma TopByteOf(b: Block)
    ensures TopByte(FromBytes(b).hi) == b[0]
  {
    TopByteWord(b[..8]);
  }

  lemma HiNibTop(b: Block)
    ensures HiNib(b[0]) as bv64 == TopNib(FromBytes(b).hi)
  {
    hide FromBytes, TopNib, TopByte, HiNib;
    TopByteOf(b);
    HiNibWord(FromBytes(b).hi);
    NibValues(b[0]);
  }

  lemma LoNibTop(b: Block)
    ensures LoNib(b[0]) as bv64 == TopNib(Shl4(FromBytes(b)).hi)
  {
    hide FromBytes, TopNib, TopByte, LoNib, Shl4;
    TopByteOf(b);
    LoNibWord(FromBytes(b));
    NibValues(b[0]);
  }

  lemma HiEntry(b: Block, y: Elem)
    ensures Prod(4, FromBytes(b), y) == Entry(HiNib(b[0]), y)
  {
    hide Prod, Entry, FromBytes, TopNib, HiNib;
    HiNibTop(b);
    Prod4Nibble(FromBytes(b), HiNib(b[0]), y);
  }

  lemma LoEntry(b: Block, y: Elem)
    ensures Prod(4, Shl4(FromBytes(b)), y) == Entry(LoNib(b[0]), y)
  {
    hide Prod, Entry, FromBytes, TopNib, LoNib, Shl4;
    LoNibTop(b);
    Prod4Nibble(Shl4(FromBytes(b)), LoNib(b[0]), y);
  }

  /** A whole byte of the Horner scheme. */
  lemma ByteStep(m: nat, b: Block, y: Elem)
    ensures Prod(m + 8, FromBytes(b), y) ==
            Add(Entry(HiNib(b[0]), y), Shift4(Prod(m + 4, Shl4(FromBytes(b)), y)))
    ensures Prod(m + 4, Shl4(FromBytes(b)), y) ==
            Add(Entry(LoNib(b[0]), y), Shift4(Prod(m, FromBytes(b[1..] + [0]), y)))
  {
    hide Add, Prod, Shift4, Entry, FromBytes, TopNib, HiNib, LoNib, Shl4, Shl8;
    var x := FromBytes(b);
    HiEntry(b, y);
    LoEntry(b, y);
    ProdSplit4(m + 4, x, y);
    ProdSplit4(m, Shl4(x), y);
    Shl4Twice(x);
    Shl8DropsByte(b);
  }

  /** The coefficients of x from byte i on, as an element of their own. */
  ghost function Tail(x: Block, i: nat): Elem
    requires i <= 16
  {
    FromBytes(x[i..] + Zeros(i))
  }

  lemma TailStep(x: Block, i: nat, H: Elem)
    requires i < 16
    ensures Prod(8 * (16 - i), Tail(x, i), H) ==
            Add(Entry(HiNib(x[i]), H),
                Shift4(Add(Entry(LoNib(x[i]), H), Shift4(Prod(8 * (15 - i), Tail(x, i + 1), H)))))
  {
    hide Add, Prod, Shift4, Entry, FromBytes, HiNib, LoNib, Shl4;
    var b: Block := x[i..] + Zeros(i);
    ByteStep(8 * (15 - i), b, H);
    assert b[1..] + [0] == x[i + 1..] + Zeros(i + 1);
  }

  lemma TailEnds(x: Block, H: Elem)
    ensures Prod(0, Tail(x, 16), H) == ZERO && Shift4(ZERO) == ZERO
    ensures Prod(128, Tail(x, 0), H) == Mul(FromBytes(x), H)
  {
    assert Rem(0) == 0;
    assert x[0..] + Zeros(0) == x;
  }

  /** The nibble loop, from the last byte of x to the first. */
  method MultTable(hl: array<bv64>, hh: array<bv64>, x: Block, ghost H: Elem) returns (output: Block)
    requires TableFor(hl[..], hh[..], H)
    ensures Coefficients(output) == Reduced(Product(Coefficients(x), Coefficients(ToBytes(H))))
    ensures output == ToBytes(Mul(FromBytes(x), H))
  {
    hide Add, Prod, Shift4, Entry, FromBytes, HiNib, LoNib, PutBe64, Tail;
    var lo := LoNib(x[15]);
    var z := Elem(hh[lo], hl[lo]);
    TailEnds(x, H);
    AddFacts(Entry(lo, H), ZERO, ZERO);
    var i := 15;
    while i >= 0
      invariant -1 <= i <= 15
      invariant i == 15 ==> z == Add(Entry(LoNib(x[15]), H), Shift4(Prod(0, Tail(x, 16), H)))
      invariant i < 15 ==> z == Prod(8 * (15 - i), Tail(x, i + 1), H)
    {
      TailStep(x, i, H);
      lo := LoNib(x[i]);
      var hi := HiNib(x[i]);
      if i != 15 {
        z := Add(Elem(hh[lo], hl[lo]), Shift4(z));
      }
      z := Add(Elem(hh[hi], hl[hi]), Shift4(z));
      i := i - 1;
    }
    output := PutBe64(z.hi) + PutBe64(z.lo);
    TableProduct(x, H);
  }

  lemma TableProduct(x: Block, H: Elem)
    ensures Coefficients(ToBytes(Mul(FromBytes(x), H))) ==
            Reduced(Product(Coefficients(x), Coefficients(ToBytes(H))))
  {
    hide FromBytes, ToBytes, Mul, Reduced, Product, Coefficients;
    BytesRoundTrip(H);
    MulIsPolynomialProduct(x, ToBytes(H));
  }

  // ----- Agreement

  /** The block GHASH multiplies into: H times y, operands as the bit-by-bit build passes them. */
  function GhashMul(h: Block, y: Block): Block {
    ToBytes(Mul(FromBytes(h), FromBytes(y)))
  }

  lemma GhashMulIs(h: Block, y: Block)
    ensures Coefficients(GhashMul(h, y)) == Reduced(Product(Coefficients(h), Coefficients(y)))
  {
    hide FromBytes, ToBytes, Mul, Coefficients, Reduced, Product;
    MulIsPolynomialProduct(h, y);
  }

  lemma WordXor(a: seq<byte>, b: seq<byte>)
    requires |a| == |b| == 8
    ensures Be64(Xor(a, b)) == XorWord(Be64(a), Be64(b))
  {
    var c := Xor(a, b);
    assert c == [a[0] ^ b[0], a[1] ^ b[1], a[2] ^ b[2], a[3] ^ b[3],
                 a[4] ^ b[4], a[5] ^ b[5], a[6] ^ b[6], a[7] ^ b[7]];
  }

  lemma BytesXor(a: Block, b: Block)
    ensures FromBytes(Xor(a, b)) == Add(FromBytes(a), FromBytes(b))
  {
    hide Be64, XorWord;
    WordXor(a[..8], b[..8]);
    WordXor(a[8..], b[8..]);
    assert Xor(a, b)[..8] == Xor(a[..8], b[..8]) && Xor(a, b)[8..] == Xor(a[8..], b[8..]);
  }

  lemma XorBytes(x: Elem, y: Elem)
    ensures ToBytes(Add(x, y)) == Xor(ToBytes(x), ToBytes(y))
  {
    hide FromBytes, ToBytes, Add, Xor;
    var a, b := ToBytes(x), ToBytes(y);
    BytesXor(a, b);
    BytesRoundTrip(x);
    BytesRoundTrip(y);
    BlockRoundTrip(Xor(a, b));
  }

  lemma BlockRoundTrip(b: Block)
    ensures ToBytes(FromBytes(b)) == b
  {
    hide Be64, PutBe64;
    Be64Inverse(b[..8]);
    Be64Inverse(b[8..]);
    assert b[..8] + b[8..] == b;
  }

  /** Multiplication by the hash key goes with sums of blocks. */
  lemma GhashMulAdds(h: Block, a: Block, b: Block)
    ensures GhashMul(h, Xor(a, b)) == Xor(GhashMul(h, a), GhashMul(h, b))
  {
    hide FromBytes, ToBytes, Prod, Add, Xor;
    BytesXor(a, b);
    ProdLinearRight(128, FromBytes(h), FromBytes(a), FromBytes(b));
    XorBytes(Mul(FromBytes(h), FromBytes(a)), Mul(FromBytes(h), FromBytes(b)));
  }

  lemma TableOrder(h: Block, y: Block)
    ensures ToBytes(Mul(FromBytes(y), FromBytes(h))) == GhashMul(h, y)
  {
    hide Mul, FromBytes, ToBytes;
    MulCommutes(FromBytes(y), FromBytes(h));
  }

  /** Both builds, run on the same hash key and block. */
  method BothBuilds(h: Block, y: Block) returns (viaBits: Block, viaTable: Block)
    ensures viaBits == viaTable == GhashMul(h, y)
    ensures Coefficients(viaBits) == Reduced(Product(Coefficients(h), Coefficients(y)))
  {
    hide Mul, FromBytes, ToBytes, TableFor;
    viaBits := GfMul(h, y);
    var hl, hh := new bv64[16], new bv64[16];
    GenTable(hl, hh, h);
    viaTable := MultTable(hl, hh, y, FromBytes(h));
    TableOrder(h, y);
  }
}
