/** 32-bit words as numbers. */
module WordNumbers {
  import opened Arithmetic
  import opened BigEndian
  import opened Bytes
  import opened Words

  lemma Assembled(a: byte, b: byte, c: byte, d: byte)
    ensures ((a as word << 24) | (b as word << 16) | (c as word << 8) | (d as word)) as int ==
            0x100_0000 * a as int + 0x1_0000 * b as int + 0x100 * c as int + d as int
  {
  }

  lemma FourBytes(s: seq<byte>)
    requires |s| == 4
    ensures Value(s) == 0x100_0000 * s[0] as int + 0x1_0000 * s[1] as int + 0x100 * s[2] as int + s[3] as int
  {
    assert s[..3][..2] == s[..2] && s[..2][..1] == s[..1] && s[..1][..0] == [];
    assert Value(s[..1]) == s[0] as int;
    assert Value(s[..2]) == 256 * s[0] as int + s[1] as int;
    assert Value(s[..3]) == 256 * Value(s[..2]) + s[2] as int;
  }

  /** A word read from four bytes is the number they spell out. */
  lemma WordValue(s: seq<byte>)
    requires |s| == 4
    ensures GetWord(s) as int == Value(s)
  {
    Assembled(s[0], s[1], s[2], s[3]);
    FourBytes(s);
  }

  lemma BytesValue(w: word)
    ensures Value(PutWord(w)) == w as int
  {
    hide GetWord, PutWord;
    GetPut(w);
    WordValue(PutWord(w));
  }

  // ----- Adding a byte

  // The proofs below hide the word operations; these names keep them together.

  function Num(b: byte): (n: nat)
    ensures n < 256
  {
    ByteRange(b);
    b as int
  }

  function Number(w: word): (n: nat)
    ensures n < TWO32
  {
    WordBound(w);
    w as int
  }

  function AddBytes(a: byte, c: byte): byte {
    a + c
  }

  function Added(w: word, c: byte): word {
    w + c as word
  }

  /** The last byte of w plus c still is a byte. */
  predicate Stays(w: word, c: byte) {
    (w & 0xff) + c as word <= 0xff
  }

  function Low(w: word): byte {
    (w & 0xff) as byte
  }

  function High(w: word): word {
    w >> 8
  }

  /** The last three bytes. */
  function Three(x: word): (r: seq<byte>)
    ensures |r| == 3
  {
    [Low(High(High(x))), Low(High(x)), Low(x)]
  }

  /** Plus one on the last three bytes. */
  function Next(w: word): word {
    (w + 1) & 0xffffff
  }

  lemma ByteLayout(w: word)
    ensures PutWord(w) == Three(High(w)) + [Low(w)]
  {
  }

  lemma AddLow(w: word, c: byte)
    ensures Low(Added(w, c)) == AddBytes(Low(w), c)
  {
  }

  lemma AddNoCarry(w: word, c: byte)
    requires Stays(w, c)
    ensures High(Added(w, c)) == High(w)
  {
  }

  lemma AddCarry(w: word, c: byte)
    requires !Stays(w, c)
    ensures High(Added(w, c)) == Next(High(w))
  {
  }

  lemma CarryTest(w: word, c: byte)
    ensures Stays(w, c) <==> Low(w) + c >= c
  {
  }

  lemma WideSum(a: byte, c: byte)
    ensures (a as bv16 + c as bv16) as int == a as int + c as int
  {
  }

  lemma WideParts(a: byte, c: byte)
    ensures a as bv16 + c as bv16 <= 0x1ff && a + c == ((a as bv16 + c as bv16) & 0xff) as byte
    ensures a as bv16 + c as bv16 <= 0xff <==> a + c >= c
  {
  }

  lemma Narrowed(t: bv16)
    requires t <= 0x1ff
    ensures t <= 0xff <==> t as int < 256
    ensures ((t & 0xff) as byte) as int == if t <= 0xff then t as int else t as int - 256
  {
  }

  lemma ByteSum(a: byte, c: byte)
    ensures a + c >= c <==> Num(a) + Num(c) < 256
    ensures Num(AddBytes(a, c)) == if Num(a) + Num(c) < 256 then Num(a) + Num(c) else Num(a) + Num(c) - 256
  {
    WideSum(a, c);
    WideParts(a, c);
    Narrowed(a as bv16 + c as bv16);
  }

  lemma NextLow(x: word)
    ensures Low(Next(x)) == Low(x) + 1 && (Low(x) == 255 <==> Low(x) + 1 == 0)
    ensures x <= 0xffffff && Low(x) != 255 ==> High(Next(x)) == High(x)
    ensures x <= 0xffffff && Low(x) == 255 ==> High(Next(x)) == Next(High(x)) & 0xffff
  {
  }

  lemma NextHigh(y: word)
    ensures y <= 0xffff ==> Low(Next(y) & 0xffff) == Low(y) + 1 && Low(High(High(y))) == 0
    ensures y <= 0xffff && Low(y) != 255 ==> High(Next(y) & 0xffff) == High(y)
    ensures y <= 0xffff && Low(y) == 255 ==> Low(High(Next(y) & 0xffff)) == Low(High(y)) + 1
  {
  }

  lemma HighBound(w: word)
    ensures High(w) <= 0xffffff && (w <= 0xffffff ==> High(w) <= 0xffff)
  {
  }

  lemma ThreeNext(x: word)
    requires x <= 0xffffff
    ensures Three(Next(x)) == Bump(Three(x))
  {
    hide Low, High, Next, Bump;
    BumpThree(Low(High(High(x))), Low(High(x)), Low(x));
    HighBound(x);
    NextLow(x);
    NextHigh(High(x));
  }

  lemma AddedHigh(w: word, c: byte)
    ensures High(Added(w, c)) == if Num(Low(w)) + Num(c) < 256 then High(w) else Next(High(w))
  {
    hide Low, High, Next, Added, Num, Stays;
    CarryTest(w, c);
    ByteSum(Low(w), c);
    if Stays(w, c) {
      AddNoCarry(w, c);
    } else {
      AddCarry(w, c);
    }
  }

  /** What the bytes of the sum are: the carry goes through the first three. */
  lemma AddedBytes(w: word, c: byte)
    ensures var s := PutWord(w);
            PutWord(Added(w, c)) ==
            (if Num(s[3]) + Num(c) < 256 then s[..3] else Bump(s[..3])) + [AddBytes(s[3], c)]
  {
    hide Low, High, Next, PutWord, Three, Bump, Num, AddBytes, Added;
    ByteLayout(w);
    ByteLayout(Added(w, c));
    AddLow(w, c);
    AddedHigh(w, c);
    HighBound(w);
    ThreeNext(High(w));
    assert PutWord(w)[..3] == Three(High(w));
  }

  lemma BumpThree(a: byte, b: byte, c: byte)
    ensures Bump([a, b, c]) ==
            if c != 255 then [a, b, c + 1] else if b != 255 then [a, b + 1, 0] else [a + 1, 0, 0]
  {
    assert [a, b, c][..2] == [a, b] && [a, b][..1] == [a] && [a][..0] == [];
    assert Bump([a]) == [a + 1];
  }

  lemma ThreeBytes(s: seq<byte>, b: byte)
    requires |s| == 3
    ensures Value(s + [b]) == 256 * Value(s) + Num(b) && Pow256(3) == 0x100_0000
  {
    assert (s + [b])[..3] == s;
    assert Pow256(1) == 256;
  }

  lemma WordBound(w: word)
    ensures 0 <= w as int < TWO32
  {
  }

  lemma CarrySum(v: nat, b: nat, c: nat)
    requires v < 0x100_0000 && b < 256 && c < 256
    ensures b + c < 256 ==> 256 * v + (b + c) == (256 * v + b + c) % TWO32
    ensures b + c >= 256 ==>
              256 * (if v + 1 == 0x100_0000 then 0 else v + 1) + (b + c - 256) == (256 * v + b + c) % TWO32
  {
  }

  lemma SumOfBytes(s: seq<byte>, b: byte, c: byte)
    requires |s| == 3
    ensures Value((if Num(b) + Num(c) < 256 then s else Bump(s)) + [AddBytes(b, c)]) ==
            (Value(s + [b]) + Num(c)) % TWO32
  {
    hide Bump, Value, Pow256, Num, AddBytes;
    ByteSum(b, c);
    ThreeBytes(s, b);
    ThreeBytes(s, AddBytes(b, c));
    ThreeBytes(Bump(s), AddBytes(b, c));
    BumpValue(s);
    ValueBound(s);
    CarrySum(Value(s), Num(b), Num(c));
  }

  /** Adding a byte to a word is addition modulo 2^32. */
  lemma AddedNumber(w: word, c: byte)
    ensures Number(Added(w, c)) == (Number(w) + Num(c)) % TWO32
  {
    hide PutWord, Bump, Value, Num, AddBytes, Added, Number;
    NumberOfBytes(w);
    NumberOfBytes(Added(w, c));
    AddedBytes(w, c);
    SumOfBytes(PutWord(w)[..3], PutWord(w)[3], c);
    assert PutWord(w)[..3] + [PutWord(w)[3]] == PutWord(w);
  }

  lemma NumberOfBytes(w: word)
    ensures Value(PutWord(w)) == Number(w)
  {
    hide PutWord, Value;
    BytesValue(w);
  }

  // ----- Shifting by four

  lemma TopAndRest(w: word)
    ensures w as int == 0x1000_0000 * ((w >> 28) as int) + (w & 0x0fffffff) as int
  {
  }

  lemma RestShifted(w: word)
    ensures (w << 4) as int == 16 * ((w & 0x0fffffff) as int)
  {
  }

  lemma TopOut(n: nat, top: nat, rest: nat, shifted: nat)
    requires n == 0x1000_0000 * top + rest && shifted == 16 * rest < TWO32
    ensures shifted == 16 * n % TWO32
  {
  }

  lemma ShiftLeft4(w: word)
    ensures (w << 4) as int == 16 * (w as int) % TWO32
  {
    TopAndRest(w);
    RestShifted(w);
    WordBound(w);
    WordBound(w >> 28);
    WordBound(w & 0x0fffffff);
    WordBound(w << 4);
    TopOut(w as int, (w >> 28) as int, (w & 0x0fffffff) as int, (w << 4) as int);
  }
}
