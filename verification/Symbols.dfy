/** Symbol lookup through the System V hash table, and the order in which modules are searched. */
module Symbols {
  import opened Arithmetic
  import opened BigEndian
  import opened Bytes
  import opened WordNumbers
  import opened Words

  // ----- The hash function

  /** One more character: shift in four bits, fold the top four back. */
  function HashStep(h: word, c: byte): word {
    Folded(Shifted(h, c))
  }

  function Times16(h: word): word {
    h << 4
  }

  function Shifted(h: word, c: byte): word {
    Times16(h) + c as word
  }

  function Folded(s: word): word {
    var g := s & 0xf0000000;
    Without(XorTop(s, g), g)
  }

  function XorTop(s: word, g: word): word {
    s ^ (g >> 24)
  }

  function Without(s: word, g: word): word {
    s & !g
  }

  lemma XorNothing(s: word)
    ensures XorTop(s, 0) == s
  {
  }

  function Hash(name: seq<byte>): word {
    if name == [] then 0 else HashStep(Hash(name[..|name| - 1]), name[|name| - 1])
  }

  /** The top four bits stay clear, so the shift never loses any. */
  lemma {:induction false} HashIs28Bits(name: seq<byte>)
    ensures Hash(name) & 0xf0000000 == 0
  {
    if name != [] {
      StepClears(Hash(name[..|name| - 1]), name[|name| - 1]);
    }
  }

  lemma StepClears(h: word, c: byte)
    ensures HashStep(h, c) & 0xf0000000 == 0
  {
    hide Shifted, Folded;
    FoldClears(Shifted(h, c));
  }

  lemma FoldClears(s: word)
    ensures Folded(s) & 0xf0000000 == 0
  {
  }

  // ----- The hash as a number

  /** s below 2^28, with the four bits above it added modulo two at bits 4 to 7. */
  function FoldedNumber(s: nat): nat
    requires s < TWO32
  {
    s % 0x1000_0000 / 256 * 256 + Num(Xored(ByteOf(s % 256), ByteOf(16 * (s / 0x1000_0000))))
  }

  /** Each character is added to sixteen times the hash so far, modulo 2^32. */
  function HashNumber(name: seq<byte>): nat {
    if name == [] then 0 else
    FoldedNumber((16 * HashNumber(name[..|name| - 1]) + name[|name| - 1] as int) % TWO32)
  }

  lemma FoldedFirst(w: word)
    ensures ((Folded(w) >> 24) & 0xff) as byte == ((w >> 24) & 0xff) as byte & 0x0f
  {
  }

  lemma FoldedMiddle(w: word)
    ensures ((Folded(w) >> 16) & 0xff) as byte == ((w >> 16) & 0xff) as byte
    ensures ((Folded(w) >> 8) & 0xff) as byte == ((w >> 8) & 0xff) as byte
  {
  }

  lemma FoldedLast(w: word)
    ensures (Folded(w) & 0xff) as byte == (w & 0xff) as byte ^ (((w >> 24) & 0xff) as byte & 0xf0)
  {
  }

  lemma FoldedBytes(w: word)
    ensures var s := PutWord(w);
            PutWord(Folded(w)) == [And(s[0], 0x0f), s[1], s[2], Xored(s[3], And(s[0], 0xf0))]
  {
    FoldedFirst(w);
    FoldedMiddle(w);
    FoldedLast(w);
    hide Folded;
  }

  function And(a: byte, b: byte): byte {
    a & b
  }

  function Xored(a: byte, b: byte): byte {
    a ^ b
  }

  lemma ByteSplits(a: byte)
    ensures a as int == 16 * ((a >> 4) as int) + (a & 0x0f) as int && (a & 0x0f) as int < 16
    ensures (a & 0xf0) as int == 16 * ((a >> 4) as int)
  {
  }

  lemma NibblesOf(a: byte)
    ensures Num(And(a, 0x0f)) == Num(a) % 16 && Num(And(a, 0xf0)) == Num(a) / 16 * 16
  {
    ByteSplits(a);
    ByteRange(a >> 4);
    ByteRange(a & 0x0f);
    DivUnique(a as int, 16, (a >> 4) as int, (a & 0x0f) as int);
  }

  lemma FoldedParts(a: nat, b: nat, c: nat, d: nat)
    requires a < 256 && b < 256 && c < 256 && d < 256
    ensures var s := 0x100_0000 * a + 0x1_0000 * b + 0x100 * c + d;
            && s % 0x1000_0000 / 256 * 256 == 0x100_0000 * (a % 16) + 0x1_0000 * b + 0x100 * c
            && s % 256 == d && s / 0x1000_0000 == a / 16
  {
    var s, q, e := 0x100_0000 * a + 0x1_0000 * b + 0x100 * c + d, a / 16, a % 16;
    var r, v := 0x1_0000 * e + 0x100 * b + c, 256 * (0x1_0000 * e + 0x100 * b + c) + d;
    assert a == 16 * q + e;
    assert s == 0x1000_0000 * q + v && v < 0x1000_0000;
    DivUnique(s, 0x1000_0000, q, v);
    DivUnique(v, 256, r, d);
    DivUnique(s, 256, 0x10_0000 * q + r, d);
  }

  lemma FourNumbers(s: seq<byte>)
    requires |s| == 4
    ensures Value(s) == 0x100_0000 * Num(s[0]) + 0x1_0000 * Num(s[1]) + 0x100 * Num(s[2]) + Num(s[3])
  {
    hide Value;
    FourBytes(s);
  }

  lemma ByteOfNum(b: byte)
    ensures ByteOf(Num(b)) == b
  {
    hide ByteOf;
    ByteOfNat(Num(b));
    ByteUnique(ByteOf(Num(b)), b);
  }

  lemma FoldedIs(w: word)
    ensures Number(Folded(w)) == FoldedNumber(Number(w))
  {
    hide Folded, PutWord, Num, Number, ByteOf, Value, And, Xored;
    var s := PutWord(w);
    FoldedBytes(w);
    NumberOfBytes(w);
    NumberOfBytes(Folded(w));
    FourNumbers(s);
    FourNumbers(PutWord(Folded(w)));
    NibblesOf(s[0]);
    FoldedParts(Num(s[0]), Num(s[1]), Num(s[2]), Num(s[3]));
    ByteOfNum(s[3]);
    ByteOfNum(And(s[0], 0xf0));
  }

  lemma StepIs(h: word, c: byte)
    ensures Number(HashStep(h, c)) == FoldedNumber((16 * Number(h) + Num(c)) % TWO32)
  {
    hide Folded, FoldedNumber;
    FoldedIs(Shifted(h, c));
    ShiftedIs(h, c);
  }

  lemma Times16Is(h: word)
    ensures Number(Times16(h)) == 16 * Number(h) % TWO32
  {
    ShiftLeft4(h);
  }

  lemma ShiftedAdds(h: word, c: byte)
    ensures Shifted(h, c) == Added(Times16(h), c)
  {
    hide Times16;
  }

  lemma ShiftedIs(h: word, c: byte)
    ensures Number(Shifted(h, c)) == (16 * Number(h) + Num(c)) % TWO32
  {
    hide Number, Num, Shifted, Times16, Added;
    ShiftedAdds(h, c);
    AddedNumber(Times16(h), c);
    Times16Is(h);
    SumWraps(Number(h), Num(c));
  }

  lemma SumWraps(h: nat, c: nat)
    ensures (16 * h % TWO32 + c) % TWO32 == (16 * h + c) % TWO32
  {
    ModAdd(16 * h, c, TWO32);
  }

  lemma {:induction false} HashIsNumber(name: seq<byte>)
    ensures Number(Hash(name)) == HashNumber(name)
  {
    hide HashStep, FoldedNumber;
    if name != [] {
      HashIsNumber(name[..|name| - 1]);
      StepIs(Hash(name[..|name| - 1]), name[|name| - 1]);
    }
  }

  // ----- Short names

  function Pow16(n: nat): nat {
    if n == 0 then 1 else 16 * Pow16(n - 1)
  }

  /** The sum of the characters, each weighted by 16 to the number of characters behind it. */
  function WeightedSum(name: seq<byte>): nat {
    if name == [] then 0 else Times(Num(name[0]), Pow16(|name| - 1)) + WeightedSum(name[1..])
  }

  lemma {:induction false} Scaled(a: nat, p: nat)
    ensures Times(a, 16 * p) == 16 * Times(a, p) && Times(a, 1) == a
    ensures a <= 255 ==> Times(a, p) <= 255 * p
  {
    hide Times;
    TimesStep(0, 16 * p);
    TimesStep(0, p);
    TimesStep(0, 1);
    if a > 0 {
      Scaled(a - 1, p);
      TimesStep(a - 1, 16 * p);
      TimesStep(a - 1, p);
      TimesStep(a - 1, 1);
    }
    if a <= 255 {
      ScaledBound(a, p);
    }
  }

  lemma ScaledBound(a: nat, p: nat)
    requires a <= 255
    ensures Times(a, p) <= 255 * p
  {
    TimesSum(a, 255 - a, p);
    assert Times(255, p) == 255 * p;
  }

  lemma {:induction false} WeightedLast(name: seq<byte>, c: byte)
    ensures WeightedSum(name + [c]) == 16 * WeightedSum(name) + Num(c)
  {
    hide Num, Times;
    if name == [] {
      assert (name + [c])[1..] == [];
      Scaled(Num(c), 1);
    } else {
      WeightedLast(name[1..], c);
      assert (name + [c])[1..] == name[1..] + [c];
      Scaled(Num(name[0]), Pow16(|name| - 1));
    }
  }

  lemma FoldedSmall(s: nat)
    requires s < 0x1000_0000
    ensures FoldedNumber(s) == s
  {
    hide ByteOf, Num;
    ByteOfNat(s % 256);
    NumOf(ByteOf(s % 256));
    NumOf(ByteOf(0));
    ByteOfNat(0);
    XorZero(ByteOf(s % 256), ByteOf(0));
    DivSplits(s, 256);
  }

  lemma NumOf(b: byte)
    ensures Num(b) == b as int
  {
  }

  lemma XorZero(a: byte, z: byte)
    requires z as int == 0
    ensures Xored(a, z) == a
  {
    ByteUnique(z, 0);
  }

  /** As long as the weighted sum stays below 2^28 it is the hash. */
  lemma {:induction false} HashOfShort(name: seq<byte>)
    requires WeightedSum(name) < 0x1000_0000
    ensures HashNumber(name) == WeightedSum(name)
  {
    hide WeightedSum, FoldedNumber, Num;
    if name == [] {
      NoSum();
    } else {
      var init, c := name[..|name| - 1], name[|name| - 1];
      assert init + [c] == name;
      WeightedLast(init, c);
      HashOfShort(init);
      NumOf(c);
      FoldedSmall(WeightedSum(name));
    }
  }

  lemma NoSum()
    ensures WeightedSum([]) == 0
  {
  }

  lemma {:induction false} WeightedBound(name: seq<byte>)
    ensures 15 * WeightedSum(name) <= 255 * (Pow16(|name|) - 1)
  {
    hide Num, Times;
    if name != [] {
      WeightedBound(name[1..]);
      Scaled(Num(name[0]), Pow16(|name| - 1));
    }
  }

  lemma {:induction false} Pow16Bound(n: nat)
    requires n <= 5
    ensures Pow16(n) <= 0x10_0000
  {
    assert Pow16(1) == 16 && Pow16(2) == 0x100 && Pow16(3) == 0x1000;
  }

  lemma FiveBytes(name: seq<byte>)
    requires |name| <= 5
    ensures HashNumber(name) == WeightedSum(name)
  {
    hide WeightedSum, HashNumber, Pow16;
    WeightedBound(name);
    Pow16Bound(|name|);
    HashOfShort(name);
  }

  method ElfHash(name: seq<byte>) returns (h: word)
    ensures h as int == HashNumber(name) && (|name| <= 5 ==> h as int == WeightedSum(name))
    ensures h == Hash(name)
  {
    HashIsNumber(name);
    if |name| <= 5 {
      FiveBytes(name);
    }
    hide HashStep, HashNumber, WeightedSum;
    h := 0;
    for i := 0 to |name|
      invariant h == Hash(name[..i])
    {
      assert name[..i + 1][..i] == name[..i];
      h := Fold(h, name[i]);
    }
    assert name[..|name|] == name;
  }

  method Fold(h0: word, c: byte) returns (h: word)
    ensures h == HashStep(h0, c)
  {
    hide Shifted;
    h := Shifted(h0, c);
    h := FoldTop(h);
  }

  method FoldTop(s: word) returns (h: word)
    ensures h == Folded(s)
  {
    hide XorTop, Without;
    h := s;
    var g := h & 0xf0000000;
    if g != 0 {
      h := XorTop(h, g);
    } else {
      XorNothing(h);
    }
    h := Without(h, g);
  }

  // ----- Symbols and modules

  datatype Bind = Global | Weak | OtherBind

  datatype Kind = NoType | Object | Func | Tls | OtherType

  datatype Section = Undef | XIndex | Defined

  datatype Symbol = Symbol(name: nat, bind: Bind, kind: Kind, section: Section, value: nat)

  /** The string table and what lies behind it, the symbol table and the hash table, and where the module is mapped. */
  datatype Module = Module(dynstr: seq<byte>, behind: seq<byte>, syms: seq<Symbol>, bucket: seq<nat>, chain: seq<nat>,
                           base: nat, size: nat)

  /** The zero-terminated string at an offset. */
  function StringAt(s: seq<byte>, at: nat): seq<byte>
    decreases |s| - at
  {
    if at >= |s| || s[at] == 0 then [] else [s[at]] + StringAt(s, at + 1)
  }

  /** That is everything up to the first zero byte, or to the end. */
  lemma {:induction false} StringSpan(s: seq<byte>, at: nat) returns (k: nat)
    requires at <= |s|
    ensures at <= k <= |s| && StringAt(s, at) == s[at..k] && 0 !in s[at..k] && (k < |s| ==> s[k] == 0)
    decreases |s| - at
  {
    if at == |s| || s[at] == 0 {
      k := at;
    } else {
      k := StringSpan(s, at + 1);
      assert s[at..k] == [s[at]] + s[at + 1..k];
    }
  }

  /** The string of a symbol's name, which may run on past the table. */
  function NameAt(m: Module, at: nat): seq<byte> {
    StringAt(m.dynstr + m.behind, at)
  }

  /** The string at an offset ends within s. */
  predicate Terminated(s: seq<byte>, at: nat) {
    exists k :: at <= k < |s| && s[k] == 0
  }

  lemma {:induction false} StringEnds(s: seq<byte>, t: seq<byte>, at: nat)
    requires at <= |s|
    ensures Terminated(s, at) ==> StringAt(s + t, at) == StringAt(s, at)
    ensures !Terminated(s, at) ==> StringAt(s + t, at) == s[at..] + StringAt(s + t, |s|)
    decreases |s| - at
  {
    if at < |s| && s[at] != 0 {
      StringEnds(s, t, at + 1);
      if Terminated(s, at) {
        var k :| at <= k < |s| && s[k] == 0;
        assert at + 1 <= k;
      }
      assert s[at..] == [s[at]] + s[at + 1..];
    }
  }

  /**
   * The bounds test admits an offset one past the table. What is compared depends on the table alone exactly when
   * the string ends within it; then the test is enough.
   */
  lemma NameInBounds(m: Module, at: nat)
    requires at <= |m.dynstr|
    ensures (forall t :: NameAt(m.(behind := t), at) == NameAt(m, at)) <==> Terminated(m.dynstr, at)
    ensures !Terminated(m.dynstr, |m.dynstr|)
  {
    var s := m.dynstr;
    if Terminated(s, at) {
      StringEnds(s, m.behind, at);
      forall t ensures NameAt(m.(behind := t), at) == NameAt(m, at) {
        StringEnds(s, t, at);
      }
    } else {
      RunsOn(m, at);
    }
  }

  lemma RunsOn(m: Module, at: nat)
    requires at <= |m.dynstr| && !Terminated(m.dynstr, at)
    ensures NameAt(m.(behind := []), at) != NameAt(m.(behind := [1]), at)
  {
    var s := m.dynstr;
    var one: seq<byte> := [1];
    StringEnds(s, [], at);
    StringEnds(s, one, at);
    assert StringAt(s + [], |s|) == [];
    assert StringAt(s + one, |s|) == [1] + StringAt(s + one, |s| + 1);
  }

  datatype Match = NoMatch | Found(value: nat) | Abort

  /** Whether symbol s answers to name, and with what value. */
  function TrySymbol(m: Module, s: Symbol, name: seq<byte>, weakOk: bool): Match {
    if s.name == 0 then NoMatch
    else if s.name > |m.dynstr| then Abort
    else if NameAt(m, s.name) != name then NoMatch
    else if s.bind != Global && !(weakOk && s.bind == Weak) then NoMatch
    else if s.bind == Weak && s.section == Undef then Found(0)
    else if s.section != Defined then NoMatch
    else match s.kind
      case NoType | Object | Func => if s.value > m.size then Abort else Found(s.value + m.base)
      case Tls => Found(s.value)
      case OtherType => Abort
  }

  /** The symbol has the name, and a binding that counts. */
  predicate Named(m: Module, s: Symbol, name: seq<byte>, weakOk: bool) {
    && 0 < s.name <= |m.dynstr| && NameAt(m, s.name) == name
    && (s.bind == Global || (s.bind == Weak && weakOk))
  }

  /**
   * When a symbol is found and with what value: an undefined weak one as zero, a thread-local one as its offset, any
   * other as an address within the module. When the search is given up: at a name or value out of range, or at a type
   * that is not known.
   */
  lemma TrySymbolFinds(m: Module, s: Symbol, name: seq<byte>, weakOk: bool, v: nat)
    ensures TrySymbol(m, s, name, weakOk) == Found(v) <==>
            && Named(m, s, name, weakOk)
            && ((s.bind == Weak && s.section == Undef && v == 0) ||
                (s.section == Defined && s.kind == Tls && v == s.value) ||
                (s.section == Defined && s.kind != Tls && s.kind != OtherType &&
                 s.value <= m.size && v == m.base + s.value))
    ensures TrySymbol(m, s, name, weakOk) == Abort <==>
            || s.name > |m.dynstr|
            || (Named(m, s, name, weakOk) && s.section == Defined &&
                (s.kind == OtherType || (s.kind != Tls && s.value > m.size)))
  {
    hide NameAt;
  }

  // ----- The chain walk

  /** A rank that falls along the chains shows that they end. */
  ghost predicate Ranks(m: Module, rank: seq<nat>) {
    && |rank| == |m.chain|
    && forall n :: 0 <= n < |m.chain| ==>
                     m.chain[n] == 0 || m.chain[n] >= |m.chain| || rank[m.chain[n]] < rank[n]
  }

  predicate InRange(m: Module, n: nat) {
    n < |m.chain| && n < |m.syms|
  }

  ghost function Rank(m: Module, rank: seq<nat>, n: nat): nat
    requires Ranks(m, rank)
  {
    if n == 0 || n >= |m.chain| then 0 else rank[n] + 1
  }

  /** The first symbol on the chain from n that is not passed over. */
  ghost function Walk(m: Module, rank: seq<nat>, name: seq<byte>, weakOk: bool, n: nat): Match
    requires Ranks(m, rank)
    decreases Rank(m, rank, n)
  {
    if n == 0 then NoMatch
    else if !InRange(m, n) then Abort
    else var t := TrySymbol(m, m.syms[n], name, weakOk);
      if t == NoMatch then Walk(m, rank, name, weakOk, m.chain[n]) else t
  }

  ghost predicate OnChain(m: Module, rank: seq<nat>, n: nat, i: nat)
    requires Ranks(m, rank)
    decreases Rank(m, rank, n)
  {
    n != 0 && InRange(m, n) && (n == i || OnChain(m, rank, m.chain[n], i))
  }

  function Bucket(m: Module, name: seq<byte>): nat
    requires m.bucket != []
  {
    m.bucket[HashNumber(name) % |m.bucket|]
  }

  method ResolveHelper(m: Module, hash: word, name: seq<byte>, weakOk: bool, ghost rank: seq<nat>) returns (r: Match)
    requires m.bucket != [] && Ranks(m, rank) && hash == Hash(name)
    ensures r == Walk(m, rank, name, weakOk, Bucket(m, name))
  {
    HashIsNumber(name);
    var n: nat := m.bucket[hash as int % |m.bucket|];
    while n != 0
      invariant Walk(m, rank, name, weakOk, n) == Walk(m, rank, name, weakOk, Bucket(m, name))
      decreases Rank(m, rank, n)
    {
      if n >= |m.chain| || n >= |m.syms| {
        return Abort;
      }
      var t := TrySymbol(m, m.syms[n], name, weakOk);
      if t != NoMatch {
        return t;
      }
      n := m.chain[n];
    }
    return NoMatch;
  }

  // ----- Lookup agrees with a scan of the symbol table

  /** The table links every named symbol into the bucket of its name and stays within bounds. */
  ghost predicate TableOk(m: Module, rank: seq<nat>) {
    && m.bucket != [] && Ranks(m, rank) && m.syms != [] && m.syms[0].name == 0
    && (forall b :: 0 <= b < |m.bucket| ==> InRange(m, m.bucket[b]))
    && (forall n :: 0 <= n < |m.chain| ==> InRange(m, m.chain[n]))
    && (forall i :: 0 <= i < |m.syms| ==> m.syms[i].name <= |m.dynstr|)
    && (forall i :: 0 < i < |m.syms| && m.syms[i].name != 0 ==> 
                     OnChain(m, rank, m.bucket[HashNumber(NameOf(m, i)) % |m.bucket|], i))
  }

  function NameOf(m: Module, i: nat): seq<byte>
    requires i < |m.syms|
  {
    NameAt(m, m.syms[i].name)
  }

  ghost predicate UniqueNames(m: Module) {
    forall i, j :: 0 <= i < j < |m.syms| && m.syms[i].name != 0 && m.syms[j].name != 0 ==> NameOf(m, i) != NameOf(m, j)
  }

  /** The first symbol from k on that is not passed over. */
  function Scan(m: Module, name: seq<byte>, weakOk: bool, k: nat): Match
    decreases |m.syms| - k
  {
    if k >= |m.syms| then NoMatch
    else var t := TrySymbol(m, m.syms[k], name, weakOk);
      if t == NoMatch then Scan(m, name, weakOk, k + 1) else t
  }

  /** No symbol but i answers to name. */
  ghost predicate OnlyFor(m: Module, name: seq<byte>, i: nat) {
    forall j :: 0 <= j < |m.syms| && j != i ==>
                  m.syms[j].name == 0 || (m.syms[j].name <= |m.dynstr| && NameOf(m, j) != name)
  }

  lemma {:induction false} WalkOnly(m: Module, rank: seq<nat>, name: seq<byte>, weakOk: bool, n: nat, i: nat)
    requires TableOk(m, rank) && OnlyFor(m, name, i) && InRange(m, n)
    ensures Walk(m, rank, name, weakOk, n) ==
            if i < |m.syms| && OnChain(m, rank, n, i) then TrySymbol(m, m.syms[i], name, weakOk) else NoMatch
    decreases Rank(m, rank, n)
  {
    if n != 0 {
      WalkOnly(m, rank, name, weakOk, m.chain[n], i);
    }
  }

  lemma {:induction false} ScanOnly(m: Module, name: seq<byte>, weakOk: bool, k: nat, i: nat)
    requires OnlyFor(m, name, i)
    ensures Scan(m, name, weakOk, k) == if k <= i < |m.syms| then TrySymbol(m, m.syms[i], name, weakOk) else NoMatch
    decreases |m.syms| - k
  {
    if k < |m.syms| {
      ScanOnly(m, name, weakOk, k + 1, i);
    }
  }

  /** The index of the symbol with that name, or one past the end. */
  lemma IndexOf(m: Module, name: seq<byte>) returns (i: nat)
    requires UniqueNames(m) && forall j :: 0 <= j < |m.syms| ==> m.syms[j].name <= |m.dynstr|
    ensures OnlyFor(m, name, i) && (i < |m.syms| ==> m.syms[i].name != 0 && NameOf(m, i) == name)
  {
    hide NameAt;
    i := |m.syms|;
    if k :| 0 <= k < |m.syms| && m.syms[k].name != 0 && NameOf(m, k) == name {
      i := k;
    }
  }

  /** Through the hash table a name is found exactly as by reading the whole symbol table. */
  lemma LookupIsScan(m: Module, rank: seq<nat>, name: seq<byte>, weakOk: bool)
    requires TableOk(m, rank) && UniqueNames(m)
    ensures Walk(m, rank, name, weakOk, Bucket(m, name)) == Scan(m, name, weakOk, 0)
  {
    var i := IndexOf(m, name);
    WalkOnly(m, rank, name, weakOk, Bucket(m, name), i);
    ScanOnly(m, name, weakOk, 0, i);
  }

  // ----- Searching modules

  /** A module with the evidence that its chains end. */
  datatype Entry = Entry(m: Module, rank: seq<nat>)

  ghost predicate Searchable(e: Entry) {
    e.m.bucket != [] && Ranks(e.m, e.rank)
  }

  ghost function Lookup(e: Entry, name: seq<byte>, weakOk: bool): Match
    requires Searchable(e)
  {
    Walk(e.m, e.rank, name, weakOk, Bucket(e.m, name))
  }

  /** What a module answers: its global symbol if it has one, else a weak one. */
  ghost function Answer(e: Entry, name: seq<byte>): Match
    requires Searchable(e)
  {
    if Lookup(e, name, false) != NoMatch then Lookup(e, name, false) else Lookup(e, name, true)
  }

  datatype Resolved = NotFound | FoundIn(position: nat, value: nat) | Failed

  ghost predicate AllSearchable(order: seq<Entry>) {
    forall i :: 0 <= i < |order| ==> Searchable(order[i])
  }

  /** The first module from position k on that answers, or one past the end. */
  ghost function FirstAnswer(order: seq<Entry>, name: seq<byte>, k: nat): (f: nat)
    requires AllSearchable(order) && k <= |order|
    ensures k <= f <= |order| && (f < |order| ==> Answer(order[f], name) != NoMatch)
    ensures forall i :: k <= i < f ==> Answer(order[i], name) == NoMatch
    decreases |order| - k
  {
    if k == |order| || Answer(order[k], name) != NoMatch then k else FirstAnswer(order, name, k + 1)
  }

  /** What comes of the answer of the module at position p. */
  function Decide(p: nat, t: Match): Resolved {
    match t
    case NoMatch => NotFound
    case Found(v) => FoundIn(p, v)
    case Abort => Failed
  }

  /** The first module that answers decides. */
  ghost function Resolve(order: seq<Entry>, name: seq<byte>): Resolved
    requires AllSearchable(order)
  {
    var f := FirstAnswer(order, name, 0);
    if f == |order| then NotFound else Decide(f, Answer(order[f], name))
  }

  method ResolveIn(e: Entry, hash: word, name: seq<byte>) returns (t: Match)
    requires Searchable(e) && hash == Hash(name)
    ensures t == Answer(e, name)
  {
    t := ResolveHelper(e.m, hash, name, false, e.rank);
    if t == NoMatch {
      t := ResolveHelper(e.m, hash, name, true, e.rank);
    }
  }

  /** The search order: the given module first, if any, then all of them. */
  function Order(elf: seq<Entry>, queue: seq<Entry>): seq<Entry> {
    elf + queue
  }

  /** The given module is searched first, then all of them; the first that answers decides. */
  method ResolveSym(name: seq<byte>, elf: seq<Entry>, queue: seq<Entry>) returns (r: Resolved)
    requires |elf| <= 1 && AllSearchable(Order(elf, queue))
    ensures r == Resolve(Order(elf, queue), name)
  {
    hide Lookup, Answer, Searchable, Hash, HashNumber, WeightedSum;
    var hash := ElfHash(name);
    ghost var order := elf + queue;
    if elf != [] {
      assert elf[0] == order[0];
      var t := ResolveIn(elf[0], hash, name);
      if t != NoMatch {
        return Decide(0, t);
      }
      assert FirstAnswer(order, name, 0) == FirstAnswer(order, name, 1);
    }
    for i := 0 to |queue|
      invariant FirstAnswer(order, name, 0) == FirstAnswer(order, name, |elf| + i)
    {
      assert order[|elf| + i] == queue[i];
      var t := ResolveIn(queue[i], hash, name);
      if t != NoMatch {
        return Decide(|elf| + i, t);
      }
    }
    return NotFound;
  }

  // ----- Global symbols come first within a module

  predicate Offers(m: Module, name: seq<byte>, i: nat, bind: Bind) {
    && i < |m.syms| && m.syms[i].name != 0 && NameOf(m, i) == name
    && m.syms[i].bind == bind && m.syms[i].section == Defined
  }

  /** Where a defined symbol is: an offset for thread-local ones, an address for the others. */
  function ValueOf(m: Module, s: Symbol): nat {
    if s.kind == Tls then s.value else s.value + m.base
  }

  ghost predicate FromGlobal(m: Module, name: seq<byte>, t: Match) {
    t == Abort || exists i: nat :: Offers(m, name, i, Global) && t == Found(ValueOf(m, m.syms[i]))
  }

  lemma {:induction false} WalkGlobal(m: Module, rank: seq<nat>, name: seq<byte>, n: nat)
    requires Ranks(m, rank)
    ensures var t := Walk(m, rank, name, false, n); t == NoMatch || FromGlobal(m, name, t)
    decreases Rank(m, rank, n)
  {
    if n != 0 && InRange(m, n) {
      WalkGlobal(m, rank, name, m.chain[n]);
      assert TrySymbol(m, m.syms[n], name, false).Found? ==> Offers(m, name, n, Global);
    }
  }

  lemma {:induction false} WalkReaches(m: Module, rank: seq<nat>, name: seq<byte>, n: nat, i: nat)
    requires Ranks(m, rank) && OnChain(m, rank, n, i) && Offers(m, name, i, Global)
    ensures Walk(m, rank, name, false, n) != NoMatch
    decreases Rank(m, rank, n)
  {
    if n != i {
      WalkReaches(m, rank, name, m.chain[n], i);
    }
  }

  /** A module with a defined global symbol of that name never answers with a weak one. */
  lemma GlobalBeatsWeak(e: Entry, name: seq<byte>, i: nat)
    requires TableOk(e.m, e.rank) && Offers(e.m, name, i, Global)
    ensures FromGlobal(e.m, name, Answer(e, name))
  {
    WalkReaches(e.m, e.rank, name, Bucket(e.m, name), i);
    WalkGlobal(e.m, e.rank, name, Bucket(e.m, name));
  }
}
