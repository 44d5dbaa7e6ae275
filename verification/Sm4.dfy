/** SM4 of GM/T 0002-2012 for any round function, its key schedules and its modes. */
module Sm4 {
  import opened Bytes
  import opened BigEndian
  import opened BlockModes
  import opened WordNumbers
  import opened Words

  const FK: seq<word> := [0xa3b1bac6, 0x56aa3350, 0x677d9197, 0xb27022dc]

  const CK: seq<word> := [
    0x00070e15, 0x1c232a31, 0x383f464d, 0x545b6269,
    0x70777e85, 0x8c939aa1, 0xa8afb6bd, 0xc4cbd2d9,
    0xe0e7eef5, 0xfc030a11, 0x181f262d, 0x343b4249,
    0x50575e65, 0x6c737a81, 0x888f969d, 0xa4abb2b9,
    0xc0c7ced5, 0xdce3eaf1, 0xf8ff060d, 0x141b2229,
    0x30373e45, 0x4c535a61, 0x686f767d, 0x848b9299,
    0xa0a7aeb5, 0xbcc3cad1, 0xd8dfe6ed, 0xf4fb0209,
    0x10171e25, 0x2c333a41, 0x484f565d, 0x646b7279
  ]

  // ----- Words

  function BlockWords(b: Block): (w: seq<word>)
    ensures |w| == 4
  {
    [GetWord(b[..4]), GetWord(b[4..8]), GetWord(b[8..12]), GetWord(b[12..])]
  }

  function FromWords(w: seq<word>): Block
    requires |w| == 4
  {
    PutWord(w[0]) + PutWord(w[1]) + PutWord(w[2]) + PutWord(w[3])
  }

  lemma WordsOfBlock(w: seq<word>)
    requires |w| == 4
    ensures BlockWords(FromWords(w)) == w
  {
    hide GetWord, PutWord;
    GetPut(w[0]);
    GetPut(w[1]);
    GetPut(w[2]);
    GetPut(w[3]);
    var b := FromWords(w);
    assert b[..4] == PutWord(w[0]) && b[4..8] == PutWord(w[1]) && b[8..12] == PutWord(w[2]) && b[12..] == PutWord(w[3]);
  }

  lemma BlockOfWords(b: Block)
    ensures FromWords(BlockWords(b)) == b
  {
    hide GetWord, PutWord;
    PutGet(b[..4]);
    PutGet(b[4..8]);
    PutGet(b[8..12]);
    PutGet(b[12..]);
    assert b[..4] + b[4..8] + b[8..12] + b[12..] == b;
  }

  // ----- The rounds

  function XorWord(a: word, b: word): word {
    a ^ b
  }

  /** What a round adds to the oldest word. */
  function Mix(t: word -> word, a: word, b: word, c: word, k: word): word {
    t(a ^ b ^ c ^ k)
  }

  lemma MixReversed(t: word -> word, a: word, b: word, c: word, k: word)
    ensures Mix(t, a, b, c, k) == Mix(t, c, b, a, k)
  {
    assert a ^ b ^ c ^ k == c ^ b ^ a ^ k;
  }

  lemma XorWordCancels(a: word, b: word)
    ensures XorWord(XorWord(a, b), b) == a
  {
  }

  /** The words before and after each round: four to start with, one more per round key. */
  function Trace(t: word -> word, w: seq<word>, rk: seq<word>): (u: seq<word>)
    requires |w| == 4
    ensures |u| == 4 + |rk|
  {
    if rk == [] then w else
    var n := |rk| - 1;
    var u := Trace(t, w, rk[..n]);
    u + [XorWord(u[n], Mix(t, u[n + 1], u[n + 2], u[n + 3], rk[n]))]
  }

  /** Word i + 4 follows from the four before it. */
  ghost predicate RoundAt(t: word -> word, u: seq<word>, rk: seq<word>, i: nat) {
    i < |rk| && i + 4 < |u| && u[i + 4] == XorWord(u[i], Mix(t, u[i + 1], u[i + 2], u[i + 3], rk[i]))
  }

  ghost predicate IsTrace(t: word -> word, u: seq<word>, rk: seq<word>) {
    |u| == 4 + |rk| && forall i :: 0 <= i < |rk| ==> RoundAt(t, u, rk, i)
  }

  lemma {:induction false} TraceIsTrace(t: word -> word, w: seq<word>, rk: seq<word>)
    requires |w| == 4
    ensures IsTrace(t, Trace(t, w, rk), rk) && Trace(t, w, rk)[..4] == w
    decreases |rk|
  {
    hide XorWord, Mix;
    if rk != [] {
      var n := |rk| - 1;
      var u, u' := Trace(t, w, rk[..n]), Trace(t, w, rk);
      TraceIsTrace(t, w, rk[..n]);
      forall i | 0 <= i < |rk| ensures RoundAt(t, u', rk, i) {
        assert i < n ==> RoundAt(t, u, rk[..n], i);
      }
    }
  }

  lemma {:induction false} TraceUnique(t: word -> word, u: seq<word>, rk: seq<word>)
    requires IsTrace(t, u, rk)
    ensures Trace(t, u[..4], rk) == u
    decreases |rk|
  {
    hide XorWord, Mix;
    if rk == [] {
      assert u[..4] == u;
    } else {
      var n := |rk| - 1;
      var u', rk' := u[..n + 4], rk[..n];
      forall i | 0 <= i < n ensures RoundAt(t, u', rk', i) {
        assert RoundAt(t, u, rk, i);
      }
      TraceUnique(t, u', rk');
      assert u'[..4] == u[..4];
      assert RoundAt(t, u, rk, n);
      assert u == u' + [u[n + 4]];
    }
  }

  /** e follows from the four words before it and the round key k. */
  predicate OneMore(t: word -> word, a: word, b: word, c: word, d: word, k: word, e: word) {
    e == a ^ t(b ^ c ^ d ^ k)
  }

  /** u are the words of the rounds with the keys rk. */
  ghost predicate Rounds(t: word -> word, u: seq<word>, rk: seq<word>) {
    && |u| == |rk| + 4
    && forall i :: 0 <= i < |rk| ==> OneMore(t, u[i], u[i + 1], u[i + 2], u[i + 3], rk[i], u[i + 4])
  }

  lemma MixIs(t: word -> word, a: word, b: word, c: word, d: word, k: word)
    ensures OneMore(t, a, b, c, d, k, XorWord(a, Mix(t, b, c, d, k)))
  {
  }

  lemma TraceRounds(t: word -> word, w: seq<word>, rk: seq<word>)
    requires |w| == 4
    ensures Rounds(t, Trace(t, w, rk), rk) && Trace(t, w, rk)[..4] == w
  {
    hide Trace, OneMore, RoundAt;
    var u := Trace(t, w, rk);
    TraceIsTrace(t, w, rk);
    forall i | 0 <= i < |rk| ensures OneMore(t, u[i], u[i + 1], u[i + 2], u[i + 3], rk[i], u[i + 4]) {
      RoundIs(t, u, rk, i);
    }
  }

  lemma RoundIs(t: word -> word, u: seq<word>, rk: seq<word>, i: nat)
    requires |u| == |rk| + 4 && i < |rk| && RoundAt(t, u, rk, i)
    ensures OneMore(t, u[i], u[i + 1], u[i + 2], u[i + 3], rk[i], u[i + 4])
  {
    hide OneMore, XorWord, Mix;
    MixIs(t, u[i], u[i + 1], u[i + 2], u[i + 3], rk[i]);
  }

  /** w are the four words of b, the first byte of each its highest. */
  ghost predicate Spells(b: Block, w: seq<word>) {
    |w| == 4 && forall j :: 0 <= j < 4 ==> Number(w[j]) == Value(b[4 * j..4 * j + 4])
  }

  lemma WordsSpelled(b: Block)
    ensures Spells(b, BlockWords(b))
  {
    hide GetWord, Value, Number;
    WordNumber(b[..4]);
    WordNumber(b[4..8]);
    WordNumber(b[8..12]);
    WordNumber(b[12..]);
    assert b[0..4] == b[..4] && b[12..16] == b[12..];
  }

  lemma WordNumber(s: seq<byte>)
    requires |s| == 4
    ensures Number(GetWord(s)) == Value(s)
  {
    hide GetWord, Value;
    WordValue(s);
  }

  lemma SpelledWords(w: seq<word>)
    requires |w| == 4
    ensures Spells(FromWords(w), w)
  {
    hide BlockWords, FromWords, Spells;
    WordsOfBlock(w);
    WordsSpelled(FromWords(w));
  }

  function Reverse<T>(s: seq<T>): (r: seq<T>)
    ensures |r| == |s| && forall i :: 0 <= i < |s| ==> r[i] == s[|s| - 1 - i]
  {
    seq(|s|, i requires 0 <= i < |s| => s[|s| - 1 - i])
  }

  /** Read backwards, the words are those of the rounds with the keys in reverse order. */
  lemma ReversedTrace(t: word -> word, u: seq<word>, rk: seq<word>)
    requires IsTrace(t, u, rk)
    ensures IsTrace(t, Reverse(u), Reverse(rk))
  {
    hide XorWord, Mix;
    var v, k := Reverse(u), Reverse(rk);
    forall i | 0 <= i < |k| ensures RoundAt(t, v, k, i) {
      var j := |rk| - 1 - i;
      var m := Mix(t, u[j + 1], u[j + 2], u[j + 3], rk[j]);
      assert RoundAt(t, u, rk, j);
      XorWordCancels(u[j], m);
      MixReversed(t, u[j + 1], u[j + 2], u[j + 3], rk[j]);
    }
  }

  /** The cipher under round keys rk: the last four words, newest first. */
  function Crypt(t: word -> word, rk: seq<word>, b: Block): Block {
    var u := Trace(t, BlockWords(b), rk);
    FromWords(Reverse(u[|rk|..]))
  }

  /** With its round keys reversed the cipher undoes itself, whatever the round function and the keys. */
  lemma CryptInverse(t: word -> word, rk: seq<word>, b: Block)
    ensures Crypt(t, Reverse(rk), Crypt(t, rk, b)) == b
  {
    hide Trace, BlockWords, FromWords, RoundAt, IsTrace;
    var u := Trace(t, BlockWords(b), rk);
    var v := Reverse(u);
    TraceIsTrace(t, BlockWords(b), rk);
    ReversedTrace(t, u, rk);
    TraceUnique(t, v, Reverse(rk));
    WordsOfBlock(Reverse(u[|rk|..]));
    assert v[..4] == Reverse(u[|rk|..]);
    assert Reverse(v[|rk|..]) == u[..4];
    BlockOfWords(b);
  }

  /** The cipher under given round keys, as a block function. */
  function Cipher(t: word -> word, rk: seq<word>): Block -> Block {
    b => Crypt(t, rk, b)
  }

  // ----- Key schedules

  /** The words of the key schedule: the masked key, then one word per constant. */
  function KeyTrace(tk: word -> word, key: Block): (k: seq<word>)
    ensures |k| == 36
  {
    Trace(tk, MaskedKey(key), CK)
  }

  function MaskedKey(key: Block): (w: seq<word>)
    ensures |w| == 4
  {
    var w := BlockWords(key);
    [w[0] ^ FK[0], w[1] ^ FK[1], w[2] ^ FK[2], w[3] ^ FK[3]]
  }

  lemma Unmasked(key: Block)
    ensures var k := MaskedKey(key);
            Spells(key, [k[0] ^ 0xa3b1bac6, k[1] ^ 0x56aa3350, k[2] ^ 0x677d9197, k[3] ^ 0xb27022dc])
  {
    hide BlockWords, Spells;
    var w, k := BlockWords(key), MaskedKey(key);
    MaskTwice(w[0], 0xa3b1bac6);
    MaskTwice(w[1], 0x56aa3350);
    MaskTwice(w[2], 0x677d9197);
    MaskTwice(w[3], 0xb27022dc);
    WordsSpelled(key);
    assert [w[0], w[1], w[2], w[3]] == w;
  }

  lemma MaskTwice(w: word, m: word)
    ensures (w ^ m) ^ m == w
  {
  }

  /** The bytes of w are 7 times 4i, 4i + 1, 4i + 2 and 4i + 3, modulo 256. */
  predicate ConstantAt(w: word, i: nat) {
    && Num(((w >> 24) & 0xff) as byte) == 7 * (4 * i) % 256
    && Num(((w >> 16) & 0xff) as byte) == 7 * (4 * i + 1) % 256
    && Num(((w >> 8) & 0xff) as byte) == 7 * (4 * i + 2) % 256
    && Num((w & 0xff) as byte) == 7 * (4 * i + 3) % 256
  }

  lemma Constants1()
    ensures && ConstantAt(0x00070e15, 0) && ConstantAt(0x1c232a31, 1)
            && ConstantAt(0x383f464d, 2) && ConstantAt(0x545b6269, 3)
            && ConstantAt(0x70777e85, 4) && ConstantAt(0x8c939aa1, 5)
            && ConstantAt(0xa8afb6bd, 6) && ConstantAt(0xc4cbd2d9, 7)
  {
  }

  lemma Constants2()
    ensures && ConstantAt(0xe0e7eef5, 8) && ConstantAt(0xfc030a11, 9)
            && ConstantAt(0x181f262d, 10) && ConstantAt(0x343b4249, 11)
            && ConstantAt(0x50575e65, 12) && ConstantAt(0x6c737a81, 13)
            && ConstantAt(0x888f969d, 14) && ConstantAt(0xa4abb2b9, 15)
  {
  }

  lemma Constants3()
    ensures && ConstantAt(0xc0c7ced5, 16) && ConstantAt(0xdce3eaf1, 17)
            && ConstantAt(0xf8ff060d, 18) && ConstantAt(0x141b2229, 19)
            && ConstantAt(0x30373e45, 20) && ConstantAt(0x4c535a61, 21)
            && ConstantAt(0x686f767d, 22) && ConstantAt(0x848b9299, 23)
  {
  }

  lemma Constants4()
    ensures && ConstantAt(0xa0a7aeb5, 24) && ConstantAt(0xbcc3cad1, 25)
            && ConstantAt(0xd8dfe6ed, 26) && ConstantAt(0xf4fb0209, 27)
            && ConstantAt(0x10171e25, 28) && ConstantAt(0x2c333a41, 29)
            && ConstantAt(0x484f565d, 30) && ConstantAt(0x646b7279, 31)
  {
  }

  lemma ConstantIs(i: nat)
    requires i < 32
    ensures |CK| == 32 && ConstantAt(CK[i], i)
  {
    hide ConstantAt;
    Constants1();
    Constants2();
    Constants3();
    Constants4();
  }

  lemma ConstantCount()
    ensures |CK| == 32
  {
  }

  function RoundKeys(tk: word -> word, key: Block): (rk: seq<word>)
    ensures |rk| == 32
  {
    KeyTrace(tk, key)[4..]
  }

  /** Runs rounds in place: a holds four words and is filled with the rest of the trace. */
  method FillTrace(t: word -> word, a: array<word>, rk: seq<word>)
    requires a.Length == 4 + |rk|
    modifies a
    ensures a[..] == Trace(t, old(a[..4]), rk)
  {
    hide XorWord, Mix;
    ghost var w := a[..4];
    assert rk[..0] == [];
    for i := 0 to |rk|
      invariant a[..i + 4] == Trace(t, w, rk[..i])
    {
      assert rk[..i + 1][..i] == rk[..i];
      a[i + 4] := XorWord(a[i], Mix(t, a[i + 1], a[i + 2], a[i + 3], rk[i]));
      assert a[..i + 1 + 4] == a[..i + 4] + [a[i + 4]];
    }
    assert rk[..|rk|] == rk && a[..|rk| + 4] == a[..];
  }

  datatype Direction = Encrypt | Decrypt

  class Context {
    const t: word -> word
    const tk: word -> word
    const sk: array<word>
    var mode: Direction

    constructor (t: word -> word, tk: word -> word)
      ensures this.t == t && this.tk == tk && sk.Length == 32 && fresh(sk)
    {
      this.t, this.tk, sk, mode := t, tk, new word[32], Encrypt;
    }

    /** The words k behind the round keys start from the key, masked, and go on with one constant each. */
    method SetKey(key: Block) returns (ghost k': seq<word>)
      requires sk.Length == 32
      modifies sk
      ensures Rounds(tk, k', CK) && |k'| == 36 && sk[..] == k'[4..]
      ensures Spells(key, [k'[0] ^ 0xa3b1bac6, k'[1] ^ 0x56aa3350, k'[2] ^ 0x677d9197, k'[3] ^ 0xb27022dc])
      ensures sk[..] == RoundKeys(tk, key)
    {
      Unmasked(key);
      hide BlockWords, Trace, MaskedKey, CK, Rounds, Spells;
      ConstantCount();
      var w := MaskedKey(key);
      var k := new word[36];
      k[0], k[1], k[2], k[3] := w[0], w[1], w[2], w[3];
      assert k[..4] == w;
      FillTrace(tk, k, CK);
      for i := 0 to 32
        invariant k[..] == KeyTrace(tk, key) && sk[..i] == k[4..i + 4]
      {
        sk[i] := k[i + 4];
      }
      assert sk[..32] == sk[..] && k[4..36] == k[..][4..];
      k' := k[..];
      TraceRounds(tk, w, CK);
      assert k'[..4] == w;
    }

    method SetKeyEnc(key: Block)
      requires sk.Length == 32
      modifies this, sk
      ensures mode == Encrypt && sk[..] == RoundKeys(tk, key)
    {
      mode := Encrypt;
      var _ := SetKey(key);
    }

    /** Decryption uses the same round keys in reverse order, swapped in place. */
    method SetKeyDec(key: Block)
      requires sk.Length == 32
      modifies this, sk
      ensures mode == Decrypt && sk[..] == Reverse(RoundKeys(tk, key))
    {
      hide RoundKeys, Rounds, Spells, CK;
      mode := Decrypt;
      var _ := SetKey(key);
      ghost var rk := sk[..];
      for i := 0 to 16
        invariant mode == Decrypt && sk.Length == 32
        invariant forall n :: 0 <= n < i ==> sk[n] == rk[31 - n] && sk[31 - n] == rk[n]
        invariant forall n :: i <= n < 32 - i ==> sk[n] == rk[n]
      {
        sk[i], sk[31 - i] := sk[31 - i], sk[i];
      }
      forall n | 0 <= n < 32 ensures sk[n] == rk[31 - n] {
        assert n >= 16 ==> sk[31 - (31 - n)] == rk[31 - n];
      }
      assert sk[..] == Reverse(rk);
    }

    /** One block through the 32 rounds: the words w start from the input and end, backwards, in the output. */
    method OneRound(input: Block) returns (output: Block, ghost w': seq<word>)
      requires sk.Length == 32
      ensures Rounds(t, w', sk[..]) && |w'| == 36
      ensures Spells(input, w'[..4]) && Spells(output, [w'[35], w'[34], w'[33], w'[32]])
      ensures output == Crypt(t, sk[..], input)
    {
      hide BlockWords, Trace, PutWord, Rounds, Spells, FromWords;
      var w := BlockWords(input);
      var u := new word[36];
      u[0], u[1], u[2], u[3] := w[0], w[1], w[2], w[3];
      assert u[..4] == w;
      FillTrace(t, u, sk[..]);
      output := FromWords([u[35], u[34], u[33], u[32]]);
      assert Reverse(u[..][32..]) == [u[35], u[34], u[33], u[32]];
      w' := u[..];
      TraceRounds(t, w, sk[..]);
      assert w'[..4] == w;
      WordsSpelled(input);
      SpelledWords([u[35], u[34], u[33], u[32]]);
    }

    method CryptEcb(input: seq<byte>) returns (output: seq<byte>)
      requires sk.Length == 32 && WholeBlocks(input)
      ensures EcbOf(Cipher(t, sk[..]), input, output)
      ensures output == Ecb(Cipher(t, sk[..]), input)
    {
      ModesByBlock(Cipher(t, sk[..]), Zeros(16), input);
      hide *;
      ghost var f := Cipher(t, sk[..]);
      BlockTotal(input);
      output := [];
      FrontFacts(input, 0);
      EcbNone(f);
      for i := 0 to |input| / 16
        invariant WholeBlocks(Front(input, i)) && output == Ecb(f, Front(input, i))
      {
        FrontFacts(input, i);
        FrontFacts(input, i + 1);
        var b := BlockAt(input, i);
        EcbAppend(f, Front(input, i), b);
        EcbOne(f, b);
        CipherAt(t, sk[..], b);
        var c, _ := OneRound(b);
        output := output + c;
      }
      FrontFacts(input, |input| / 16);
    }

    /** CBC in the direction the context is keyed for; the chaining value is updated in place. */
    method CryptCbc(iv: array<byte>, input: seq<byte>) returns (output: seq<byte>)
      requires sk.Length == 32 && iv.Length == 16 && WholeBlocks(input)
      modifies iv
      ensures mode == Encrypt ==>
                && output == CbcEncrypt(Cipher(t, sk[..]), old(iv[..]), input)
                && WholeBlocks(output) && iv[..] == Chain(old(iv[..]), output)
      ensures mode == Decrypt ==>
                output == CbcDecrypt(Cipher(t, sk[..]), old(iv[..]), input) && iv[..] == Chain(old(iv[..]), input)
      ensures mode == Encrypt ==> CbcOf(Cipher(t, sk[..]), old(iv[..]), input, output)
      ensures mode == Decrypt ==> CbcUndone(Cipher(t, sk[..]), old(iv[..]), input, output)
      ensures iv[..] == Before(old(iv[..]), if mode == Encrypt then output else input, |input| / 16)
    {
      hide CbcOf, CbcUndone, CbcEncrypt, CbcDecrypt, Cipher;
      ModesByBlock(Cipher(t, sk[..]), iv[..], input);
      if mode == Encrypt {
        output := CbcEncryptLoop(iv, input);
      } else {
        output := CbcDecryptLoop(iv, input);
      }
    }

    method CbcEncryptLoop(iv: array<byte>, input: seq<byte>) returns (output: seq<byte>)
      requires sk.Length == 32 && iv.Length == 16 && WholeBlocks(input)
      modifies iv
      ensures output == CbcEncrypt(Cipher(t, sk[..]), old(iv[..]), input)
      ensures WholeBlocks(output) && iv[..] == Chain(old(iv[..]), output)
    {
      hide *;
      ghost var f, iv0 := Cipher(t, sk[..]), iv[..];
      BlockTotal(input);
      output := [];
      FrontFacts(input, 0);
      CbcNone(f, iv0);
      for i := 0 to |input| / 16
        invariant WholeBlocks(Front(input, i)) && WholeBlocks(output)
        invariant output == CbcEncrypt(f, iv0, Front(input, i)) && iv[..] == Chain(iv0, output)
      {
        FrontFacts(input, i);
        FrontFacts(input, i + 1);
        var b := BlockAt(input, i);
        var x: Block := Xor(b, iv[..]);
        CbcEncryptAppend(f, iv0, Front(input, i), b);
        CbcOne(f, iv[..], b);
        ChainAppend(iv0, output, f(x));
        CipherAt(t, sk[..], x);
        var c, _ := OneRound(x);
        CopyInto(iv, 0, c);
        assert iv[..] == c;
        output := output + c;
      }
      FrontFacts(input, |input| / 16);
    }

    method CbcDecryptLoop(iv: array<byte>, input: seq<byte>) returns (output: seq<byte>)
      requires sk.Length == 32 && iv.Length == 16 && WholeBlocks(input)
      modifies iv
      ensures output == CbcDecrypt(Cipher(t, sk[..]), old(iv[..]), input) && iv[..] == Chain(old(iv[..]), input)
    {
      hide *;
      ghost var f, iv0 := Cipher(t, sk[..]), iv[..];
      BlockTotal(input);
      output := [];
      FrontFacts(input, 0);
      CbcNone(f, iv0);
      for i := 0 to |input| / 16
        invariant WholeBlocks(Front(input, i))
        invariant output == CbcDecrypt(f, iv0, Front(input, i)) && iv[..] == Chain(iv0, Front(input, i))
      {
        FrontFacts(input, i);
        FrontFacts(input, i + 1);
        var b := BlockAt(input, i);
        CbcDecryptAppend(f, iv0, Front(input, i), b);
        CbcOne(f, iv[..], b);
        ChainAppend(iv0, Front(input, i), b);
        CipherAt(t, sk[..], b);
        var p, _ := OneRound(b);
        output := output + Xor(p, iv[..]);
        CopyInto(iv, 0, b);
        assert iv[..] == b;
      }
      FrontFacts(input, |input| / 16);
    }

    /** CTR; the counter is stepped in place. */
    method CryptCtr(ctr: array<byte>, input: seq<byte>) returns (output: seq<byte>)
      requires sk.Length == 32 && ctr.Length == 16 && WholeBlocks(input)
      modifies ctr
      ensures CtrOf(Cipher(t, sk[..]), old(ctr[..]), input, output)
      ensures output == Ctr(Cipher(t, sk[..]), old(ctr[..]), input) && ctr[..] == BumpN(|input| / 16, old(ctr[..]))
    {
      ModesByBlock(Cipher(t, sk[..]), ctr[..], input);
      hide *;
      ghost var f, ctr0 := Cipher(t, sk[..]), ctr[..];
      BlockTotal(input);
      output := [];
      FrontFacts(input, 0);
      CtrNone(f, ctr0);
      BumpNNext(0, ctr0);
      for i := 0 to |input| / 16
        invariant WholeBlocks(Front(input, i))
        invariant output == Ctr(f, ctr0, Front(input, i)) && ctr[..] == BumpN(i, ctr0)
      {
        FrontFacts(input, i);
        FrontFacts(input, i + 1);
        var b := BlockAt(input, i);
        CtrAppend(f, ctr0, Front(input, i), b);
        CtrOne(f, ctr[..], b);
        BumpNNext(i, ctr0);
        CipherAt(t, sk[..], ctr[..]);
        var k, _ := OneRound(ctr[..]);
        output := output + Xor(b, k);
        StepCounter(ctr);
      }
      FrontFacts(input, |input| / 16);
    }
  }

  /** The byte-carry loop: from the last byte on, until one does not wrap to zero. */
  method StepCounter(ctr: array<byte>)
    modifies ctr
    ensures ctr[..] == Bump(old(ctr[..]))
  {
    hide Bump;
    ghost var s := ctr[..];
    var i := ctr.Length;
    while i > 0
      invariant 0 <= i <= ctr.Length && MaxFrom(s, i)
      invariant forall j :: 0 <= j < ctr.Length ==> ctr[j] == if j < i then s[j] else 0
    {
      NotMax(s[i - 1]);
      ctr[i - 1] := ctr[i - 1] + 1;
      if ctr[i - 1] != 0 {
        BumpCarry(s, i - 1);
        return;
      }
      i := i - 1;
    }
    BumpOverflow(s);
  }

  lemma NotMax(b: byte)
    ensures b + 1 == 0 <==> b == 255
  {
  }

  lemma EcbNone(f: Block -> Block)
    ensures WholeBlocks([]) && Ecb(f, []) == []
  {
  }

  lemma EcbOne(f: Block -> Block, b: Block)
    ensures WholeBlocks(b) && Ecb(f, b) == f(b)
  {
    assert b[..16] == b && b[16..] == [];
  }

  lemma CipherAt(t: word -> word, rk: seq<word>, b: Block)
    ensures Cipher(t, rk)(b) == Crypt(t, rk, b)
  {
  }

  lemma CtrOne(f: Block -> Block, ctr: Block, b: Block)
    ensures WholeBlocks(b) && Ctr(f, ctr, b) == Xor(b, f(ctr))
  {
    assert b[..16] == b && b[16..] == [];
  }

  lemma {:induction false} BumpNNext(n: nat, c: Block)
    ensures BumpN(n + 1, c) == Bump(BumpN(n, c)) && BumpN(0, c) == c
  {
    hide Bump;
    if n > 0 {
      BumpNNext(n - 1, Bump(c));
    } else {
      assert BumpN(1, c) == BumpN(0, Bump(c));
    }
  }

  /** Contexts keyed alike for the two directions compute inverse functions. */
  lemma KeyedInverse(t: word -> word, rk: seq<word>)
    ensures Inverse(Cipher(t, rk), Cipher(t, Reverse(rk)))
  {
    hide Crypt;
    forall b: Block ensures Crypt(t, Reverse(rk), Crypt(t, rk, b)) == b {
      CryptInverse(t, rk, b);
    }
  }

  // ----- Messages handed over in any chunks of whole blocks

  datatype Mode = EcbMode | CbcMode | CtrMode

  /** What a mode makes of a whole message in a given direction. */
  function Whole(m: Mode, d: Direction, f: Block -> Block, iv: Block, data: seq<byte>): (r: seq<byte>)
    requires WholeBlocks(data)
    ensures |r| == |data|
  {
    match m
    case EcbMode => Ecb(f, data)
    case CbcMode => if d == Encrypt then CbcEncrypt(f, iv, data) else CbcDecrypt(f, iv, data)
    case CtrMode => Ctr(f, iv, data)
  }

  /** The chaining value or counter after a message. */
  function Next(m: Mode, d: Direction, f: Block -> Block, iv: Block, data: seq<byte>): Block
    requires WholeBlocks(data)
  {
    match m
    case EcbMode => iv
    case CbcMode => SameLengthBlocks(data); if d == Encrypt then Chain(iv, CbcEncrypt(f, iv, data)) else Chain(iv, data)
    case CtrMode => BumpN(|data| / 16, iv)
  }

  lemma WholeAppend(m: Mode, d: Direction, f: Block -> Block, iv: Block, a: seq<byte>, b: seq<byte>)
    requires WholeBlocks(a) && WholeBlocks(b)
    ensures WholeBlocks(a + b)
    ensures Whole(m, d, f, iv, a + b) == Whole(m, d, f, iv, a) + Whole(m, d, f, Next(m, d, f, iv, a), b)
  {
    hide WholeBlocks, Ecb, CbcEncrypt, CbcDecrypt, Ctr, Chain, BumpN;
    BlocksAppend(a, b);
    match m
    case EcbMode => EcbAppend(f, a, b);
    case CbcMode =>
      CbcEncryptAppend(f, iv, a, b);
      CbcDecryptAppend(f, iv, a, b);
    case CtrMode => CtrAppend(f, iv, a, b);
  }

  lemma NextAppend(m: Mode, d: Direction, f: Block -> Block, iv: Block, a: seq<byte>, b: seq<byte>)
    requires WholeBlocks(a) && WholeBlocks(b) && WholeBlocks(a + b)
    ensures Next(m, d, f, iv, a + b) == Next(m, d, f, Next(m, d, f, iv, a), b)
  {
    match m
    case EcbMode =>
    case CbcMode =>
      hide Xor, CbcEncrypt, CbcDecrypt;
      SameLengthBlocks(a);
      SameLengthBlocks(b);
      CbcEncryptAppend(f, iv, a, b);
      var c := CbcEncrypt(f, iv, a);
      ChainTwice(iv, c, CbcEncrypt(f, Chain(iv, c), b));
      ChainTwice(iv, a, b);
    case CtrMode =>
      hide Bump;
      BumpNAdds(|a| / 16, |b| / 16, iv);
  }

  lemma {:induction false} BumpNAdds(m: nat, n: nat, c: Block)
    ensures BumpN(m + n, c) == BumpN(n, BumpN(m, c))
  {
    hide Bump;
    if m > 0 {
      BumpNAdds(m - 1, n, Bump(c));
    }
  }

  /** One call of the mode functions, the chaining value kept in an array. */
  method CryptChunk(ctx: Context, m: Mode, iv: array<byte>, data: seq<byte>) returns (out: seq<byte>)
    requires ctx.sk.Length == 32 && iv.Length == 16 && WholeBlocks(data)
    modifies iv
    ensures out == Whole(m, ctx.mode, Cipher(ctx.t, ctx.sk[..]), old(iv[..]), data)
    ensures iv[..] == Next(m, ctx.mode, Cipher(ctx.t, ctx.sk[..]), old(iv[..]), data)
  {
    hide Ecb, CbcEncrypt, CbcDecrypt, Ctr, Chain, BumpN, Cipher;
    match m {
      case EcbMode => out := ctx.CryptEcb(data);
      case CbcMode => out := ctx.CryptCbc(iv, data);
      case CtrMode => out := ctx.CryptCtr(iv, data);
    }
  }

  /** A message in chunks comes out as the whole message would. */
  method CryptChunks(ctx: Context, m: Mode, iv0: Block, chunks: seq<seq<byte>>) returns (out: seq<byte>)
    requires ctx.sk.Length == 32 && AllWhole(chunks)
    ensures WholeBlocks(Join(chunks))
    ensures out == Whole(m, ctx.mode, Cipher(ctx.t, ctx.sk[..]), iv0, Join(chunks))
  {
    hide WholeBlocks, Whole, Next, Cipher;
    ghost var f, d := Cipher(ctx.t, ctx.sk[..]), ctx.mode;
    var iv := new byte[16](i requires 0 <= i < 16 => iv0[i]);
    assert iv[..] == iv0;
    NoBlocks();
    WholeNothing(m, d, f, iv0);
    out := [];
    for i := 0 to |chunks|
      invariant WholeBlocks(Join(chunks[..i])) && iv[..] == Next(m, d, f, iv0, Join(chunks[..i]))
      invariant out == Whole(m, d, f, iv0, Join(chunks[..i]))
    {
      assert chunks[..i + 1][..i] == chunks[..i];
      WholeAppend(m, d, f, iv0, Join(chunks[..i]), chunks[i]);
      NextAppend(m, d, f, iv0, Join(chunks[..i]), chunks[i]);
      var more := CryptChunk(ctx, m, iv, chunks[i]);
      out := out + more;
    }
    assert chunks[..|chunks|] == chunks;
  }

  lemma WholeNothing(m: Mode, d: Direction, f: Block -> Block, iv: Block)
    ensures WholeBlocks([]) && Whole(m, d, f, iv, []) == [] && Next(m, d, f, iv, []) == iv
  {
  }

  lemma WholeInverse(m: Mode, t: word -> word, rk: seq<word>, iv: Block, data: seq<byte>)
    requires WholeBlocks(data)
    ensures var c := Whole(m, Encrypt, Cipher(t, rk), iv, data);
            WholeBlocks(c) && Whole(m, Decrypt, Cipher(t, if m == CtrMode then rk else Reverse(rk)), iv, c) == data
  {
    hide Ecb, CbcEncrypt, CbcDecrypt, Ctr, WholeBlocks;
    SameLengthBlocks(data);
    KeyedInverse(t, rk);
    match m
    case EcbMode => EcbInverse(Cipher(t, rk), Cipher(t, Reverse(rk)), data);
    case CbcMode => CbcInverse(Cipher(t, rk), Cipher(t, Reverse(rk)), iv, data);
    case CtrMode => CtrInverse(Cipher(t, rk), iv, data);
  }

  /** A message encrypted in some chunks and decrypted in others comes back, in every mode. */
  method RoundTrip(t: word -> word, tk: word -> word, key: Block, m: Mode, iv: Block,
                   chunks: seq<seq<byte>>, counts: seq<nat>)
      returns (out: seq<byte>)
    requires AllWhole(chunks)
    ensures out == Join(chunks)
  {
    hide Whole, Cipher, WholeBlocks, Join, RoundKeys, AllWhole;
    var e := new Context(t, tk);
    e.SetKeyEnc(key);
    var c := CryptChunks(e, m, iv, chunks);
    WholeInverse(m, t, RoundKeys(tk, key), iv, Join(chunks));
    var cut := CutBlocks(c, counts);
    var d := new Context(t, tk);
    if m == CtrMode {
      d.SetKeyEnc(key);
      CtrDirection(Cipher(t, RoundKeys(tk, key)), iv, c);
    } else {
      d.SetKeyDec(key);
    }
    out := CryptChunks(d, m, iv, cut);
  }

  lemma CtrDirection(f: Block -> Block, iv: Block, data: seq<byte>)
    requires WholeBlocks(data)
    ensures Whole(CtrMode, Encrypt, f, iv, data) == Whole(CtrMode, Decrypt, f, iv, data)
  {
  }
}
