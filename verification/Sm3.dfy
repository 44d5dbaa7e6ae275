/** SM3 of GM/T 0004-2012 over any compression function, fed in any chunks, and HMAC of RFC 2104 on top of it. */
module Sm3 {
  import opened Arithmetic
  import opened Bytes
  import opened BigEndian
  import opened WordNumbers
  import opened Words

  type State = s: seq<word> | |s| == 8 witness IV

  type Chunk64 = b: seq<byte> | |b| == 64 witness Zeros(64)

  type Compression = (State, Chunk64) -> State

  const IV: seq<word> := [
    0x7380166F, 0x4914B2B9, 0x172442D7, 0xDA8A0600, 0xA96F30BC, 0x163138AA, 0xE38DEE4D, 0xB0FB0E4E
  ]

  // ----- The hash of a whole message

  /** The compression function over whole 64-byte blocks. */
  function Iterate(f: Compression, data: seq<byte>): State
    requires |data| % 64 == 0
    decreases |data|
  {
    if data == [] then IV else
    var n := |data| - 64;
    f(Iterate(f, data[..n]), data[n..])
  }

  /** A one bit, the fewest zero bits that leave room for the length, and the length in bits as 64 bits. */
  function Padding(n: nat, count: nat): (p: seq<byte>)
    ensures (n + |p|) % 64 == 0 && 9 <= |p| <= 72
  {
    [0x80] + Zeros((119 - n % 64) % 64) + Digits(8, 8 * count)
  }

  /** The padding starts with a one bit, goes on with zeros and ends with the number of bits, modulo 2^64. */
  lemma PaddingIs(n: nat, count: nat)
    ensures var p := Padding(n, count);
            && p[0] == 0x80 && (forall i :: 1 <= i < |p| - 8 ==> p[i] == 0)
            && Value(p[|p| - 8..]) == 8 * count % Pow256(8)
  {
    hide Value, Pow256, Digits;
    var p := Padding(n, count);
    DigitsMod(8, 8 * count);
    assert p[|p| - 8..] == Digits(8, 8 * count);
  }

  /** The big-endian bytes of words, one after the other. */
  function PutWords(w: seq<word>): (r: seq<byte>)
    ensures |r| == 4 * |w|
  {
    if w == [] then [] else PutWords(w[..|w| - 1]) + PutWord(w[|w| - 1])
  }

  function Output(s: State): (r: seq<byte>)
    ensures |r| == 32
  {
    PutWords(s)
  }

  /** Word i of the state stands at bytes 4i to 4i + 3 of the digest, its highest byte first. */
  lemma OutputWords(s: State, i: nat)
    requires i < 8
    ensures GetWord(Output(s)[4 * i..4 * i + 4]) == s[i] && Value(Output(s)[4 * i..4 * i + 4]) == Number(s[i])
  {
    hide PutWord, GetWord, Value, Number, PutWords;
    WordSlice(s, i);
    GetPut(s[i]);
    NumberOfBytes(s[i]);
  }

  lemma {:induction false} WordSlice(w: seq<word>, i: nat)
    requires i < |w|
    ensures PutWords(w)[4 * i..4 * i + 4] == PutWord(w[i])
  {
    hide PutWord;
    var n := |w| - 1;
    if i < n {
      WordSlice(w[..n], i);
      assert PutWords(w)[4 * i..4 * i + 4] == PutWords(w[..n])[4 * i..4 * i + 4];
    }
  }

  /** The digest of msg when count is taken for its length. */
  function HashCounting(f: Compression, msg: seq<byte>, count: nat): (r: seq<byte>)
    ensures |r| == 32
  {
    Output(Iterate(f, msg + Padding(|msg|, count)))
  }

  function Hash(f: Compression, msg: seq<byte>): (r: seq<byte>)
    ensures |r| == 32
  {
    HashCounting(f, msg, |msg|)
  }

  /** Section 2 of RFC 2104 with 64-byte blocks. */
  function HmacKey(f: Compression, key: seq<byte>): (k: seq<byte>)
    ensures |k| == 64
  {
    if |key| > 64 then Hash(f, key) + Zeros(32) else key + Zeros(64 - |key|)
  }

  /** The key block as it is built, a long key hashed with the length that is counted for it. */
  function CountedKey(f: Compression, key: seq<byte>): (k: seq<byte>)
    ensures |k| == 64
  {
    if |key| > 64 then HashCounting(f, key, Tally(0, |key|)) + Zeros(32) else key + Zeros(64 - |key|)
  }

  /** For keys below 2^33 bytes that is the one of the standard. */
  lemma KeyCounted(f: Compression, key: seq<byte>)
    requires |key| < 2 * TWO32
    ensures CountedKey(f, key) == HmacKey(f, key)
  {
    hide HashCounting, Tally;
    TallyExact(0, |key|);
  }

  function Masked(k: seq<byte>, pad: byte): (r: seq<byte>)
    ensures |r| == |k| && forall i :: 0 <= i < |k| ==> r[i] == k[i] ^ pad
  {
    seq(|k|, i requires 0 <= i < |k| => XorByte(k[i], pad))
  }

  function XorByte(a: byte, b: byte): byte {
    a ^ b
  }

  lemma XorByteFacts(a: byte, b: byte)
    ensures XorByte(a, b) == XorByte(b, a) && XorByte(0, b) == b
  {
  }

  function Hmac(f: Compression, key: seq<byte>, msg: seq<byte>): (r: seq<byte>)
    ensures |r| == 32
  {
    var k := HmacKey(f, key);
    Hash(f, Masked(k, 0x5C) + Hash(f, Masked(k, 0x36) + msg))
  }

  // ----- The length kept in two 32-bit words

  /** What an update of n bytes adds to the high word. */
  function Carry(low: nat, n: nat): nat {
    if (low + n) % TWO32 < n then 1 else 0
  }

  lemma CarryIs(low: nat, n: nat)
    ensures Carry(low, n) == if (low + n) % TWO32 < n then 1 else 0
  {
  }

  predicate Countable(low: nat, n: nat) {
    n < TWO32 || low + n < 2 * TWO32
  }

  /** The high word keeps count exactly when the update is short or wraps the low word at most once. */
  lemma CarryExact(low: nat, high: nat, n: nat)
    requires low < TWO32 && high < TWO32 && n < TWO32 * TWO32
    ensures (high + Carry(low, n)) % TWO32 == (high + (low + n) / TWO32) % TWO32 <==> Countable(low, n)
  {
  }

  /** The count the two words stand for after an update of n bytes. */
  function Tally(count: nat, n: nat): nat {
    (count / TWO32 + Carry(count % TWO32, n)) % TWO32 * TWO32 + (count % TWO32 + n) % TWO32
  }

  lemma TallyWords(low: nat, high: nat, n: nat)
    requires low < TWO32 && high < TWO32
    ensures Tally(high * TWO32 + low, n) == (high + Carry(low, n)) % TWO32 * TWO32 + (low + n) % TWO32
  {
    hide Carry;
    ModUnique(high * TWO32 + low, high, low, TWO32);
  }

  lemma TallyNone(low: nat, high: nat)
    requires low < TWO32 && high < TWO32
    ensures Tally(high * TWO32 + low, 0) == high * TWO32 + low
  {
    TallyWords(low, high, 0);
  }

  /** The count stays right through updates that can be counted. */
  lemma TallyExact(count: nat, n: nat)
    requires count + n < TWO64 && Countable(count % TWO32, n)
    ensures Tally(count, n) == count + n
  {
    var low, high := count % TWO32, count / TWO32;
    TallyCarry(low, n);
    var high' := high + (low + n) / TWO32;
    assert count + n == high' * TWO32 + (low + n) % TWO32;
    assert high' < TWO32;
  }

  lemma TallyCarry(low: nat, n: nat)
    requires low < TWO32 && Countable(low, n)
    ensures Carry(low, n) == (low + n) / TWO32
  {
  }

  /** The count after a list of updates. */
  function TallyAll(count: nat, chunks: seq<seq<byte>>): nat {
    if chunks == [] then count else Tally(TallyAll(count, chunks[..|chunks| - 1]), |chunks[|chunks| - 1]|)
  }

  /** Each of the updates can be counted where it comes. */
  ghost predicate AllCountable(count: nat, chunks: seq<seq<byte>>) {
    forall i :: 0 <= i < |chunks| ==> Countable((count + |Join(chunks[..i])|) % TWO32, |chunks[i]|)
  }

  lemma {:induction false} TallyAllExact(count: nat, chunks: seq<seq<byte>>)
    requires AllCountable(count, chunks) && count + |Join(chunks)| < TWO64
    ensures TallyAll(count, chunks) == count + |Join(chunks)|
  {
    if chunks != [] {
      var n := |chunks| - 1;
      FrontCountable(count, chunks);
      hide AllCountable, Countable, Tally;
      TallyAllExact(count, chunks[..n]);
      TallyExact(count + |Join(chunks[..n])|, |chunks[n]|);
    }
  }

  lemma FrontCountable(count: nat, chunks: seq<seq<byte>>)
    requires AllCountable(count, chunks) && chunks != []
    ensures var n := |chunks| - 1;
            AllCountable(count, chunks[..n]) && Countable((count + |Join(chunks[..n])|) % TWO32, |chunks[n]|)
  {
    hide Join, Countable;
    var n := |chunks| - 1;
    forall i | 0 <= i < n ensures Countable((count + |Join(chunks[..n][..i])|) % TWO32, |chunks[..n][i]|) {
      assert chunks[..n][..i] == chunks[..i];
    }
  }

  /** Updates below 2^32 bytes can always be counted. */
  lemma ShortCountable(count: nat, chunks: seq<seq<byte>>)
    requires forall i :: 0 <= i < |chunks| ==> |chunks[i]| < TWO32
    ensures AllCountable(count, chunks)
  {
  }

  /** One update of 8 GiB is counted as 4 GiB. */
  lemma LongUpdateMiscounts()
    ensures (0 + Carry(0, 2 * TWO32)) % TWO32 != (0 + 2 * TWO32) / TWO32
  {
  }

  // ----- The streaming context

  class Context {
    const f: Compression
    const buffer: array<byte>
    const ipad: array<byte>
    const opad: array<byte>
    var total0: nat
    var total1: nat
    var state: State
    ghost var msg: seq<byte>

    ghost predicate Shaped() {
      && buffer.Length == 64 && ipad.Length == 64 && opad.Length == 64
      && buffer != ipad && buffer != opad && ipad != opad
    }

    ghost predicate Valid()
      reads this`total0, this`total1, this`state, this`msg, buffer
    {
      && Shaped()
      && total0 == |msg| % TWO32 && total1 < TWO32
      && Holds(f, state, buffer[..], msg)
    }

    /** The number of bytes the two words stand for. */
    ghost function Count(): nat
      reads this`total0, this`total1
    {
      total1 * TWO32 + total0
    }

    lemma CountIs()
      ensures Count() == total1 * TWO32 + total0
    {
    }

    constructor (f: Compression)
      ensures this.f == f && Valid() && msg == [] && total1 == 0
      ensures fresh(buffer) && fresh(ipad) && fresh(opad)
    {
      this.f, buffer, ipad, opad := f, new byte[64], new byte[64], new byte[64];
      total0, total1, state, msg := 0, 0, IV, [];
    }

    method Init()
      requires Shaped()
      modifies this
      ensures Valid() && msg == [] && total1 == 0
    {
      total0, total1, state, msg := 0, 0, IV, [];
    }

    /** Adds to the two words, with the carry the code takes. */
    method CountUp(n: nat)
      requires total0 < TWO32 && total1 < TWO32
      modifies this`total0, this`total1
      ensures total0 == (old(total0) + n) % TWO32 && total1 < TWO32 && Count() == Tally(old(Count()), n)
    {
      hide Tally, Carry;
      TallyWords(total0, total1, n);
      CarryIs(total0, n);
      total0 := (total0 + n) % TWO32;
      if total0 < n {
        total1 := (total1 + 1) % TWO32;
      }
    }

    method Update(input: seq<byte>)
      requires Valid()
      modifies this`total0, this`total1, this`state, this`msg, buffer
      ensures Valid() && msg == old(msg) + input
      ensures Count() == Tally(old(Count()), |input|)
    {
      hide Holds, Tally, Count;
      if |input| == 0 {
        TallyNone(total0, total1);
        CountIs();
        assert msg + input == msg;
        return;
      }
      LowWord(|msg|, |input|);
      var left := total0 % 64;
      CountUp(|input|);
      Absorb(left, input);
      msg := msg + input;
    }

    method Final() returns (output: seq<byte>)
      requires Valid()
      modifies this`total0, this`total1, this`state, this`msg, buffer
      ensures Valid() && output == HashCounting(f, old(msg), old(Count())) && |msg| % 64 == 0
    {
      hide Holds, Digits, Tally, SM3_PADDING, Padding, Output, Iterate;
      var high := total0 / 0x2000_0000 + total1 * 8 % TWO32;
      var low := total0 * 8 % TWO32;
      var length := Digits(4, high) + Digits(4, low);
      var last := total0 % 64;
      var pad := if last < 56 then 56 - last else 120 - last;
      PaddingParts(|msg|, total0, total1);
      Update(SM3_PADDING[..pad]);
      Update(length);
      AppendAssociates(old(msg), SM3_PADDING[..pad], length);
      NoneLeft(f, state, buffer[..], msg, []);
      AllHeld(f, state, buffer[..], msg);
      output := Output(state);
    }

    /** Keys both pads, a long key hashed down first, and starts on the inner message. */
    method HmacInit(key: seq<byte>)
      requires Shaped()
      modifies this, buffer, ipad, opad
      ensures Valid() && Count() == |msg| == 64 && msg == ipad[..]
      ensures ipad[..] == Masked(CountedKey(f, key), 0x36) && opad[..] == Masked(CountedKey(f, key), 0x5C)
    {
      hide HashCounting, Holds, Tally, Masked;
      var k := key;
      if |k| > 64 {
        k := OneShot(f, key);
      }
      SetPads(k);
      Init();
      assert [] + ipad[..] == ipad[..];
      TallyExact(0, 64);
      Update(ipad[..]);
    }

    method SetPads(k: seq<byte>)
      requires ipad.Length == 64 && opad.Length == 64 && ipad != opad && |k| <= 64
      modifies ipad, opad
      ensures ipad[..] == Masked(k + Zeros(64 - |k|), 0x36) && opad[..] == Masked(k + Zeros(64 - |k|), 0x5C)
    {
      hide XorByte;
      for i := 0 to 64
        invariant forall j :: 0 <= j < i ==> ipad[j] == 0x36 && opad[j] == 0x5C
      {
        ipad[i] := 0x36;
        opad[i] := 0x5C;
      }
      for i := 0 to |k|
        invariant forall j :: 0 <= j < i ==> ipad[j] == XorByte(0x36, k[j]) && opad[j] == XorByte(0x5C, k[j])
        invariant forall j :: i <= j < 64 ==> ipad[j] == 0x36 && opad[j] == 0x5C
      {
        ipad[i] := XorByte(ipad[i], k[i]);
        opad[i] := XorByte(opad[i], k[i]);
      }
      var padded := k + Zeros(64 - |k|);
      forall i | 0 <= i < 64 ensures ipad[i] == XorByte(padded[i], 0x36) && opad[i] == XorByte(padded[i], 0x5C) {
        XorByteFacts(padded[i], 0x36);
        XorByteFacts(padded[i], 0x5C);
      }
    }

    /** The outer hash over the inner one. */
    method HmacFinal() returns (output: seq<byte>)
      requires Valid()
      modifies this, buffer
      ensures output == Hash(f, opad[..] + HashCounting(f, old(msg), old(Count())))
    {
      hide Hash, HashCounting, Holds, Tally;
      var inner := Final();
      Init();
      TallyExact(0, 64);
      Update(opad[..]);
      TallyExact(64, 32);
      Update(inner);
      assert [] + opad[..] + inner == opad[..] + inner;
      HashIs(f, opad[..] + inner);
      output := Final();
    }

    /** Compresses the whole blocks of the input from pos on. */
    method Compress(input: seq<byte>, pos0: nat) returns (pos: nat)
      requires pos0 <= |input| && (|input| - pos0 >= 64 ==> Reached(f, state, msg, input, pos0))
      modifies this`state
      ensures pos0 <= pos <= |input| && |input| - pos < 64
      ensures if |input| - pos0 < 64 then pos == pos0 && state == old(state) else Reached(f, state, msg, input, pos)
    {
      hide Reached;
      pos := pos0;
      while |input| - pos >= 64
        invariant pos0 <= pos <= |input|
        invariant if |input| - pos0 < 64 then pos == pos0 && state == old(state) else Reached(f, state, msg, input, pos)
      {
        NextBlock(f, state, msg, input, pos);
        state := f(state, input[pos..pos + 64]);
        pos := pos + 64;
      }
    }

    /** A block under way is completed from the input and compressed, if the input is long enough. */
    method CompleteBlock(left0: nat, input: seq<byte>) returns (left: nat, pos: nat)
      requires buffer.Length == 64 && left0 == |msg| % 64 && Holds(f, state, buffer[..], msg)
      modifies this`state, buffer
      ensures pos <= |input| && (left == 0 ==> Reached(f, state, msg, input, pos))
      ensures left > 0 ==> left == left0 && pos == 0 && |input| < 64 - left && Holds(f, state, buffer[..], msg)
    {
      hide Holds, Reached, Place;
      var fill := 64 - left0;
      left, pos := left0, 0;
      NoneLeft(f, state, buffer[..], msg, input);
      if left > 0 && |input| >= fill {
        FilledBlock(f, state, buffer[..], msg, input);
        Write(buffer, left, input[..fill]);
        state := f(state, buffer[..]);
        return 0, fill;
      }
    }

    /** Whole blocks are compressed as they complete; what is left over waits in the buffer. */
    method Absorb(left0: nat, input: seq<byte>)
      requires buffer.Length == 64 && left0 == |msg| % 64 && Holds(f, state, buffer[..], msg)
      modifies this`state, buffer
      ensures Holds(f, state, buffer[..], msg + input)
    {
      hide Holds, Reached, Place;
      var left, pos := CompleteBlock(left0, input);
      pos := Compress(input, pos);
      RestHeld(f, state, buffer[..], msg, input, left, pos);
      if |input| - pos > 0 {
        Write(buffer, left, input[pos..]);
      }
    }
  }

  /** The state has taken in the whole blocks of msg, and the buffer holds the bytes after them. */
  ghost predicate Holds(f: Compression, state: State, buffer: seq<byte>, msg: seq<byte>) {
    |buffer| == 64 && state == Iterate(f, Done(msg)) && buffer[..|msg| % 64] == Left(msg)
  }

  /** The state has taken in msg and the first pos bytes of input, which are whole blocks. */
  ghost predicate Reached(f: Compression, state: State, msg: seq<byte>, input: seq<byte>, pos: nat) {
    pos <= |input| && (|msg| + pos) % 64 == 0 && state == Iterate(f, (msg + input)[..|msg| + pos])
  }

  lemma AllHeld(f: Compression, state: State, buffer: seq<byte>, msg: seq<byte>)
    requires Holds(f, state, buffer, msg) && |msg| % 64 == 0
    ensures state == Iterate(f, msg)
  {
    assert Done(msg) == msg;
  }

  const SM3_PADDING: seq<byte> := [0x80] + Zeros(63)

  /** The padding and the two length words sm3_final feeds are the padding of the standard. */
  lemma PaddingParts(n: nat, low: nat, high: nat)
    requires low == n % TWO32 && high < TWO32
    ensures var last := low % 64;
            var pad := if last < 56 then 56 - last else 120 - last;
            pad <= |SM3_PADDING| &&
            SM3_PADDING[..pad] + (Digits(4, low / 0x2000_0000 + high * 8 % TWO32) + Digits(4, low * 8 % TWO32)) ==
            Padding(n, high * TWO32 + low)
  {
    hide Digits;
    LowWord(n, 0);
    LengthWords(low, high);
    var last := n % 64;
    var pad := if last < 56 then 56 - last else 120 - last;
    assert SM3_PADDING[..pad] == [0x80] + Zeros((119 - n % 64) % 64);
    AppendAssociates([0x80], Zeros((119 - n % 64) % 64), Digits(8, 8 * (high * TWO32 + low)));
  }

  lemma LengthWords(low: nat, high: nat)
    requires low < TWO32 && high < TWO32
    ensures Digits(4, low / 0x2000_0000 + high * 8 % TWO32) + Digits(4, low * 8 % TWO32) ==
            Digits(8, 8 * (high * TWO32 + low))
  {
    hide Digits;
    var n := 8 * (high * TWO32 + low);
    ShiftedWords(low, high);
    DigitsHalves(n);
    FourDigits(n / TWO32, low / 0x2000_0000 + high * 8 % TWO32);
    FourDigits(n, low * 8 % TWO32);
  }

  lemma ShiftedWords(low: nat, high: nat)
    requires low < TWO32 && high < TWO32
    ensures var n := 8 * (high * TWO32 + low);
            n / TWO32 % TWO32 == (low / 0x2000_0000 + high * 8 % TWO32) % TWO32 && n % TWO32 == low * 8 % TWO32 % TWO32
  {
    var a, b := low / 0x2000_0000, low % 0x2000_0000;
    ModUnique(8 * low, a, 8 * b, TWO32);
    ModUnique(8 * (high * TWO32 + low), 8 * high + a, 8 * b, TWO32);
    LowWord(8 * high, a);
  }

  /** Four digits depend on the number modulo 2^32 only. */
  lemma FourDigits(a: nat, b: nat)
    requires a % TWO32 == b % TWO32
    ensures Digits(4, a) == Digits(4, b)
  {
    hide Digits;
    assert Pow256(4) == TWO32;
    DigitsWrap(4, a % TWO32, a / TWO32);
    DigitsWrap(4, b % TWO32, b / TWO32);
  }

  lemma DigitsHalves(n: nat)
    ensures Digits(8, n) == Digits(4, n / TWO32) + Digits(4, n)
  {
    hide ByteOf;
    assert n / 256 / 256 / 256 / 256 == n / TWO32;
    assert Digits(5, n / 256 / 256 / 256) == Digits(4, n / TWO32) + Digits(1, n / 256 / 256 / 256);
    assert Digits(6, n / 256 / 256) == Digits(4, n / TWO32) + Digits(2, n / 256 / 256);
    assert Digits(7, n / 256) == Digits(4, n / TWO32) + Digits(3, n / 256);
  }

  /** The length field tells the length in bits exactly for messages below 2^61 bytes. */
  lemma LengthField(n: nat)
    ensures Value(Digits(8, 8 * n)) == 8 * n <==> n < 0x2000_0000_0000_0000
  {
    assert Pow256(8) == 0x1_0000_0000_0000_0000;
    if n < 0x2000_0000_0000_0000 {
      DigitsValue(8, 8 * n);
    } else {
      ValueBound(Digits(8, 8 * n));
    }
  }

  lemma NoneLeft(f: Compression, state: State, buffer: seq<byte>, msg: seq<byte>, input: seq<byte>)
    requires Holds(f, state, buffer, msg)
    ensures |msg| % 64 == 0 ==> Reached(f, state, msg, input, 0) && Done(msg) == msg
  {
    hide Iterate;
    if |msg| % 64 == 0 {
      assert (msg + input)[..|msg|] == msg == Done(msg);
    }
  }

  lemma NextBlock(f: Compression, state: State, msg: seq<byte>, input: seq<byte>, pos: nat)
    requires Reached(f, state, msg, input, pos) && pos + 64 <= |input|
    ensures Reached(f, f(state, input[pos..pos + 64]), msg, input, pos + 64)
  {
    hide Iterate;
    IterateNext(f, msg + input, |msg| + pos);
    MiddleSlice(msg, input, pos, 64);
  }

  /** A filled buffer is the next block of the message. */
  lemma FilledBlock(f: Compression, state: State, buffer: seq<byte>, msg: seq<byte>, input: seq<byte>)
    requires Holds(f, state, buffer, msg) && |msg| % 64 > 0 && |input| >= 64 - |msg| % 64
    ensures var left := |msg| % 64;
            Reached(f, f(state, Place(buffer, left, input[..64 - left])), msg, input, 64 - left)
  {
    hide Iterate;
    var left := |msg| % 64;
    var done, all := |msg| - left, msg + input;
    BlockStart(|msg|);
    IterateNext(f, all, done);
    assert all[..done] == Done(msg);
    assert all[done..done + 64] == Left(msg) + input[..64 - left];
    assert Place(buffer, left, input[..64 - left]) == Left(msg) + input[..64 - left];
  }

  lemma BlockStart(n: nat)
    ensures (n - n % 64) % 64 == 0 && (n - n % 64 + 64) % 64 == 0
  {
    ModUnique(n - n % 64, n / 64, 0, 64);
    ModUnique(n - n % 64 + 64, n / 64 + 1, 0, 64);
  }

  /** What is left of the input, written behind what was left before. */
  lemma RestHeld(f: Compression, state: State, buffer: seq<byte>, msg: seq<byte>, input: seq<byte>, left: nat, pos: nat)
    requires |buffer| == 64 && pos <= |input| && |input| - pos < 64
    requires if left == 0 then Reached(f, state, msg, input, pos)
             else left == |msg| % 64 && pos == 0 && |input| < 64 - left && Holds(f, state, buffer, msg)
    ensures left + |input| - pos <= 64 && Holds(f, state, Place(buffer, left, input[pos..]), msg + input)
    ensures pos == |input| ==> Holds(f, state, buffer, msg + input)
  {
    hide Iterate;
    var all := msg + input;
    if left == 0 {
      ModUnique(|all|, (|msg| + pos) / 64, |input| - pos, 64);
      assert Done(all) == all[..|msg| + pos] && Left(all) == input[pos..];
    } else {
      ModUnique(|all|, |msg| / 64, left + |input|, 64);
      assert Done(all) == Done(msg) && Left(all) == Left(msg) + input;
    }
  }

  lemma LowWord(len: nat, n: nat)
    ensures (len % TWO32 + n) % TWO32 == (len + n) % TWO32 && len % TWO32 % 64 == len % 64
  {
    ModAdd(len, n, TWO32);
    ModMod(len, 0x400_0000, 64);
  }

  lemma ModUnique(n: nat, q: nat, r: nat, m: nat)
    requires r < m && n == q * m + r && (m == 64 || m == TWO32)
    ensures n % m == r && n / m == q
  {
  }

  lemma IterateNext(f: Compression, msg: seq<byte>, done: nat)
    requires done % 64 == 0 && done + 64 <= |msg|
    ensures Iterate(f, msg[..done + 64]) == f(Iterate(f, msg[..done]), msg[done..done + 64])
  {
    var data := msg[..done + 64];
    assert data[..done] == msg[..done] && data[done..] == msg[done..done + 64];
  }

  /** The whole blocks of a message, and the bytes after them. */
  function Done(msg: seq<byte>): (r: seq<byte>)
    ensures |r| % 64 == 0
  {
    msg[..|msg| - |msg| % 64]
  }

  function Left(msg: seq<byte>): seq<byte> {
    msg[|msg| - |msg| % 64..]
  }

  // ----- Whole messages

  method OneShot(f: Compression, input: seq<byte>) returns (output: seq<byte>)
    ensures output == HashCounting(f, input, Tally(0, |input|))
    ensures |input| < 2 * TWO32 ==> output == Hash(f, input)
  {
    hide HashCounting, Holds, Tally;
    var ctx := new Context(f);
    if |input| < 2 * TWO32 {
      TallyExact(0, |input|);
    }
    ctx.Update(input);
    assert [] + input == input;
    output := ctx.Final();
  }

  method UpdateAll(ctx: Context, chunks: seq<seq<byte>>)
    requires ctx.Valid()
    modifies ctx`total0, ctx`total1, ctx`state, ctx`msg, ctx.buffer
    ensures ctx.Valid() && ctx.msg == old(ctx.msg) + Join(chunks) && ctx.Count() == TallyAll(old(ctx.Count()), chunks)
  {
    hide Holds, Tally;
    ghost var start := ctx.msg;
    assert start + Join([]) == start;
    for i := 0 to |chunks|
      invariant ctx.Valid() && ctx.msg == start + Join(chunks[..i])
      invariant ctx.Count() == TallyAll(old(ctx.Count()), chunks[..i])
    {
      assert chunks[..i + 1][..i] == chunks[..i];
      AppendAssociates(start, Join(chunks[..i]), chunks[i]);
      ctx.Update(chunks[i]);
    }
    assert chunks[..|chunks|] == chunks;
  }

  /** Any chunks give the digest of the whole message with the length that is counted, which is right if each can be. */
  method HashChunks(f: Compression, chunks: seq<seq<byte>>) returns (output: seq<byte>)
    ensures output == HashCounting(f, Join(chunks), TallyAll(0, chunks))
    ensures AllCountable(0, chunks) && |Join(chunks)| < TWO64 ==> output == Hash(f, Join(chunks))
  {
    hide HashCounting, Holds, TallyAll, AllCountable;
    var ctx := new Context(f);
    assert [] + Join(chunks) == Join(chunks);
    UpdateAll(ctx, chunks);
    if AllCountable(0, chunks) && |Join(chunks)| < TWO64 {
      TallyAllExact(0, chunks);
    }
    output := ctx.Final();
  }

  /** HMAC with the lengths that are counted for the key and for the inner message. */
  function CountedHmac(f: Compression, key: seq<byte>, chunks: seq<seq<byte>>): (r: seq<byte>)
    ensures |r| == 32
  {
    var k := CountedKey(f, key);
    Hash(f, Masked(k, 0x5C) + HashCounting(f, Masked(k, 0x36) + Join(chunks), TallyAll(64, chunks)))
  }

  /** Any chunks give the HMAC of the whole message, for short and long keys alike, where the lengths can be counted. */
  method HmacChunks(f: Compression, key: seq<byte>, chunks: seq<seq<byte>>) returns (output: seq<byte>)
    ensures output == CountedHmac(f, key, chunks)
    ensures |key| < 2 * TWO32 && AllCountable(64, chunks) && |Join(chunks)| + 64 < TWO64 ==>
              output == Hmac(f, key, Join(chunks))
  {
    hide Hash, HashCounting, Holds, TallyAll, AllCountable, CountedKey, HmacKey, Masked;
    var ctx := new Context(f);
    ctx.HmacInit(key);
    UpdateAll(ctx, chunks);
    if |key| < 2 * TWO32 && AllCountable(64, chunks) && |Join(chunks)| + 64 < TWO64 {
      KeyCounted(f, key);
      TallyAllExact(64, chunks);
      HashIs(f, ctx.msg);
    }
    output := ctx.HmacFinal();
  }

  lemma HashIs(f: Compression, msg: seq<byte>)
    ensures Hash(f, msg) == HashCounting(f, msg, |msg|)
  {
  }
}
