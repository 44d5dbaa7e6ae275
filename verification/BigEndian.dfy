/** Big-endian byte strings as numbers, and adding one to them. */
module BigEndian {
  import opened Arithmetic
  import opened Bytes

  function Value(s: seq<byte>): nat {
    if s == [] then 0 else 256 * Value(s[..|s| - 1]) + s[|s| - 1] as int
  }

  function Pow256(n: nat): (r: nat)
    ensures r > 0
  {
    if n == 0 then 1 else 256 * Pow256(n - 1)
  }

  /** Plus one with the carry going left; a carry out of the first byte is lost. */
  function Bump(s: seq<byte>): (r: seq<byte>)
    ensures |r| == |s|
  {
    if s == [] then [] else
    if s[|s| - 1] == 255 then Bump(s[..|s| - 1]) + [0] else s[..|s| - 1] + [s[|s| - 1] + 1]
  }

  lemma {:induction false} ValueBound(s: seq<byte>)
    ensures Value(s) < Pow256(|s|)
  {
    if s != [] {
      ValueBound(s[..|s| - 1]);
    }
  }

  lemma BytePlusOne(b: byte)
    ensures b == 255 <==> b as int == 255
    ensures b != 255 ==> (b + 1) as int == b as int + 1
  {
  }

  lemma {:induction false} BumpValue(s: seq<byte>)
    ensures Value(Bump(s)) == if Value(s) + 1 == Pow256(|s|) then 0 else Value(s) + 1
  {
    if s != [] {
      var init, b := s[..|s| - 1], s[|s| - 1];
      BumpValue(init);
      ValueBound(init);
      BytePlusOne(b);
      if b == 255 {
        assert Bump(s)[..|s| - 1] == Bump(init);
      } else {
        assert Bump(s)[..|s| - 1] == init;
      }
    }
  }

  /** Adding one is addition modulo 256^n. */
  lemma BumpIsPlusOne(s: seq<byte>)
    ensures Value(Bump(s)) == (Value(s) + 1) % Pow256(|s|)
  {
    BumpValue(s);
    ValueBound(s);
    SmallMod(Value(Bump(s)), Pow256(|s|));
  }

  lemma SmallMod(v: nat, m: nat)
    requires v < m
    ensures v % m == v && m % m == 0
  {
  }

  lemma ByteUnique(b: byte, c: byte)
    ensures b as int == c as int ==> b == c
  {
  }

  lemma ByteRange(b: byte)
    ensures 0 <= b as int < 256
  {
  }

  lemma DigitUnique(x: nat, y: nat, x': nat, y': nat)
    requires y < 256 && y' < 256 && 256 * x + y == 256 * x' + y'
    ensures x == x' && y == y'
  {
  }

  lemma LastDigit(s: seq<byte>)
    requires s != []
    ensures Value(s) == 256 * Value(s[..|s| - 1]) + s[|s| - 1] as int
  {
  }

  lemma LastSplit(s: seq<byte>)
    requires s != []
    ensures s == s[..|s| - 1] + [s[|s| - 1]]
  {
  }

  /** Equal numbers of equal length are equal strings. */
  lemma {:induction false} ValueInjective(a: seq<byte>, b: seq<byte>)
    requires |a| == |b| && Value(a) == Value(b)
    ensures a == b
  {
    hide Value;
    if a != [] {
      var n := |a| - 1;
      LastDigit(a);
      LastDigit(b);
      LastSplit(a);
      LastSplit(b);
      ByteRange(a[n]);
      ByteRange(b[n]);
      DigitUnique(Value(a[..n]), a[n] as int, Value(b[..n]), b[n] as int);
      ByteUnique(a[n], b[n]);
      ValueInjective(a[..n], b[..n]);
    }
  }

  /** The carry passes into a prefix exactly when the rest is at its maximum. */
  lemma {:induction false} BumpSplits(a: seq<byte>, b: seq<byte>)
    ensures Bump(a + b) == (if Value(b) + 1 == Pow256(|b|) then Bump(a) else a) + Bump(b)
  {
    if b == [] {
      assert a + b == a;
    } else {
      var n := |b| - 1;
      BumpSplits(a, b[..n]);
      ValueBound(b[..n]);
      assert (a + b)[..|a + b| - 1] == a + b[..n];
    }
  }

  ghost predicate MaxFrom(s: seq<byte>, i: nat) {
    forall j :: i <= j < |s| ==> s[j] == 255
  }

  /** Where the carry stops. */
  lemma {:induction false} BumpCarry(s: seq<byte>, i: nat)
    requires i < |s| && MaxFrom(s, i + 1) && s[i] != 255
    ensures Bump(s) == s[..i] + [s[i] + 1] + Zeros(|s| - i - 1)
    decreases |s|
  {
    var n := |s| - 1;
    if i < n {
      BumpCarry(s[..n], i);
      assert s[..n][..i] == s[..i] && Zeros(n - i) == Zeros(n - i - 1) + [0];
    }
  }

  lemma {:induction false} BumpOverflow(s: seq<byte>)
    requires MaxFrom(s, 0)
    ensures Bump(s) == Zeros(|s|)
    decreases |s|
  {
    if s != [] {
      BumpOverflow(s[..|s| - 1]);
    }
  }

  /** The k-byte big-endian form of a number, its higher digits dropped. */
  function Digits(k: nat, n: nat): (r: seq<byte>)
    ensures |r| == k
  {
    if k == 0 then [] else Digits(k - 1, n / 256) + [ByteOf(n % 256)]
  }

  lemma {:induction false} DigitsValue(k: nat, n: nat)
    requires n < Pow256(k)
    ensures Value(Digits(k, n)) == n
  {
    if k > 0 {
      DigitsValue(k - 1, n / 256);
      assert Digits(k, n)[..k - 1] == Digits(k - 1, n / 256);
      ByteOfNat(n % 256);
    }
  }

  /** Multiples of 256^k do not show in k digits. */
  lemma {:induction false} DigitsWrap(k: nat, n: nat, q: nat)
    ensures Digits(k, n + q * Pow256(k)) == Digits(k, n)
  {
    hide ByteOf;
    if k > 0 {
      var m := q * Pow256(k - 1);
      WrapPower(q, k);
      DivAdd(n, m, 256);
      DigitsWrap(k - 1, n / 256, q);
    }
  }

  lemma WrapPower(q: nat, k: nat)
    requires k > 0
    ensures q * Pow256(k) == Times(q * Pow256(k - 1), 256)
  {
    var p := Pow256(k - 1);
    assert q * (256 * p) == (q * p) * 256;
  }

  /** The k digits of any number are those of its remainder. */
  lemma DigitsMod(k: nat, n: nat)
    ensures Value(Digits(k, n)) == n % Pow256(k)
  {
    hide Digits, Value, Pow256;
    var p := Pow256(k);
    DivSplits(n, p);
    DigitsWrap(k, n % p, n / p);
    DigitsValue(k, n % p);
  }

  function ByteOf(n: nat): byte
    requires n < 256
  {
    if n == 0 then 0 else ByteOf(n - 1) + 1
  }

  lemma {:induction false} ByteOfNat(n: nat)
    requires n < 256
    ensures ByteOf(n) as int == n
  {
    if n > 0 {
      ByteOfNat(n - 1);
      BytePlusOne(ByteOf(n - 1));
    }
  }
}
