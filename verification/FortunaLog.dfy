/** The counter of the generator, the keystream it gives and the record of what has been encrypted. */
module FortunaLog {
  import opened Arithmetic
  import opened Bytes

  /** The most blocks encrypted under one key: 1 MiB of output and the next key. */
  const KEY_LIMIT: nat := 65538

  type Key = k: seq<byte> | |k| == 32 witness Zeros(32)

  // ----- The counter

  datatype Counter = Counter(lo: nat, hi: nat)

  /** Two 64-bit words, the low one carrying into the high one when it wraps to zero. */
  function Increment(c: Counter): Counter {
    var lo := (c.lo + 1) % TWO64;
    Counter(lo, if lo == 0 then (c.hi + 1) % TWO64 else c.hi)
  }

  /** The counter after t increments from zero. */
  function CounterAt(t: nat): Counter {
    Counter(t % TWO64, t / TWO64 % TWO64)
  }

  lemma IncrementIsNext(t: nat)
    ensures Increment(CounterAt(t)) == CounterAt(t + 1)
  {
    var q, r := t / TWO64, t % TWO64;
    if r + 1 == TWO64 {
      Quotient(t + 1, q + 1, 0);
      ModNext(q);
    } else {
      Quotient(t + 1, q, r + 1);
    }
  }

  lemma Quotient(n: nat, q: nat, r: nat)
    requires r < TWO64 && n == q * TWO64 + r
    ensures n / TWO64 == q && n % TWO64 == r
  {
  }

  lemma ModNext(q: nat)
    ensures (q + 1) % TWO64 == (q % TWO64 + 1) % TWO64
  {
    var a, b := q / TWO64, q % TWO64;
    if b + 1 == TWO64 {
      Quotient(q + 1, a + 1, 0);
    } else {
      Quotient(q + 1, a, b + 1);
    }
  }

  /** The counter comes round after exactly 2^128 increments. */
  lemma CounterRepeats(s: nat, t: nat)
    ensures CounterAt(s) == CounterAt(t) <==> s % TWO128 == t % TWO128
  {
    CounterIs(s);
    CounterIs(t);
  }

  lemma CounterIs(t: nat)
    ensures CounterAt(t).hi * TWO64 + CounterAt(t).lo == t % TWO128
    ensures CounterAt(t).lo < TWO64 && CounterAt(t).hi < TWO64
  {
    var q, r := t / TWO64, t % TWO64;
    var a, b := q / TWO64, q % TWO64;
    assert t == a * TWO128 + (b * TWO64 + r);
    DivUnique(t, TWO128, a, b * TWO64 + r);
  }

  lemma NearTicksDiffer(s: nat, t: nat)
    requires s < t < s + TWO128
    ensures CounterAt(s) != CounterAt(t)
  {
    CounterRepeats(s, t);
  }

  // ----- The keystream

  function Stream(encrypt: (Key, Counter) -> Block, key: Key, t: nat, n: nat): (r: seq<byte>)
    ensures |r| == 16 * n
  {
    if n == 0 then [] else Stream(encrypt, key, t, n - 1) + encrypt(key, CounterAt(t + n - 1))
  }

  lemma OneBlock(encrypt: (Key, Counter) -> Block, key: Key, t: nat)
    ensures Stream(encrypt, key, t, 1) == encrypt(key, CounterAt(t))
  {
    assert Stream(encrypt, key, t, 0) == [];
  }

  /** One block more, of which only the first r bytes are wanted. */
  lemma StreamCut(encrypt: (Key, Counter) -> Block, key: Key, t: nat, n: nat, r: nat)
    requires r < 16
    ensures Stream(encrypt, key, t, n) + Stream(encrypt, key, t + n, 1)[..r] ==
            Stream(encrypt, key, t, n + 1)[..16 * n + r]
    ensures Stream(encrypt, key, t, n)[..16 * n] == Stream(encrypt, key, t, n)
  {
    hide CounterAt;
    OneBlock(encrypt, key, t + n);
    assert Stream(encrypt, key, t, n + 1) == Stream(encrypt, key, t, n) + encrypt(key, CounterAt(t + n));
  }

  /** out is made of n blocks, block i the encryption of the counter at place t + i. */
  ghost predicate IsStream(encrypt: (Key, Counter) -> Block, key: Key, t: nat, n: nat, out: seq<byte>) {
    |out| == 16 * n && forall i :: 0 <= i < n ==> out[16 * i..16 * i + 16] == encrypt(key, CounterAt(t + i))
  }

  lemma {:induction false} StreamIs(encrypt: (Key, Counter) -> Block, key: Key, t: nat, n: nat)
    ensures IsStream(encrypt, key, t, n, Stream(encrypt, key, t, n))
  {
    hide CounterAt;
    if n > 0 {
      StreamIs(encrypt, key, t, n - 1);
      var s, r := Stream(encrypt, key, t, n - 1), Stream(encrypt, key, t, n);
      forall i | 0 <= i < n ensures r[16 * i..16 * i + 16] == encrypt(key, CounterAt(t + i)) {
        if i < n - 1 {
          assert r[16 * i..16 * i + 16] == s[16 * i..16 * i + 16] == encrypt(key, CounterAt(t + i));
        } else {
          assert r[|s|..|s| + 16] == encrypt(key, CounterAt(t + i));
        }
      }
    }
  }

  // ----- The record of block encryptions

  /** One encryption: under the epoch-th key, at which place in the counter sequence, and of which counter. */
  datatype Use = Use(epoch: nat, key: Key, tick: nat, counter: Counter)

  /** n encryptions in a row under one key, of the counters from place t on. */
  function Uses(epoch: nat, key: Key, t: nat, n: nat): (r: seq<Use>)
    ensures |r| == n && forall i :: 0 <= i < n ==> r[i] == Use(epoch, key, t + i, CounterAt(t + i))
  {
    seq(n, i requires 0 <= i < n => Use(epoch, key, t + i, CounterAt(t + i)))
  }

  lemma UsesAppend(epoch: nat, key: Key, t: nat, m: nat, n: nat)
    ensures Uses(epoch, key, t, m) + Uses(epoch, key, t + m, n) == Uses(epoch, key, t, m + n)
  {
    hide CounterAt;
  }

  /** Encryptions are of the counters at their places, places only grow, and a key is used in its epoch only. */
  ghost predicate LogOk(log: seq<Use>, ticks: nat, epoch: nat, key: Key) {
    && (forall i :: 0 <= i < |log| ==> UseOk(log[i], ticks, epoch, key))
    && (forall i, j :: 0 <= i < j < |log| ==> InOrder(log[i], log[j]))
  }

  predicate UseOk(u: Use, ticks: nat, epoch: nat, key: Key) {
    u.tick < ticks && u.counter == CounterAt(u.tick) && u.epoch <= epoch && (u.epoch == epoch ==> u.key == key)
  }

  predicate InOrder(u: Use, v: Use) {
    u.tick < v.tick && u.epoch <= v.epoch && (u.epoch == v.epoch ==> u.key == v.key)
  }

  /** How many encryptions were made under the epoch-th key. */
  function UsesOf(log: seq<Use>, epoch: nat): nat {
    if log == [] then 0
    else UsesOf(log[..|log| - 1], epoch) + if log[|log| - 1].epoch == epoch then 1 else 0
  }

  /** Where the record has that epoch. */
  ghost function Places(log: seq<Use>, epoch: nat): set<nat> {
    set i: nat | i < |log| && log[i].epoch == epoch
  }

  lemma PlacesNext(log: seq<Use>, epoch: nat)
    requires log != []
    ensures var n := |log| - 1;
            var before := Places(log[..n], epoch);
            n !in before && Places(log, epoch) == if log[n].epoch == epoch then before + {n} else before
  {
  }

  /** The uses of a key are counted right. */
  lemma {:induction false} UsesCounted(log: seq<Use>, epoch: nat)
    ensures UsesOf(log, epoch) == |Places(log, epoch)|
  {
    if log == [] {
      assert Places(log, epoch) == {};
    } else {
      hide Places;
      UsesCounted(log[..|log| - 1], epoch);
      PlacesNext(log, epoch);
    }
  }

  ghost predicate WithinLimit(log: seq<Use>) {
    forall e: nat :: UsesOf(log, e) <= KEY_LIMIT
  }

  /** No counter value is encrypted twice in the first 2^128 steps, under whatever keys. */
  lemma NoCounterReused(log: seq<Use>, ticks: nat, epoch: nat, key: Key)
    requires LogOk(log, ticks, epoch, key) && ticks <= TWO128
    ensures forall i, j :: 0 <= i < j < |log| ==> log[i].counter != log[j].counter
  {
    hide CounterAt;
    forall i, j | 0 <= i < j < |log| ensures log[i].counter != log[j].counter {
      assert InOrder(log[i], log[j]) && UseOk(log[i], ticks, epoch, key) && UseOk(log[j], ticks, epoch, key);
      NearTicksDiffer(log[i].tick, log[j].tick);
    }
  }

  lemma {:induction false} FreshEpoch(log: seq<Use>, ticks: nat, epoch: nat, key: Key, e: nat)
    requires LogOk(log, ticks, epoch, key) && e > epoch
    ensures UsesOf(log, e) == 0
  {
    hide CounterAt;
    if log != [] {
      assert UseOk(log[|log| - 1], ticks, epoch, key);
      FreshEpoch(log[..|log| - 1], ticks, epoch, key, e);
    }
  }

  lemma LogNext(log: seq<Use>, ticks: nat, epoch: nat, key: Key)
    requires LogOk(log, ticks, epoch, key)
    ensures var log' := log + [Use(epoch, key, ticks, CounterAt(ticks))];
            && LogOk(log', ticks + 1, epoch, key)
            && UsesOf(log', epoch) == UsesOf(log, epoch) + 1
            && (WithinLimit(log) && UsesOf(log, epoch) < KEY_LIMIT ==> WithinLimit(log'))
  {
    hide CounterAt;
    var log' := log + [Use(epoch, key, ticks, CounterAt(ticks))];
    assert log'[..|log|] == log;
    forall e: nat ensures UsesOf(log', e) == UsesOf(log, e) + if e == epoch then 1 else 0 {
    }
    forall i | 0 <= i < |log'| ensures UseOk(log'[i], ticks + 1, epoch, key) {
      assert i < |log| ==> UseOk(log[i], ticks, epoch, key);
    }
    forall i, j | 0 <= i < j < |log'| ensures InOrder(log'[i], log'[j]) {
      assert j < |log| ==> InOrder(log[i], log[j]);
      assert UseOk(log[i], ticks, epoch, key);
    }
  }

  lemma LogLater(log: seq<Use>, ticks: nat, epoch: nat, key: Key)
    requires LogOk(log, ticks, epoch, key)
    ensures LogOk(log, ticks + 1, epoch, key)
  {
    hide CounterAt;
    forall i | 0 <= i < |log| ensures UseOk(log[i], ticks + 1, epoch, key) {
      assert UseOk(log[i], ticks, epoch, key);
    }
  }

  /** A new key starts with a clean slate. */
  lemma LogRekeyed(log: seq<Use>, ticks: nat, epoch: nat, key: Key, key': Key)
    requires LogOk(log, ticks, epoch, key)
    ensures LogOk(log, ticks, epoch + 1, key') && UsesOf(log, epoch + 1) == 0
  {
    hide CounterAt;
    forall i | 0 <= i < |log| ensures UseOk(log[i], ticks, epoch + 1, key') {
      assert UseOk(log[i], ticks, epoch, key);
    }
    FreshEpoch(log, ticks, epoch, key, epoch + 1);
  }

  lemma EmptyLog(epoch: nat, key: Key)
    ensures LogOk([], 0, epoch, key) && WithinLimit([]) && UsesOf([], epoch) == 0 && CounterAt(0) == Counter(0, 0)
  {
  }

  // ----- Reads, and what they encrypt and deliver

  /**
   * A read of len bytes under one key from place tick on: how many blocks it has encrypted, and whether it has
   * succeeded.
   */
  datatype Piece = Piece(epoch: nat, key: Key, tick: nat, len: nat, blocks: nat, good: bool) {
    predicate Fits() {
      blocks <= BlocksFor(len) && (good ==> blocks == BlocksFor(len))
    }
  }

  /** The blocks of the output, and two for the next key. */
  function BlocksFor(len: nat): nat {
    if len == 0 then 0 else (len + 15) / 16 + 2
  }

  /** All the encryptions of a list of reads. */
  function AllUses(ps: seq<Piece>): seq<Use> {
    if ps == [] then [] else
    var p := ps[|ps| - 1];
    AllUses(ps[..|ps| - 1]) + Uses(p.epoch, p.key, p.tick, p.blocks)
  }

  /** What the successful ones deliver: their keystreams, each cut to its length. */
  function Output(encrypt: (Key, Counter) -> Block, ps: seq<Piece>): seq<byte> {
    if ps == [] then [] else
    var p := ps[|ps| - 1];
    Output(encrypt, ps[..|ps| - 1]) +
    if p.good then Stream(encrypt, p.key, p.tick, (p.len + 15) / 16)[..p.len] else []
  }

  lemma PieceNext(encrypt: (Key, Counter) -> Block, ps: seq<Piece>, p: Piece)
    ensures AllUses(ps + [p]) == AllUses(ps) + Uses(p.epoch, p.key, p.tick, p.blocks)
    ensures Output(encrypt, ps + [p]) ==
            Output(encrypt, ps) + if p.good then Stream(encrypt, p.key, p.tick, (p.len + 15) / 16)[..p.len] else []
  {
    hide Uses, Stream;
    assert (ps + [p])[..|ps|] == ps;
  }

  lemma {:induction false} UsesOfPieces(encrypt: (Key, Counter) -> Block, a: seq<Piece>, b: seq<Piece>)
    ensures AllUses(a + b) == AllUses(a) + AllUses(b)
    decreases |b|
  {
    if b == [] {
      assert a + b == a;
    } else {
      hide AllUses, Output, Uses, Stream;
      var n := |b| - 1;
      var c, p := b[..n], b[n];
      UsesOfPieces(encrypt, a, c);
      assert a + b == a + c + [p] && b == c + [p];
      PieceNext(encrypt, a + c, p);
      PieceNext(encrypt, c, p);
      var u := Uses(p.epoch, p.key, p.tick, p.blocks);
      assert AllUses(a) + AllUses(c) + u == AllUses(a) + (AllUses(c) + u);
    }
  }

  lemma {:induction false} OutputOfPieces(encrypt: (Key, Counter) -> Block, a: seq<Piece>, b: seq<Piece>)
    ensures Output(encrypt, a + b) == Output(encrypt, a) + Output(encrypt, b)
    decreases |b|
  {
    if b == [] {
      assert a + b == a;
    } else {
      hide AllUses, Output, Uses, Stream;
      var n := |b| - 1;
      var c, p := b[..n], b[n];
      OutputOfPieces(encrypt, a, c);
      assert a + b == a + c + [p] && b == c + [p];
      PieceNext(encrypt, a + c, p);
      PieceNext(encrypt, c, p);
      var o := if p.good then Stream(encrypt, p.key, p.tick, (p.len + 15) / 16)[..p.len] else [];
      AppendAssociates(Output(encrypt, a), Output(encrypt, c), o);
    }
  }

  /** Pieces of at most the given size, all full and successful but perhaps the last. */
  ghost predicate WellCut(ps: seq<Piece>, size: nat) {
    && (forall i :: 0 <= i < |ps| ==> 0 < ps[i].len <= size && ps[i].Fits())
    && (forall i :: 0 <= i < |ps| - 1 ==> ps[i].len == size && ps[i].good)
  }

  lemma WellCutNext(ps: seq<Piece>, size: nat, p: Piece)
    requires WellCut(ps, size) && 0 < p.len <= size && p.Fits()
    requires ps != [] ==> ps[|ps| - 1].len == size && ps[|ps| - 1].good
    ensures WellCut(ps + [p], size)
  {
  }
}
