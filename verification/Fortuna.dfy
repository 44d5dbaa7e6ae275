/** The Fortuna generator: counter and key discipline, and which pools a reseed draws on. */
module Fortuna {
  import opened Arithmetic
  import opened BigEndian
  import opened Bytes
  import opened FortunaLog
  import opened FortunaPools
  import opened FortunaRing

  const MIN_POOL_SIZE: nat := 64
  /** The calls of a successful initialisation: two for each pool and six more. */
  const INIT_CALLS: nat := 70

  const MIB: nat := 0x10_0000

  // ----- Which pools a reseed uses

  /** Pool n is due when 2^n divides the reseed count. */
  predicate Due(count: nat, n: nat) {
    count % Pow2(n) == 0
  }

  /** The shortcut: a test of one bit. */
  predicate BitTest(count: nat, n: nat) {
    n == 0 || count / Pow2(n - 1) % 2 == 0
  }

  /** The bit test decides divisibility by 2^n exactly for multiples of 2^(n-1). */
  lemma BitTestExact(count: nat, n: nat)
    requires n > 0
    ensures Due(count, n) <==> Due(count, n - 1) && BitTest(count, n)
  {
    HalfSteps(count, Pow2(n - 1));
  }

  lemma HalfSteps(count: nat, m: nat)
    requires m > 0
    ensures count % (2 * m) == 0 <==> count % m == 0 && count / m % 2 == 0
  {
    hide Times;
    var q, r := count / m, count % m;
    var h, b := q / 2, q % 2;
    DivSplits(count, m);
    TimesSum(h + h, b, m);
    TimesDouble(h, m);
    TimesStep(0, m);
    DivUnique(count, 2 * m, h, Times(b, m) + r);
  }

  lemma TimesDouble(h: nat, m: nat)
    ensures Times(h + h, m) == Times(h, 2 * m)
  {
  }

  /** Taken alone the test also passes for pools that are not due. */
  lemma BitTestWeaker()
    ensures BitTest(1, 2) && !Due(1, 2)
  {
  }

  // ----- The generator

  datatype Status = Success | Failed | BadState | BadParameters

  class Generator {
    /** The block cipher on the two counter words, and the hash. */
    const encrypt: (Key, Counter) -> Block
    const hash: seq<byte> -> Key

    /** Which calls into the crypto library fail. */
    const fails: nat -> bool
    var calls: nat

    var alive: bool
    var key: Key
    var counter: Counter
    var pools: seq<seq<byte>>
    var pool0Length: nat
    var reseedCount: nat
    ghost var ticks: nat
    ghost var epoch: nat
    ghost var log: seq<Use>
    /** What has happened to the pools since the initialisation. */
    ghost var fed: seq<Feed>

    ghost predicate Valid()
      reads this
    {
      && |pools| == POOLS && PoolsOk() && pool0Length < TWO32 && reseedCount < TWO32
      && counter == CounterAt(ticks) && LogOk(log, ticks, epoch, key) && WithinLimit(log)
    }

    /** The pools are what their history makes of them. */
    ghost predicate PoolsOk()
      reads this`pools, this`fed
    {
      pools == Replay(hash, fed)
    }

    lemma PoolsReplayed()
      requires PoolsOk()
      ensures pools == Replay(hash, fed)
    {
    }

    /** Between operations a live generator has a key nothing was encrypted under. */
    ghost predicate Ready()
      reads this
    {
      Valid() && (alive ==> UsesOf(log, epoch) == 0)
    }

    /** The quick events given to the pools are those popped from the ring that have data. */
    ghost predicate Linked(ring: RingBuffer)
      reads this`fed, ring, ring.elem
    {
      ring.Valid() && ring.Idle() && QuickEvents(fed) == WithData(ring.st.popped)
    }

    constructor (encrypt: (Key, Counter) -> Block, hash: seq<byte> -> Key, fails: nat -> bool)
      ensures Ready() && !alive && this.encrypt == encrypt && this.hash == hash && this.fails == fails
      ensures calls == 0 && log == [] && fed == [] && ticks == 0
    {
      this.encrypt, this.hash, this.fails := encrypt, hash, fails;
      calls, alive, key, counter := 0, false, Zeros(32), Counter(0, 0);
      pools, pool0Length, reseedCount := EmptyPools(), 0, 0;
      ticks, epoch, log, fed := 0, 0, [], [];
    }

    /** A call into the crypto library. */
    method Call() returns (ok: bool)
      modifies this`calls
      ensures calls == old(calls) + 1 && ok == !fails(old(calls))
    {
      ok := !fails(calls);
      calls := calls + 1;
    }

    /** n calls, up to the first that fails. */
    method CallAll(n: nat) returns (ok: bool)
      modifies this`calls
      ensures old(calls) <= calls <= old(calls) + n && (ok <==> Clean(fails, old(calls), calls))
      ensures ok ==> calls == old(calls) + n
    {
      ok := true;
      for i := 0 to n
        invariant old(calls) <= calls <= old(calls) + i && (ok <==> Clean(fails, old(calls), calls))
        invariant ok ==> calls == old(calls) + i
      {
        if ok {
          ok := Call();
        }
      }
    }

    method Init(data: seq<byte>) returns (r: Status)
      requires Ready()
      modifies this
      ensures Ready() && calls >= old(calls)
      ensures old(alive) ==> r == BadState && log == old(log) && ticks == old(ticks) && alive
      ensures !old(alive) ==> (r == Success <==> alive) && log == []
      ensures !old(alive) ==> (r == Success <==> Clean(fails, old(calls), calls))
      ensures !old(alive) ==> calls <= old(calls) + INIT_CALLS && (r == Success ==> calls == old(calls) + INIT_CALLS)
      ensures r == Success ==> key == hash(data) && ticks == 1
      ensures !old(alive) ==> ticks <= 1 && fed == []
    {
      hide CounterAt, LogOk, UsesOf, WithinLimit, Replay, EmptyPools;
      if alive {
        return BadState;
      }
      counter, pools, pool0Length, reseedCount := Counter(0, 0), EmptyPools(), 0, 0;
      ticks, log, fed := 0, [], [];
      EmptyHistory(hash);
      EmptyLog(epoch, key);
      EmptyLog(epoch, hash(data));
      var ok := CallAll(INIT_CALLS);
      if !ok {
        return Failed;
      }
      key := hash(data);
      LogLater(log, ticks, epoch, key);
      Tick();
      alive := true;
      return Success;
    }

    method Tick()
      requires counter == CounterAt(ticks)
      modifies this`counter, this`ticks
      ensures counter == CounterAt(ticks) && ticks == old(ticks) + 1
    {
      IncrementIsNext(ticks);
      hide CounterAt;
      counter := Increment(counter);
      ticks := ticks + 1;
    }

    /** Encrypts the counter; done or not, the attempt is on record. */
    method Encrypt() returns (ok: bool, block: Block)
      requires Valid() && UsesOf(log, epoch) < KEY_LIMIT
      modifies this`calls, this`log
      ensures log == old(log) + [Use(epoch, key, ticks, counter)] && block == encrypt(key, counter)
      ensures calls == old(calls) + 1 && ok == !fails(old(calls))
    {
      log := log + [Use(epoch, key, ticks, counter)];
      block := encrypt(key, counter);
      ok := Call();
    }

    /** m encryptions, all n of them unless one fails; the counter moves on for each, also before an error. */
    method GenerateBlocks(n: nat) returns (ok: bool, out: seq<byte>, ghost m: nat)
      requires Valid() && UsesOf(log, epoch) + n <= KEY_LIMIT
      modifies this`calls, this`counter, this`ticks, this`log
      ensures Valid() && m <= n && ticks == old(ticks) + m && calls == old(calls) + m
      ensures log == old(log) + Uses(epoch, key, old(ticks), m) && UsesOf(log, epoch) == old(UsesOf(log, epoch)) + m
      ensures ok <==> Clean(fails, old(calls), calls)
      ensures ok ==> m == n && out == Stream(encrypt, key, old(ticks), n)
      ensures ok ==> IsStream(encrypt, key, old(ticks), n, out)
    {
      hide CounterAt, LogOk, UsesOf, WithinLimit, Uses, PoolsOk, IsStream;
      out, m := [], 0;
      NoUses(epoch, key, ticks);
      for i := 0 to n
        invariant m == i && Valid() && UsesOf(log, epoch) == old(UsesOf(log, epoch)) + i
        invariant ticks == old(ticks) + i && calls == old(calls) + i && Clean(fails, old(calls), calls)
        invariant log == old(log) + Uses(epoch, key, old(ticks), i) && out == Stream(encrypt, key, old(ticks), i)
      {
        LogNext(log, ticks, epoch, key);
        OneMoreUse(old(log), epoch, key, old(ticks), i);
        var block;
        ok, block := Encrypt();
        Tick();
        m := i + 1;
        if !ok {
          return;
        }
        out := out + block;
      }
      StreamIs(encrypt, key, old(ticks), n);
      ok := true;
    }

    /** blen bytes of keystream, the last block cut to length. */
    method GenerateRandomData(blen: nat) returns (ok: bool, out: seq<byte>, ghost m: nat)
      requires Valid() && UsesOf(log, epoch) + (blen + 15) / 16 <= KEY_LIMIT
      modifies this`calls, this`counter, this`ticks, this`log
      ensures Valid() && m <= (blen + 15) / 16 && ticks == old(ticks) + m && calls == old(calls) + m
      ensures log == old(log) + Uses(epoch, key, old(ticks), m) && UsesOf(log, epoch) == old(UsesOf(log, epoch)) + m
      ensures ok <==> Clean(fails, old(calls), calls)
      ensures ok ==> m == (blen + 15) / 16 && out == Stream(encrypt, key, old(ticks), m)[..blen]
    {
      hide CounterAt, LogOk, UsesOf, WithinLimit, Uses, PoolsOk, Stream, Clean;
      StreamCut(encrypt, key, ticks, blen / 16, blen % 16);
      ok, out, m := GenerateBlocks(blen / 16);
      if !ok {
        return;
      }
      if blen % 16 != 0 {
        var block;
        ghost var c, m' := calls, 0;
        ok, block, m' := GenerateBlocks(1);
        CleanParts(fails, old(calls), c, calls);
        UsesAppend(epoch, key, old(ticks), m, m');
        AppendedUses(old(log), epoch, key, old(ticks), m, m');
        m := m + m';
        if !ok {
          return;
        }
        out := out + block[..blen % 16];
      }
    }

    /** An event goes into a pool as source number, length and at most 32 bytes. */
    method AddEvent(e: Event, ghost quick: bool) returns (r: Status, ghost f: Feed)
      requires Ready() && alive
      modifies this`calls, this`pools, this`pool0Length, this`fed
      ensures Ready() && calls >= old(calls) && r != BadState
      ensures fed == old(fed) + [f] && f.Fed? && f.event == e && f.quick == quick && (f.part.Whole? <==> r == Success)
      ensures r == BadParameters <==> e.pnum >= POOLS
      ensures r == Failed <==> !Clean(fails, old(calls), calls)
      ensures r == BadParameters ==> pools == old(pools) && pool0Length == old(pool0Length)
      ensures r == Failed ==> PartlyAdded(old(pools), e, pools) && pool0Length == old(pool0Length)
      ensures r == Success ==>
                && pools == old(pools)[e.pnum := pools[e.pnum]] && Carries(old(pools)[e.pnum], e, pools[e.pnum])
                && (e.pnum == 0 ==> Measured(old(pool0Length), e, pool0Length))
      ensures r == Success ==>
                && pools == old(pools)[e.pnum := old(pools)[e.pnum] + EventBytes(e)]
                && pool0Length == (if e.pnum == 0 then Saturate(old(pool0Length), |Shortened(e.data)|)
                                   else old(pool0Length))
    {
      hide CounterAt, LogOk, UsesOf, WithinLimit, Header, EventBytes, Shortened, Replay, Apply, Carries;
      FedApplied(hash, pools, e, quick);
      if e.pnum < POOLS {
        EventCarried(pools[e.pnum], e);
      }
      ReplayNext(hash, fed, Fed(e, quick, Nothing));
      ReplayNext(hash, fed, Fed(e, quick, HeaderOnly));
      ReplayNext(hash, fed, Fed(e, quick, Whole));
      f := Fed(e, quick, Nothing);
      if e.pnum >= POOLS {
        fed := fed + [f];
        return BadParameters, f;
      }
      var data := Shortened(e.data);
      var ok := Call();
      if !ok {
        fed := fed + [f];
        return Failed, f;
      }
      pools := pools[e.pnum := pools[e.pnum] + Header(e)];
      ok := Call();
      if !ok {
        f := Fed(e, quick, HeaderOnly);
        fed := fed + [f];
        return Failed, f;
      }
      pools := pools[e.pnum := pools[e.pnum] + data];
      if e.pnum == 0 && pool0Length + |data| < TWO32 {
        pool0Length := pool0Length + |data|;
      }
      f := Fed(e, quick, Whole);
      fed := fed + [f];
      return Success, f;
    }

    /** One turn of the draining loop: pops an event and gives it to its pool, or finds that there is none. */
    method DrainOne(ring: RingBuffer) returns (more: bool, r: Status, e: Event)
      requires Ready() && alive && Linked(ring)
      modifies this`calls, this`pools, this`pool0Length, this`fed, ring
      ensures Ready() && Linked(ring) && calls >= old(calls) && r != BadState && ring.st.pushed == old(ring.st.pushed)
      ensures old(fed) <= fed && old(ring.st.popped) <= ring.st.popped && (r != Success ==> !AllFedWhole(fed))
      ensures r == Failed <==> !Clean(fails, old(calls), calls)
      ensures r == Success && old(AllFedWhole(fed)) ==> AllFedWhole(fed)
      ensures !more ==> && r == Success && pools == old(pools) && fed == old(fed)
                        && Exhausted(ring.st.pushed, ring.st.popped)
      ensures more ==> && QuickEvents(fed) == old(QuickEvents(fed)) + [e] && (r == BadParameters <==> e.pnum >= POOLS)
                       && (AllPools(ring.st.pushed) ==> e.pnum < POOLS)
                       && |old(ring.st.popped)| < |ring.st.popped| <= |ring.st.pushed|
      ensures more && r == Success ==> pools == old(pools)[e.pnum := old(pools)[e.pnum] + EventBytes(e)]
      ensures more && r == BadParameters ==> pools == old(pools)
      ensures more && r == Failed ==> PartlyAdded(old(pools), e, pools)
    {
      hide CounterAt, LogOk, UsesOf, WithinLimit, EventBytes, Header, Inv, Replay, QuickEvents, WithData, PoolsOk;
      PoppedLast(ring.st);
      e := ring.Pop();
      PoppedLast(ring.st);
      WithDataNext(old(ring.st.popped), e);
      more, r := e.data != [], Success;
      if more {
        ghost var f;
        r, f := AddEvent(e, true);
        QuickNext(old(fed), f);
        FedWholeNext(old(fed), f);
      }
    }

    /**
     Pops events and gives them to their pools, up to a pop that comes back empty or the first event refused, while
     more events arrive.
     */
    method Drain(ring: RingBuffer, arrivals: seq<seq<Event>>) returns (r: Status, ghost taken: seq<Event>)
      requires Ready() && alive && Linked(ring)
      modifies this`calls, this`pools, this`pool0Length, this`fed, ring, ring.elem
      ensures Ready() && Linked(ring) && calls >= old(calls) && r != BadState
      ensures QuickEvents(fed) == old(QuickEvents(fed)) + taken && (r != Success ==> !AllFedWhole(fed))
      ensures old(fed) <= fed && old(ring.st.popped) <= ring.st.popped
      ensures Accepted(old(ring.st.pushed), |old(ring.st.popped)|, First(arrivals)) <= ring.st.pushed
      ensures old(ring.st.pushed) <= ring.st.pushed
      ensures AllArrivals(arrivals) && AllPools(old(ring.st.pushed)) ==> AllPools(ring.st.pushed) && r != BadParameters
      ensures r == Failed <==> !Clean(fails, old(calls), calls)
      ensures r == Success ==>
                && AllPools(taken) && pools == Absorbed(old(pools), taken)
                && (old(AllFedWhole(fed)) ==> AllFedWhole(fed))
                && Exhausted(ring.st.pushed, ring.st.popped)
      ensures r != Success ==> taken != [] && AllPools(taken[..|taken| - 1])
      ensures r == BadParameters ==>
                taken[|taken| - 1].pnum >= POOLS && pools == Absorbed(old(pools), taken[..|taken| - 1])
      ensures r == Failed ==>
                PartlyAdded(Absorbed(old(pools), taken[..|taken| - 1]), taken[|taken| - 1], pools)
    {
      hide CounterAt, LogOk, UsesOf, WithinLimit, EventBytes, Inv, Replay, QuickEvents, WithData, Absorbed, PoolsOk;
      hide AllPools, AllFedWhole, AllArrivals, PartlyAdded, Accepted, Exhausted;
      NoneAccepted(ring.st.pushed, |ring.st.popped|);
      taken := [];
      AbsorbedNone(pools);
      var i := 0;
      while true
        invariant i <= |arrivals| && Ready() && alive && Linked(ring)
        invariant calls >= old(calls) && Clean(fails, old(calls), calls)
        invariant QuickEvents(fed) == old(QuickEvents(fed)) + taken
        invariant old(fed) <= fed && old(ring.st.popped) <= ring.st.popped && old(ring.st.pushed) <= ring.st.pushed
        invariant i == 0 && arrivals != [] ==>
                    ring.st.pushed == old(ring.st.pushed) && ring.st.popped == old(ring.st.popped)
        invariant i > 0 || arrivals == [] ==>
                    Accepted(old(ring.st.pushed), |old(ring.st.popped)|, First(arrivals)) <= ring.st.pushed
        invariant AllArrivals(arrivals) && AllPools(old(ring.st.pushed)) ==> AllPools(ring.st.pushed)
        invariant AllPools(taken) && pools == Absorbed(old(pools), taken)
        invariant old(AllFedWhole(fed)) ==> AllFedWhole(fed)
        decreases |arrivals| - i, |ring.st.pushed| - |ring.st.popped|
      {
        if i < |arrivals| {
          Arrive(ring, arrivals[i]);
          ArrivalsKnown(arrivals, i);
          i := i + 1;
        }
        var more, e;
        more, r, e := DrainOne(ring);
        if !more {
          return Success, taken;
        }
        AbsorbedNext(old(pools), taken, e);
        taken := taken + [e];
        if r != Success {
          return;
        }
      }
    }

    /** Restarts a pool with its digest. */
    method RestartPool(k: nat) returns (ok: bool, digest: Key)
      requires k < |pools| == POOLS
      modifies this`calls, this`pools, this`fed
      ensures calls >= old(calls) && (ok <==> Clean(fails, old(calls), calls)) && digest == hash(old(pools)[k])
      ensures pools == if ok then old(pools)[k := digest] else old(pools)
      ensures (old(PoolsOk()) ==> PoolsOk()) && QuickEvents(fed) == old(QuickEvents(fed))
      ensures old(fed) <= fed && (old(AllFedWhole(fed)) ==> AllFedWhole(fed))
    {
      hide Replay, Apply, QuickEvents, AllFedWhole;
      digest := hash(pools[k]);
      ok := CallAll(3);
      if ok {
        ReplayNext(hash, fed, Restarted(k));
        RestartApplied(hash, pools, k);
        QuickNext(fed, Restarted(k));
        FedWholeNext(fed, Restarted(k));
        pools := pools[k := digest];
        fed := fed + [Restarted(k)];
      }
    }

    /** Restarts the pools the bit test lets through, up to the first it stops at. */
    method RestartPools() returns (ok: bool, seed: seq<byte>, ghost n: nat)
      requires |pools| == POOLS && pool0Length < TWO32
      modifies this`calls, this`pools, this`pool0Length, this`fed
      ensures |pools| == POOLS && pool0Length < TWO32
      ensures old(PoolsOk()) ==> PoolsOk()
      ensures old(fed) <= fed && QuickEvents(fed) == old(QuickEvents(fed))
      ensures old(AllFedWhole(fed)) ==> AllFedWhole(fed)
      ensures calls >= old(calls) && (ok <==> Clean(fails, old(calls), calls))
      ensures ok ==> pool0Length == 0 && Drained(hash, reseedCount, n, old(pools), pools)
      ensures ok ==> seed == Digests(hash, old(pools), n) && IsDigests(hash, old(pools), n, seed)
    {
      hide Due, BitTest, PoolsOk, QuickEvents, AllFedWhole, Digests, IsDigests;
      var k := 0;
      n, seed := 0, [];
      FirstPool(reseedCount);
      DigestsNext(hash, pools, 0);
      while k < POOLS && BitTest(reseedCount, k)
        invariant n == k <= POOLS && |pools| == POOLS && pool0Length < TWO32 && (k > 0 ==> pool0Length == 0)
        invariant calls >= old(calls) && Clean(fails, old(calls), calls)
        invariant old(PoolsOk()) ==> PoolsOk()
        invariant old(fed) <= fed && QuickEvents(fed) == old(QuickEvents(fed))
        invariant old(AllFedWhole(fed)) ==> AllFedWhole(fed)
        invariant seed == Digests(hash, old(pools), k)
        invariant forall m :: 0 <= m < k || m == 0 ==> Due(reseedCount, m)
        invariant forall m :: 0 <= m < POOLS ==> pools[m] == if m < k then hash(old(pools)[m]) else old(pools)[m]
      {
        if k > 0 {
          BitTestExact(reseedCount, k);
        }
        var digest;
        ok, digest := RestartPool(k);
        if !ok {
          return;
        }
        if k == 0 {
          pool0Length := 0;
        }
        ok := Call();
        if !ok {
          return;
        }
        DigestsNext(hash, old(pools), k);
        seed := seed + digest;
        k := k + 1;
        n := k;
      }
      forall m | k <= m < POOLS ensures !Due(reseedCount, m) {
        NotDue(reseedCount, k, m);
      }
      DigestsAre(hash, old(pools), k);
      ok := true;
    }

    /** Reseeds from the due pools once enough has gathered in pool 0. The key moves exactly with the epoch. */
    method MaybeReseed(limited: bool) returns (ok: bool, ghost n: nat)
      requires Ready() && alive
      modifies this`calls, this`pools, this`pool0Length, this`reseedCount, this`fed
      modifies this`key, this`counter, this`ticks, this`epoch
      ensures old(fed) <= fed && QuickEvents(fed) == old(QuickEvents(fed))
      ensures old(AllFedWhole(fed)) ==> AllFedWhole(fed)
      ensures Valid() && (ok ==> Ready()) && calls >= old(calls) && (ok <==> Clean(fails, old(calls), calls))
      ensures old(pool0Length) < MIN_POOL_SIZE || limited ==>
                && ok && pools == old(pools) && reseedCount == old(reseedCount)
                && key == old(key) && epoch == old(epoch) && ticks == old(ticks)
      ensures !ok ==> key == old(key) && epoch == old(epoch) && ticks == old(ticks)
      ensures ok && old(pool0Length) >= MIN_POOL_SIZE && !limited ==>
                && reseedCount == (old(reseedCount) + 1) % TWO32 && pool0Length == 0
                && epoch == old(epoch) + 1 && ticks == old(ticks) + 1
                && Drained(hash, reseedCount, n, old(pools), pools) && key == hash(Digests(hash, old(pools), n))
    {
      hide CounterAt, LogOk, UsesOf, WithinLimit, Drained, PoolsOk, QuickEvents, AllFedWhole;
      n := 0;
      if pool0Length < MIN_POOL_SIZE || limited {
        return true, 0;
      }
      reseedCount := (reseedCount + 1) % TWO32;
      ok := Call();
      if !ok {
        return;
      }
      var seed;
      ok, seed, n := RestartPools();
      if !ok {
        return;
      }
      ok := CallAll(2);
      if !ok {
        return;
      }
      Rekey(hash(seed));
      LogLater(log, ticks, epoch, key);
      Tick();
    }

    /** A new key begins a new epoch. */
    method Rekey(next: Key)
      requires Valid()
      modifies this`key, this`epoch
      ensures Valid() && key == next && epoch == old(epoch) + 1 && UsesOf(log, epoch) == 0
    {
      hide CounterAt, LogOk, UsesOf, WithinLimit, PoolsOk;
      LogRekeyed(log, ticks, epoch, key, next);
      key := next;
      epoch := epoch + 1;
    }

    /** blen bytes of output and, from the next two blocks, a new key. */
    method Generate(blen: nat) returns (ok: bool, buf: seq<byte>, ghost m: nat)
      requires Ready() && alive && 0 < blen <= MIB
      modifies this`calls, this`counter, this`ticks, this`log, this`key, this`epoch
      ensures Valid() && (ok ==> Ready()) && calls >= old(calls) && (ok <==> Clean(fails, old(calls), calls))
      ensures m <= BlocksFor(blen) && ticks == old(ticks) + m
      ensures log == old(log) + Uses(old(epoch), old(key), old(ticks), m)
      ensures !ok ==> key == old(key) && epoch == old(epoch)
      ensures ok ==> && m == BlocksFor(blen) && buf == Stream(encrypt, old(key), old(ticks), (blen + 15) / 16)[..blen]
                     && epoch == old(epoch) + 1 && key == Stream(encrypt, old(key), old(ticks) + (blen + 15) / 16, 2)
    {
      hide CounterAt, LogOk, UsesOf, WithinLimit, Stream, Uses, PoolsOk;
      ok, buf, m := GenerateRandomData(blen);
      if !ok {
        return;
      }
      var next;
      ghost var m';
      ok, next, m' := GenerateBlocks(2);
      UsesAppend(epoch, key, old(ticks), m, m');
      AppendedUses(old(log), epoch, key, old(ticks), m, m');
      m := m + m';
      if !ok {
        return;
      }
      ok := Call();
      if !ok {
        return;
      }
      Rekey(next);
    }

    /** The output of one read and the reseeding before it. */
    method Draw(blen: nat, limited: bool) returns (ok: bool, buf: seq<byte>, ghost p: Piece)
      requires Ready() && alive && blen <= MIB
      modifies this
      ensures Valid() && alive && (ok ==> Ready()) && calls >= old(calls) && (ok <==> Clean(fails, old(calls), calls))
      ensures p.len == blen && p.good == ok && p.Fits()
      ensures log == old(log) + Uses(p.epoch, p.key, p.tick, p.blocks) && ticks <= old(ticks) + 1 + p.blocks
      ensures old(fed) <= fed && QuickEvents(fed) == old(QuickEvents(fed))
      ensures old(AllFedWhole(fed)) ==> AllFedWhole(fed)
      ensures ok ==> buf == Stream(encrypt, p.key, p.tick, (blen + 15) / 16)[..blen]
      ensures ok && blen > 0 ==>
                epoch == p.epoch + 1 && key == Stream(encrypt, p.key, p.tick + (blen + 15) / 16, 2)
      ensures ok && blen == 0 ==> epoch == p.epoch && key == p.key
      ensures if old(pool0Length) < MIN_POOL_SIZE || limited
              then p.key == old(key) && p.epoch == old(epoch) && p.tick == old(ticks)
              else ok ==> p.epoch == old(epoch) + 1 && p.tick == old(ticks) + 1
    {
      hide CounterAt, LogOk, UsesOf, WithinLimit, Stream, Uses, Drained, QuickEvents, PoolsOk, AllFedWhole;
      buf := [];
      ghost var n, m := 0, 0;
      ok, n := MaybeReseed(limited);
      NoUses(epoch, key, ticks);
      ghost var e, k, t := epoch, key, ticks;
      if ok && blen > 0 {
        ok, buf, m := Generate(blen);
      }
      p := Piece(e, k, t, blen, m, ok);
    }

    /** One read: at most 1 MiB, after which the key is replaced; any error ends the generator. */
    method Read(blen: nat, limited: bool, ring: RingBuffer, arrivals: seq<seq<Event>>)
        returns (r: Status, buf: seq<byte>, ghost p: Piece)
      requires Ready() && Linked(ring) && blen <= MIB
      modifies this, ring, ring.elem
      ensures Ready() && Linked(ring) && calls >= old(calls) && p.len == blen && p.Fits() && p.good == (r == Success)
      ensures log == old(log) + Uses(p.epoch, p.key, p.tick, p.blocks) && ticks <= old(ticks) + 1 + p.blocks
      ensures AllArrivals(arrivals) && AllPools(old(ring.st.pushed)) ==> AllPools(ring.st.pushed) && r != BadParameters
      ensures Extends(old(fed), old(ring.st.popped), old(ring.st.pushed), fed, ring.st.popped, ring.st.pushed)
      ensures r == Success ==> Exhausted(ring.st.pushed, ring.st.popped)
      ensures !old(alive) ==> && r == BadState && !alive && p.blocks == 0
                              && fed == old(fed) && ring.st == old(ring.st)
      ensures old(alive) ==> && (alive <==> r == Success) && (r == Failed <==> !Clean(fails, old(calls), calls))
                             && r != BadState && (r == Success && old(AllFedWhole(fed)) ==> AllFedWhole(fed))
      ensures buf == if r == Success then Stream(encrypt, p.key, p.tick, (blen + 15) / 16)[..blen] else []
      ensures r == Success && blen > 0 ==>
                epoch == p.epoch + 1 && key == Stream(encrypt, p.key, p.tick + (blen + 15) / 16, 2)
      ensures r == Success && blen == 0 ==> epoch == p.epoch && key == p.key
      ensures old(alive) ==> if old(pool0Length) < MIN_POOL_SIZE || limited
                             then p.key == old(key) && p.epoch == old(epoch) && p.tick == old(ticks)
                             else p.good ==> p.epoch == old(epoch) + 1 && p.tick == old(ticks) + 1
    {
      hide CounterAt, LogOk, UsesOf, WithinLimit, Stream, Uses, QuickEvents, WithData, Inv, Absorbed;
      hide PoolsOk, AllPools, AllFedWhole, AllArrivals, PartlyAdded, Exhausted, Accepted, First;
      buf, p := [], Piece(epoch, key, ticks, blen, 0, false);
      NoUses(epoch, key, ticks);
      if !alive {
        return BadState, buf, p;
      }
      var ok;
      ok, buf, p := Draw(blen, limited);
      r := if ok then Success else Failed;
      ghost var c := calls;
      if ok {
        ghost var taken;
        r, taken := Drain(ring, arrivals);
        CleanParts(fails, old(calls), c, calls);
      }
      if r != Success {
        alive, buf := false, [];
      }
      p := p.(good := r == Success);
    }

    /** Any amount of random data, drawn in pieces of at most 1 MiB, each under a key of its own. */
    method RngRead(blen: nat, limited: nat -> bool, ring: RingBuffer, arrivals: nat -> seq<seq<Event>>)
        returns (r: Status, buf: seq<byte>, ghost pieces: seq<Piece>)
      requires Ready() && Linked(ring)
      modifies this, ring, ring.elem
      ensures Ready() && Linked(ring) && calls >= old(calls)
      ensures buf == Output(encrypt, pieces) && log == old(log) + AllUses(pieces)
      ensures ticks + |old(log)| <= old(ticks) + |pieces| + |log|
      ensures WellCut(pieces, MIB)
      ensures AllDuring(arrivals) && AllPools(old(ring.st.pushed)) ==>
                AllPools(ring.st.pushed) && r != BadParameters
      ensures r == Success ==> |buf| == blen && alive == old(alive) && (old(AllFedWhole(fed)) ==> AllFedWhole(fed))
      ensures Extends(old(fed), old(ring.st.popped), old(ring.st.pushed), fed, ring.st.popped, ring.st.pushed)
      ensures r == Success && blen > 0 ==> Exhausted(ring.st.pushed, ring.st.popped)
      ensures r != Success ==> !alive && |buf| < blen && pieces != [] && !pieces[|pieces| - 1].good
      ensures !old(alive) && blen > 0 ==> r == BadState && AllUses(pieces) == []
      ensures !old(alive) || blen == 0 ==> alive == old(alive) && fed == old(fed) && ring.st == old(ring.st)
      ensures old(alive) ==> r != BadState && (r == Failed ==> !Clean(fails, old(calls), calls))
    {
      hide CounterAt, LogOk, UsesOf, WithinLimit, Stream, Uses, AllUses, Output, WellCut;
      hide PoolsOk, QuickEvents, WithData, Inv, AllPools, AllFedWhole, AllDuring, Clean, Exhausted, Extends;
      ExtendsSelf(fed, ring.st.popped, ring.st.pushed);
      buf, pieces := [], [];
      NoPieces(encrypt);
      var i := 0;
      while |buf| < blen
        invariant Ready() && Linked(ring) && calls >= old(calls) && |buf| <= blen && alive == old(alive)
        invariant buf == Output(encrypt, pieces) && log == old(log) + AllUses(pieces) && WellCut(pieces, MIB)
        invariant ticks + |old(log)| <= old(ticks) + |pieces| + |log|
        invariant |buf| < blen && pieces != [] ==> pieces[|pieces| - 1].len == MIB && pieces[|pieces| - 1].good
        invariant !alive || blen == 0 ==> pieces == [] && fed == old(fed) && ring.st == old(ring.st)
        invariant AllDuring(arrivals) && AllPools(old(ring.st.pushed)) ==> AllPools(ring.st.pushed)
        invariant old(AllFedWhole(fed)) ==> AllFedWhole(fed)
        invariant Extends(old(fed), old(ring.st.popped), old(ring.st.pushed), fed, ring.st.popped, ring.st.pushed)
        invariant buf != [] ==> Exhausted(ring.st.pushed, ring.st.popped)
      {
        var n := if blen - |buf| < MIB then blen - |buf| else MIB;
        var part;
        ghost var p;
        ghost var c, f, popped, pushed := calls, fed, ring.st.popped, ring.st.pushed;
        DuringKnown(arrivals, i);
        r, part, p := Read(n, limited(i), ring, arrivals(i));
        ExtendsOn(old(fed), old(ring.st.popped), old(ring.st.pushed), f, popped, pushed,
                  fed, ring.st.popped, ring.st.pushed);
        NoUses(p.epoch, p.key, p.tick);
        UsesLength(p);
        PieceNext(encrypt, pieces, p);
        AppendedPiece(old(log), pieces, p);
        WellCutNext(pieces, MIB, p);
        buf, pieces := buf + part, pieces + [p];
        if r != Success {
          CleanParts(fails, old(calls), c, calls);
          return;
        }
        i := i + 1;
      }
      r := Success;
    }
  }

  lemma UsesLength(p: Piece)
    ensures |Uses(p.epoch, p.key, p.tick, p.blocks)| == p.blocks
  {
  }

  lemma CleanParts(fails: nat -> bool, a: nat, b: nat, c: nat)
    requires a <= b <= c
    ensures Clean(fails, a, c) <==> Clean(fails, a, b) && Clean(fails, b, c)
  {
  }

  lemma AbsorbedNone(pools: seq<seq<byte>>)
    requires |pools| == POOLS
    ensures AllPools([]) && Absorbed(pools, []) == pools
  {
  }

  lemma NoPieces(encrypt: (Key, Counter) -> Block)
    ensures AllUses([]) == [] && Output(encrypt, []) == [] && WellCut([], MIB)
  {
  }

  /** None of the calls from number a up to number b fails. */
  ghost predicate Clean(fails: nat -> bool, a: nat, b: nat) {
    forall c :: a <= c < b ==> !fails(c)
  }

  lemma NoUses(epoch: nat, key: Key, t: nat)
    ensures Uses(epoch, key, t, 0) == []
  {
  }

  lemma OneMoreUse(log: seq<Use>, epoch: nat, key: Key, t: nat, n: nat)
    ensures log + Uses(epoch, key, t, n) + [Use(epoch, key, t + n, CounterAt(t + n))] ==
            log + Uses(epoch, key, t, n + 1)
  {
    hide CounterAt;
  }

  lemma AppendedUses(log: seq<Use>, epoch: nat, key: Key, t: nat, m: nat, n: nat)
    ensures log + Uses(epoch, key, t, m) + Uses(epoch, key, t + m, n) == log + Uses(epoch, key, t, m + n)
  {
    hide Uses;
    UsesAppend(epoch, key, t, m, n);
    var a, b := Uses(epoch, key, t, m), Uses(epoch, key, t + m, n);
    assert log + a + b == log + (a + b);
  }

  lemma AppendedPiece(log: seq<Use>, ps: seq<Piece>, p: Piece)
    ensures var a, b := AllUses(ps), Uses(p.epoch, p.key, p.tick, p.blocks);
            log + a + b == log + (a + b)
  {
    hide Uses, AllUses;
  }

  /** Exactly the due pools, which are the first n, are restarted with their digests. */
  ghost predicate Drained(hash: seq<byte> -> Key, count: nat, n: nat, before: seq<seq<byte>>, after: seq<seq<byte>>) {
    && |before| == |after| == POOLS && 0 < n <= POOLS
    && forall m :: 0 <= m < POOLS ==>
         (m < n <==> Due(count, m)) && after[m] == if Due(count, m) then hash(before[m]) else before[m]
  }

  lemma FirstPool(count: nat)
    ensures BitTest(count, 0) && Due(count, 0)
  {
  }

  /** Once the test has stopped the loop no later pool is due. */
  lemma {:induction false} NotDue(count: nat, k: nat, m: nat)
    requires 0 < k <= m && !BitTest(count, k)
    ensures !Due(count, m)
  {
    hide Due, BitTest;
    BitTestExact(count, m);
    if k < m {
      NotDue(count, k, m - 1);
    }
  }

  /** The measure has grown by the bytes of data taken, at most 32, unless that does not fit 32 bits. */
  ghost predicate Measured(before: nat, e: Event, after: nat) {
    var d := if |e.data| < 32 then |e.data| else 32;
    after == if before + d < 0x1_0000_0000 then before + d else before
  }

  /** An addition that would overflow 32 bits is not made. */
  function Saturate(a: nat, n: nat): nat {
    if a + n < TWO32 then a + n else a
  }

  /** seed is made of the digests of the first n pools, in order. */
  ghost predicate IsDigests(hash: seq<byte> -> Key, pools: seq<seq<byte>>, n: nat, seed: seq<byte>)
    requires n <= |pools|
  {
    |seed| == 32 * n && forall i :: 0 <= i < n ==> seed[32 * i..32 * i + 32] == hash(pools[i])
  }

  lemma {:induction false} DigestsAre(hash: seq<byte> -> Key, pools: seq<seq<byte>>, n: nat)
    requires n <= |pools|
    ensures IsDigests(hash, pools, n, Digests(hash, pools, n))
  {
    if n > 0 {
      DigestsAre(hash, pools, n - 1);
      var s, r := Digests(hash, pools, n - 1), Digests(hash, pools, n);
      forall i | 0 <= i < n ensures r[32 * i..32 * i + 32] == hash(pools[i]) {
        if i < n - 1 {
          assert r[32 * i..32 * i + 32] == s[32 * i..32 * i + 32] == hash(pools[i]);
        } else {
          assert r[|s|..|s| + 32] == hash(pools[i]);
        }
      }
    }
  }

  lemma DigestsNext(hash: seq<byte> -> Key, pools: seq<seq<byte>>, k: nat)
    requires k < |pools|
    ensures Digests(hash, pools, 0) == [] && Digests(hash, pools, k + 1) == Digests(hash, pools, k) + hash(pools[k])
  {
  }

  /** The digests of the first k pools. */
  function Digests(hash: seq<byte> -> Key, pools: seq<seq<byte>>, k: nat): seq<byte>
    requires k <= |pools|
  {
    if k == 0 then [] else Digests(hash, pools, k - 1) + hash(pools[k - 1])
  }
}
