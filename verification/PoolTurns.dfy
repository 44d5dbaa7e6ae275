/** Handing out pool numbers to event sources that share one variable and no lock. */
module PoolTurns {
  import opened Arithmetic
  import opened FortunaPools

  type Thread = nat

  /**
   * The shared variable, the value each updater last saw there, and the numbers handed out so far in the order of
   * the successful exchanges.
   */
  datatype State = State(shared: nat, seen: map<Thread, nat>, given: seq<nat>)

  /** An updater loads the variable, or tries to exchange what it saw for the next value. */
  datatype Step = Load(t: Thread) | Exchange(t: Thread)

  function NextValue(v: nat): nat {
    (v + 1) % TWO32 % POOLS
  }

  /** A failed exchange shows the updater the current value; a successful one ends its update. */
  function Next(s: State, step: Step): State {
    match step
    case Load(t) => if t in s.seen then s else s.(seen := s.seen[t := s.shared])
    case Exchange(t) =>
      if t !in s.seen then s
      else if s.seen[t] != s.shared then s.(seen := s.seen[t := s.shared])
      else
        var n := NextValue(s.seen[t]);
        State(n, s.seen - {t}, s.given + [(n + POOLS - 1) % POOLS])
  }

  function Run(start: nat, steps: seq<Step>): State {
    if steps == [] then State(start, map[], []) else Next(Run(start, steps[..|steps| - 1]), steps[|steps| - 1])
  }

  lemma NextValueFacts(start: nat, n: nat, v: nat)
    requires v < TWO32 && v % POOLS == (start + n) % POOLS
    ensures NextValue(v) < POOLS && NextValue(v) == (start + n + 1) % POOLS
    ensures (NextValue(v) + POOLS - 1) % POOLS == (start + n) % POOLS
  {
    ModMod(v + 1, 0x800_0000, POOLS);
    ModAdd(v, 1, POOLS);
    ModAdd(start + n, 1, POOLS);
    ModAdd(start + n + 1, POOLS - 1, POOLS);
    DivAdd(start + n, 1, POOLS);
  }

  /** However the updaters interleave, the i-th update gets the i-th pool in rotation. */
  lemma {:induction false} TurnsRotate(start: nat, steps: seq<Step>)
    requires start < TWO32
    ensures var s := Run(start, steps);
            && s.shared < TWO32 && s.shared % POOLS == (start + |s.given|) % POOLS
            && (forall i :: 0 <= i < |s.given| ==> s.given[i] == (start + i) % POOLS)
  {
    if steps != [] {
      var n := |steps| - 1;
      TurnsRotate(start, steps[..n]);
      var s := Run(start, steps[..n]);
      NextValueFacts(start, |s.given|, s.shared);
    }
  }

  /** Updates fewer than 32 turns apart never share a pool. */
  lemma TurnsDiffer(start: nat, steps: seq<Step>, i: nat, j: nat)
    requires start < TWO32 && i < j < |Run(start, steps).given| && j < i + POOLS
    ensures Run(start, steps).given[i] != Run(start, steps).given[j]
  {
    hide Run;
    TurnsRotate(start, steps);
    Apart(start + i, start + j);
  }

  lemma Apart(a: nat, b: nat)
    requires a < b < a + POOLS
    ensures a % POOLS != b % POOLS
  {
  }
}
