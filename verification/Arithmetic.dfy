/** Powers of two, and multiples and division as functions whose definitions proofs can hide. */
module Arithmetic {
  const TWO32: nat := 0x1_0000_0000
  const TWO64: nat := 0x1_0000_0000_0000_0000
  const TWO128: nat := 0x1_0000_0000_0000_0000_0000_0000_0000_0000

  function Pow2(n: nat): (r: nat)
    ensures r > 0
  {
    if n == 0 then 1 else 2 * Pow2(n - 1)
  }

  /** n times s.  The proofs hide the multiplication and use the facts below. */
  function Times(n: nat, s: nat): nat {
    n * s
  }

  lemma TimesStep(n: nat, s: nat)
    ensures Times(n + 1, s) == Times(n, s) + s && Times(0, s) == 0 && Times(1, s) == s
  {
  }

  lemma {:induction false} TimesSum(a: nat, b: nat, s: nat)
    ensures Times(a + b, s) == Times(a, s) + Times(b, s)
  {
    hide Times, Quot, Rem;
    TimesStep(0, s);
    if b > 0 {
      TimesSum(a, b - 1, s);
      TimesStep(a + b - 1, s);
      TimesStep(b - 1, s);
    }
  }

  lemma TimesOrder(a: nat, b: nat, s: nat)
    requires s > 0
    ensures a <= b <==> Times(a, s) <= Times(b, s)
    ensures a < b <==> Times(a, s) + s <= Times(b, s)
    ensures a < b <==> Times(a, s) < Times(b, s)
  {
    hide Times, Quot, Rem;
    if a < b {
      TimesSum(a + 1, b - a - 1, s);
      TimesStep(a, s);
    } else if b < a {
      TimesSum(b + 1, a - b - 1, s);
      TimesStep(b, s);
    }
  }

  function Quot(x: nat, m: nat): nat
    requires m > 0
  {
    x / m
  }

  function Rem(x: nat, m: nat): (r: nat)
    requires m > 0
    ensures r < m
  {
    x % m
  }

  /** Division splits off the multiples. */
  lemma DivSplits(x: nat, m: nat)
    requires m > 0
    ensures x == Times(Quot(x, m), m) + Rem(x, m)
  {
  }

  lemma DivUnique(x: nat, m: nat, q: nat, r: nat)
    requires m > 0 && x == Times(q, m) + r && r < m
    ensures Quot(x, m) == q && Rem(x, m) == r
  {
    hide Times, Quot, Rem;
    DivSplits(x, m);
    TimesOrder(q, Quot(x, m), m);
    TimesOrder(Quot(x, m), q, m);
  }

  /** Multiples of the modulus do not show in the remainder. */
  lemma ModAdd(a: nat, b: nat, m: nat)
    requires m > 0
    ensures Rem(Rem(a, m) + b, m) == Rem(a + b, m)
  {
    hide Times, Quot, Rem;
    var c := Rem(a, m) + b;
    DivSplits(a, m);
    DivSplits(c, m);
    TimesSum(Quot(a, m), Quot(c, m), m);
    DivUnique(a + b, m, Quot(a, m) + Quot(c, m), Rem(c, m));
  }

  lemma {:induction false} TimesTimes(a: nat, b: nat, s: nat)
    ensures Times(a, Times(b, s)) == Times(Times(a, b), s)
  {
    hide Times, Quot, Rem;
    TimesStep(0, Times(b, s));
    TimesStep(0, b);
    TimesStep(0, s);
    if a > 0 {
      TimesTimes(a - 1, b, s);
      TimesStep(a - 1, Times(b, s));
      TimesStep(a - 1, b);
      TimesSum(Times(a - 1, b), b, s);
    }
  }

  /** A remainder of a multiple of m keeps the remainder by m. */
  lemma ModMod(n: nat, k: nat, m: nat)
    requires k > 0 && m > 0 && Times(k, m) > 0
    ensures Rem(Rem(n, Times(k, m)), m) == Rem(n, m)
  {
    hide Times, Quot, Rem;
    var r, q := Rem(n, Times(k, m)), Quot(n, Times(k, m));
    DivSplits(n, Times(k, m));
    DivSplits(r, m);
    TimesTimes(q, k, m);
    TimesSum(Times(q, k), Quot(r, m), m);
    DivUnique(n, m, Times(q, k) + Quot(r, m), Rem(r, m));
  }

  /** Multiples add up in the quotient. */
  lemma DivAdd(n: nat, q: nat, m: nat)
    requires m > 0
    ensures Quot(n + Times(q, m), m) == Quot(n, m) + q && Rem(n + Times(q, m), m) == Rem(n, m)
  {
    hide Times, Quot, Rem;
    DivSplits(n, m);
    TimesSum(Quot(n, m), q, m);
    DivUnique(n + Times(q, m), m, Quot(n, m) + q, Rem(n, m));
  }
}
