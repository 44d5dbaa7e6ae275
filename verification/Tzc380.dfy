/** The TZC-380 region allocator: covering an address range with power-of-two regions and subregion masks. */
module Tzc380 {
  import opened Arithmetic
  import opened Wrappers

  /** An enabled region: 2^pow bytes from base, each eighth of which may be switched off. */
  datatype Region = Region(base: nat, pow: nat, disabled: seq<bool>)

  predicate ValidRegion(r: Region) {
    r.pow >= 3 && |r.disabled| == 8
  }

  /** The size of a subregion. */
  function Eighth(pow: nat): (r: nat)
    requires pow >= 3
    ensures r > 0 && 8 * r == Pow2(pow)
  {
    assert Pow2(pow) == 2 * Pow2(pow - 1) == 4 * Pow2(pow - 2);
    Pow2(pow - 3)
  }

  /** Address a is in subregion i of size s. */
  predicate InEighth(base: nat, s: nat, i: nat, a: nat) {
    base + Times(i, s) <= a < base + Times(i + 1, s)
  }

  /** Address a is in an enabled subregion of r. */
  ghost predicate Hits(r: Region, a: nat)
    requires ValidRegion(r)
  {
    exists i :: 0 <= i < 8 && !r.disabled[i] && InEighth(r.base, Eighth(r.pow), i, a)
  }

  ghost predicate AllValid(rs: seq<Region>) {
    forall i :: 0 <= i < |rs| ==> ValidRegion(rs[i])
  }

  ghost predicate PowsUpTo(rs: seq<Region>, w: nat) {
    forall i :: 0 <= i < |rs| ==> rs[i].pow <= w
  }

  /** How many of the regions cover address a. */
  ghost function HitCount(rs: seq<Region>, a: nat): nat
    requires AllValid(rs)
  {
    if rs == [] then 0 else (if Hits(rs[0], a) then 1 else 0) + HitCount(rs[1..], a)
  }

  // ----- Multiples

  lemma EightEighths(pow: nat)
    requires pow >= 3
    ensures Times(8, Eighth(pow)) == Pow2(pow)
  {
  }

  // ----- What the loop programs, as a function

  predicate WholeRegion(address: nat, lsize: nat, pow: nat) {
    Rem(address, Pow2(pow)) == 0 && Rem(address + lsize, Pow2(pow)) == 0
  }

  predicate SubRegions(address: nat, lsize: nat, pow: nat)
    requires pow >= 3
  {
    Rem(address, Eighth(pow)) == 0 && lsize > 2 * Eighth(pow)
  }

  /** The region base below the address. */
  function Floor(address: nat, size: nat): (r: nat)
    requires size > 0
    ensures r <= address < r + size
  {
    DivSplits(address, size);
    Times(Quot(address, size), size)
  }

  /** Subregion i of the region at base is switched on: it lies in (address, end]. */
  predicate Inside(base: nat, s: nat, i: nat, address: nat, end: nat) {
    address < base + Times(i + 1, s) <= end
  }

  function Mask(base: nat, s: nat, address: nat, end: nat): (r: seq<bool>)
    ensures |r| == 8
  {
    seq(8, i requires 0 <= i < 8 => !Inside(base, s, i, address, end))
  }

  /** How many eighths a masked region enables, for an address `j` eighths above its base. */
  function Enabled(s: nat, j: nat, lsize: nat): (k: nat)
    requires s > 0 && j <= 8
    ensures k <= 8 - j && Times(k, s) <= lsize && (k == 8 - j || lsize < Times(k, s) + s)
    decreases 8 - j
  {
    hide Times, Quot, Rem;
    TimesStep(0, s);
    if j == 8 || lsize < s then 0 else
    var k := Enabled(s, j + 1, lsize - s);
    TimesStep(k, s);
    k + 1
  }

  lemma EnabledSome(s: nat, j: nat, lsize: nat)
    requires s > 0 && j < 8 && lsize > 2 * s
    ensures Times(Enabled(s, j, lsize), s) > 0
  {
    hide Times, Quot, Rem;
    TimesOrder(0, Enabled(s, j, lsize), s);
    TimesStep(0, s);
  }

  /** How many eighths the address is above the region base. */
  function Offset(address: nat, pow: nat): (j: nat)
    requires pow >= 3
    ensures j < 8
  {
    hide Times, Quot, Rem;
    var d, s := address - Floor(address, Pow2(pow)), Eighth(pow);
    DivSplits(d, s);
    EightEighths(pow);
    TimesOrder(8, Quot(d, s), s);
    Quot(d, s)
  }

  /** The regions programmed, and the address and size left when the loop stops. */
  datatype Outcome = Outcome(regions: seq<Region>, address: nat, lsize: nat)

  function Cons(r: Region, o: Outcome): Outcome {
    o.(regions := [r] + o.regions)
  }

  lemma WholeFits(address: nat, lsize: nat, m: nat)
    requires m > 0 && lsize > 0 && Rem(address, m) == 0 && Rem(address + lsize, m) == 0
    ensures lsize >= m
  {
    hide Times, Quot, Rem;
    if lsize < m {
      DivSplits(address, m);
      DivUnique(address + lsize, m, Quot(address, m), lsize);
      assert false;
    }
  }

  /** The loop from a given state, w being the address width that `pow` restarts from. */
  function Plan(w: nat, address: nat, lsize: nat, pow: nat): Outcome
    decreases lsize, pow
  {
    hide Times, Quot, Rem;
    if lsize == 0 || pow <= 15 then
      Outcome([], address, lsize)
    else if WholeRegion(address, lsize, pow) then
      WholeFits(address, lsize, Pow2(pow));
      Cons(Region(address, pow, seq(8, _ => false)), Plan(w, address + Pow2(pow), lsize - Pow2(pow), w))
    else if SubRegions(address, lsize, pow) then
      var base, s := Floor(address, Pow2(pow)), Eighth(pow);
      var step := Times(Enabled(s, Offset(address, pow), lsize), s);
      EnabledSome(s, Offset(address, pow), lsize);
      Cons(Region(base, pow, Mask(base, s, address, address + lsize)), Plan(w, address + step, lsize - step, w))
    else
      Plan(w, address, lsize, pow - 1)
  }

  // ----- What one region covers

  /** An aligned address is a whole number of eighths above the region base. */
  lemma OffsetExact(address: nat, pow: nat)
    requires pow >= 3 && Rem(address, Eighth(pow)) == 0
    ensures address == Floor(address, Pow2(pow)) + Times(Offset(address, pow), Eighth(pow))
  {
    var s, m := Eighth(pow), Pow2(pow);
    hide Times, Quot, Rem, Pow2, Eighth;
    var q, t := Quot(address, m), Quot(address, s);
    DivSplits(address, s);
    DivSplits(address, m);
    EightEighths(pow);
    TimesTimes(q, 8, s);
    TimesOrder(Times(q, 8), t, s);
    var d := t - Times(q, 8);
    TimesSum(Times(q, 8), d, s);
    DivUnique(Times(d, s), s, d, 0);
  }

  /** Eighth i is enabled exactly when it is one of the k from j on. */
  lemma InsideRange(base: nat, s: nat, j: nat, lsize: nat, i: nat)
    requires s > 0 && j < 8 && i < 8
    ensures Inside(base, s, i, base + Times(j, s), base + Times(j, s) + lsize) <==> j <= i < j + Enabled(s, j, lsize)
  {
    hide Times, Quot, Rem;
    var k := Enabled(s, j, lsize);
    TimesOrder(j, i + 1, s);
    if j <= i {
      TimesSum(j, i + 1 - j, s);
      TimesOrder(i + 1 - j, k, s);
      TimesOrder(k, i + 1 - j, s);
    }
  }

  lemma EighthOf(base: nat, s: nat, a: nat) returns (i: nat)
    requires s > 0 && base <= a
    ensures InEighth(base, s, i, a)
  {
    hide Times, Quot, Rem;
    i := Quot(a - base, s);
    DivSplits(a - base, s);
    TimesStep(i, s);
  }

  lemma MaskAt(base: nat, s: nat, address: nat, end: nat)
    ensures forall i :: 0 <= i < 8 ==> Mask(base, s, address, end)[i] == !Inside(base, s, i, address, end)
  {
  }

  lemma MaskedHits(base: nat, pow: nat, j: nat, lsize: nat, a: nat)
    requires pow >= 3 && j < 8
    ensures var s := Eighth(pow);
            var r := Region(base, pow, Mask(base, s, base + Times(j, s), base + Times(j, s) + lsize));
            Hits(r, a) <==> base + Times(j, s) <= a < base + Times(j, s) + Times(Enabled(s, j, lsize), s)
  {
    hide Times, Quot, Rem, Pow2, Eighth, Mask, Enabled, Inside;
    var s := Eighth(pow);
    MaskAt(base, s, base + Times(j, s), base + Times(j, s) + lsize);
    var r := Region(base, pow, Mask(base, s, base + Times(j, s), base + Times(j, s) + lsize));
    var k := Enabled(s, j, lsize);
    TimesSum(j, k, s);
    if Hits(r, a) {
      var i :| 0 <= i < 8 && !r.disabled[i] && InEighth(base, s, i, a);
      InsideRange(base, s, j, lsize, i);
      TimesOrder(j, i, s);
      TimesOrder(i + 1, j + k, s);
    }
    if base + Times(j, s) <= a < base + Times(j + k, s) {
      var i := EighthOf(base, s, a);
      TimesOrder(i, j + k, s);
      TimesOrder(j, i + 1, s);
      InsideRange(base, s, j, lsize, i);
      assert !r.disabled[i];
    }
  }

  lemma WholeHits(base: nat, pow: nat, a: nat)
    requires pow >= 3
    ensures Hits(Region(base, pow, seq(8, _ => false)), a) <==> base <= a < base + Pow2(pow)
  {
    hide Times, Pow2, Quot, Rem;
    var r := Region(base, pow, seq(8, _ => false));
    var s := Eighth(pow);
    EightEighths(pow);
    if Hits(r, a) {
      var i :| 0 <= i < 8 && !r.disabled[i] && InEighth(base, s, i, a);
      TimesOrder(i + 1, 8, s);
    }
    if base <= a < base + Pow2(pow) {
      var i := EighthOf(base, s, a);
      TimesOrder(i, 8, s);
      assert !r.disabled[i];
    }
  }

  // ----- What the whole plan covers, for every input

  lemma {:induction false} PlanShape(w: nat, address: nat, lsize: nat, pow: nat)
    ensures var o := Plan(w, address, lsize, pow);
            o.address + o.lsize == address + lsize && address <= o.address
            && AllValid(o.regions) && (pow <= w ==> PowsUpTo(o.regions, w))
    decreases lsize, pow
  {
    hide Times, Quot, Rem, Pow2, Eighth, Mask, Enabled, Floor, Offset;
    if lsize == 0 || pow <= 15 {
    } else if WholeRegion(address, lsize, pow) {
      WholeFits(address, lsize, Pow2(pow));
      PlanShape(w, address + Pow2(pow), lsize - Pow2(pow), w);
    } else if SubRegions(address, lsize, pow) {
      var step := Times(Enabled(Eighth(pow), Offset(address, pow), lsize), Eighth(pow));
      EnabledSome(Eighth(pow), Offset(address, pow), lsize);
      PlanShape(w, address + step, lsize - step, w);
    } else {
      PlanShape(w, address, lsize, pow - 1);
    }
  }

  /** Every address from the start up to where the loop stops is covered by exactly one region, and no other is. */
  lemma {:induction false} PlanCovers(w: nat, address: nat, lsize: nat, pow: nat, a: nat)
    ensures AllValid(Plan(w, address, lsize, pow).regions)
    ensures HitCount(Plan(w, address, lsize, pow).regions, a) ==
            if address <= a < Plan(w, address, lsize, pow).address then 1 else 0
    decreases lsize, pow
  {
    hide Times, Quot, Rem, Pow2, Eighth, Mask, Enabled, Floor, Offset, Hits, AllValid, HitCount;
    PlanShape(w, address, lsize, pow);
    NoHits(a);
    if lsize == 0 || pow <= 15 {
    } else if WholeRegion(address, lsize, pow) {
      WholeFits(address, lsize, Pow2(pow));
      var rest := Plan(w, address + Pow2(pow), lsize - Pow2(pow), w);
      PlanShape(w, address + Pow2(pow), lsize - Pow2(pow), w);
      PlanCovers(w, address + Pow2(pow), lsize - Pow2(pow), w, a);
      WholeHits(address, pow, a);
      CoverMore(Region(address, pow, seq(8, _ => false)), rest, address, address + Pow2(pow), a);
    } else if SubRegions(address, lsize, pow) {
      var base, s, j := Floor(address, Pow2(pow)), Eighth(pow), Offset(address, pow);
      var step := Times(Enabled(s, j, lsize), s);
      EnabledSome(s, j, lsize);
      OffsetExact(address, pow);
      var rest := Plan(w, address + step, lsize - step, w);
      PlanShape(w, address + step, lsize - step, w);
      PlanCovers(w, address + step, lsize - step, w, a);
      MaskedHits(base, pow, j, lsize, a);
      CoverMore(Region(base, pow, Mask(base, s, address, address + lsize)), rest, address, address + step, a);
    } else {
      PlanCovers(w, address, lsize, pow - 1, a);
    }
  }

  lemma NoHits(a: nat)
    ensures AllValid([]) && HitCount([], a) == 0
  {
  }

  /** A region for [lo, mid) in front of regions that cover the rest. */
  lemma CoverMore(r: Region, o: Outcome, lo: nat, mid: nat, a: nat)
    requires ValidRegion(r) && AllValid(o.regions)
    requires lo <= mid <= o.address && (Hits(r, a) <==> lo <= a < mid)
    requires HitCount(o.regions, a) == if mid <= a < o.address then 1 else 0
    ensures AllValid(Cons(r, o).regions)
    ensures HitCount(Cons(r, o).regions, a) == if lo <= a < o.address then 1 else 0
  {
    hide Hits;
    assert ([r] + o.regions)[1..] == o.regions;
  }

  /** A region sits at a multiple of its size and inside the address space, as the controller demands. */
  ghost predicate Placed(r: Region, w: nat) {
    r.pow <= w && Rem(r.base, Pow2(r.pow)) == 0 && r.base + Pow2(r.pow) <= Pow2(w)
  }

  lemma {:induction false} PowDivides(p: nat, w: nat)
    requires p <= w
    ensures Times(Pow2(w - p), Pow2(p)) == Pow2(w)
  {
    if p == w {
      assert Pow2(0) == 1;
      TimesStep(0, Pow2(p));
    } else {
      PowDivides(p, w - 1);
      var n := Pow2(w - 1 - p);
      TimesSum(n, n, Pow2(p));
    }
  }

  /** A multiple of 2^p below 2^w leaves room for 2^p. */
  lemma RoomAbove(q: nat, p: nat, w: nat)
    requires p <= w && Times(q, Pow2(p)) < Pow2(w)
    ensures Times(q, Pow2(p)) + Pow2(p) <= Pow2(w)
  {
    hide Times, Pow2;
    PowDivides(p, w);
    TimesOrder(q, Pow2(w - p), Pow2(p));
  }

  lemma FloorPlaced(address: nat, pow: nat, w: nat)
    requires pow <= w && address < Pow2(w)
    ensures var base := Floor(address, Pow2(pow)); Rem(base, Pow2(pow)) == 0 && base + Pow2(pow) <= Pow2(w)
  {
    hide Times, Quot, Rem, Pow2;
    var q := Quot(address, Pow2(pow));
    DivSplits(address, Pow2(pow));
    DivUnique(Times(q, Pow2(pow)), Pow2(pow), q, 0);
    RoomAbove(q, pow, w);
  }

  lemma FloorAligned(address: nat, m: nat)
    requires m > 0 && Rem(address, m) == 0
    ensures Floor(address, m) == address
  {
    hide Times, Quot, Rem;
    DivSplits(address, m);
  }

  lemma {:induction false} PlanPlaced(w: nat, address: nat, lsize: nat, pow: nat)
    requires pow <= w && address + lsize <= Pow2(w)
    ensures forall i :: 0 <= i < |Plan(w, address, lsize, pow).regions| ==>
                          Placed(Plan(w, address, lsize, pow).regions[i], w)
    decreases lsize, pow
  {
    hide Times, Quot, Rem, Pow2, Eighth, Mask, Enabled, Floor, Offset;
    if lsize == 0 || pow <= 15 {
    } else if WholeRegion(address, lsize, pow) {
      WholeFits(address, lsize, Pow2(pow));
      PlanPlaced(w, address + Pow2(pow), lsize - Pow2(pow), w);
      FloorPlaced(address, pow, w);
      FloorAligned(address, Pow2(pow));
    } else if SubRegions(address, lsize, pow) {
      var step := Times(Enabled(Eighth(pow), Offset(address, pow), lsize), Eighth(pow));
      EnabledSome(Eighth(pow), Offset(address, pow), lsize);
      PlanPlaced(w, address + step, lsize - step, w);
      FloorPlaced(address, pow, w);
    } else {
      PlanPlaced(w, address, lsize, pow - 1);
    }
  }

  // ----- 32 KiB multiples are always covered completely

  predicate Aligned(x: nat) {
    Rem(x, 0x8000) == 0
  }

  lemma {:induction false} PowAligned(pow: nat)
    requires pow >= 15
    ensures Aligned(Pow2(pow))
  {
    hide Aligned;
    if pow == 15 {
      PowValues();
      UnitAligned();
    } else {
      PowAligned(pow - 1);
      AlignedSum(Pow2(pow - 1), Pow2(pow - 1));
    }
  }

  lemma UnitAligned()
    ensures Aligned(0x8000) && Aligned(0)
  {
  }

  lemma AlignedSum(x: nat, y: nat)
    requires Aligned(x) && Aligned(y)
    ensures Aligned(x + y)
  {
  }

  lemma AlignedDiff(x: nat, y: nat)
    requires Aligned(x) && Aligned(y) && y <= x
    ensures Aligned(x - y)
  {
  }

  lemma PowValues()
    ensures Pow2(13) == 0x2000 && Pow2(14) == 0x4000 && Pow2(15) == 0x8000
  {
    assert Pow2(2) == 4;
    assert Pow2(4) == 4 * Pow2(2);
    assert Pow2(6) == 4 * Pow2(4);
    assert Pow2(8) == 4 * Pow2(6);
    assert Pow2(10) == 4 * Pow2(8);
    assert Pow2(12) == 4 * Pow2(10);
    assert Pow2(13) == 2 * Pow2(12);
    assert Pow2(14) == 2 * Pow2(13);
  }

  lemma {:induction false} TimesAligned(k: nat, s: nat)
    requires Aligned(s)
    ensures Aligned(Times(k, s))
  {
    hide Times;
    TimesStep(0, s);
    if k > 0 {
      TimesAligned(k - 1, s);
      TimesStep(k - 1, s);
      AlignedSum(Times(k - 1, s), s);
    }
  }

  lemma SmallEighths()
    ensures Eighth(16) == 0x2000 && Eighth(17) == 0x4000
  {
    PowValues();
  }

  /** A masked region leaves an aligned rest: it ends at its own end, or it takes all that is left. */
  lemma SubRegionsAligned(address: nat, lsize: nat, pow: nat)
    requires pow >= 16 && Aligned(address) && Aligned(lsize) && SubRegions(address, lsize, pow)
    ensures Aligned(Times(Enabled(Eighth(pow), Offset(address, pow), lsize), Eighth(pow)))
  {
    hide Times, Quot, Rem, Pow2, Eighth, Enabled, Offset, Floor;
    var s, j := Eighth(pow), Offset(address, pow);
    var k := Enabled(s, j, lsize);
    SmallEighths();
    if pow >= 18 {
      EighthAligned(pow);
      TimesAligned(k, s);
    } else if k == 8 - j {
      OffsetExact(address, pow);
      EightEighths(pow);
      TimesSum(j, k, s);
      PowAligned(pow);
      FloorIsAligned(address, pow);
      AlignedSum(Floor(address, Pow2(pow)), Pow2(pow));
      AlignedDiff(Floor(address, Pow2(pow)) + Pow2(pow), address);
    } else {
      TakesAll(lsize, k, s);
    }
  }

  lemma EighthAligned(pow: nat)
    requires pow >= 18
    ensures Aligned(Eighth(pow))
  {
    PowAligned(pow - 3);
  }

  lemma FloorIsAligned(address: nat, pow: nat)
    requires pow >= 15
    ensures Aligned(Floor(address, Pow2(pow)))
  {
    hide Times, Pow2, Quot;
    PowAligned(pow);
    TimesAligned(Quot(address, Pow2(pow)), Pow2(pow));
  }

  lemma TakesAll(lsize: nat, k: nat, s: nat)
    requires (s == 0x2000 || s == 0x4000) && Aligned(lsize) && Times(k, s) <= lsize < Times(k, s) + s
    ensures Times(k, s) == lsize
  {
    hide Times;
    TimesConstants(k);
    var q := lsize / 0x8000;
    if s == 0x2000 {
      assert k == 4 * q;
    } else {
      assert k == 2 * q;
    }
  }

  lemma TimesConstants(k: nat)
    ensures Times(k, 0x2000) == 0x2000 * k && Times(k, 0x4000) == 0x4000 * k
  {
  }

  lemma SmallestFits(address: nat, lsize: nat)
    requires Aligned(address) && Aligned(lsize) && lsize > 0
    ensures SubRegions(address, lsize, 16)
  {
    hide Eighth, Rem, Quot, Times;
    SmallEighths();
    Times4Is();
    ModMod(address, 4, 0x2000);
    RemZero();
    MultipleIsLarge(lsize);
  }

  lemma Times4Is()
    ensures Times(4, 0x2000) == 0x8000
  {
  }

  lemma RemZero()
    ensures Rem(0, 0x2000) == 0
  {
  }

  lemma MultipleIsLarge(lsize: nat)
    requires Aligned(lsize) && lsize > 0
    ensures lsize >= 0x8000
  {
  }

  /** For 32 KiB multiples the loop leaves nothing over. */
  lemma {:induction false} PlanCompletes(w: nat, address: nat, lsize: nat, pow: nat)
    requires w >= 16 && pow >= 16 && Aligned(address) && Aligned(lsize)
    ensures Plan(w, address, lsize, pow).lsize == 0
    decreases lsize, pow
  {
    hide Times, Quot, Rem, Pow2, Eighth, Mask, Enabled, Floor, Offset, SubRegions, Aligned;
    if lsize == 0 {
    } else if WholeRegion(address, lsize, pow) {
      WholeFits(address, lsize, Pow2(pow));
      PowAligned(pow);
      AlignedSum(address, Pow2(pow));
      AlignedDiff(lsize, Pow2(pow));
      PlanCompletes(w, address + Pow2(pow), lsize - Pow2(pow), w);
    } else if SubRegions(address, lsize, pow) {
      var step := Times(Enabled(Eighth(pow), Offset(address, pow), lsize), Eighth(pow));
      EnabledSubs(address, lsize, pow);
      SubRegionsAligned(address, lsize, pow);
      AlignedSum(address, step);
      AlignedDiff(lsize, step);
      PlanCompletes(w, address + step, lsize - step, w);
    } else {
      SmallestFits(address, lsize);
      PlanCompletes(w, address, lsize, pow - 1);
    }
  }

  lemma EnabledSubs(address: nat, lsize: nat, pow: nat)
    requires pow >= 3 && SubRegions(address, lsize, pow)
    ensures 0 < Times(Enabled(Eighth(pow), Offset(address, pow), lsize), Eighth(pow)) <= lsize
  {
    hide Times, Offset, Eighth, Enabled;
    EnabledSome(Eighth(pow), Offset(address, pow), lsize);
  }

  // ----- The driver

  /** A 32-bit word, lowest bit first. */
  type Word = w: seq<bool> | |w| == 32 witness seq(32, _ => false)

  function OrBits(a: seq<bool>, b: seq<bool>): (r: seq<bool>)
    requires |a| == |b|
    ensures |r| == |a|
  {
    seq(|a|, i requires 0 <= i < |a| => a[i] || b[i])
  }

  /** The k lowest bits of a number. */
  function Bits(n: int, k: nat): (r: seq<bool>)
    ensures |r| == k
    decreases k
  {
    if k == 0 then [] else [n % 2 == 1] + Bits(n / 2, k - 1)
  }

  function SixBits(n: int): (r: seq<bool>)
    ensures |r| == 6
  {
    Bits(n, 6)
  }

  function Value(b: seq<bool>): nat {
    if b == [] then 0 else (if b[0] then 1 else 0) + 2 * Value(b[1..])
  }

  /** The size field, bits 6 to 1. */
  function SizeWord(n: int): Word {
    seq(32, i requires 0 <= i < 32 => 1 <= i < 7 && SixBits(n)[i - 1])
  }

  /** The enable bit, bit 0. */
  function EnableWord(): Word {
    seq(32, i requires 0 <= i < 32 => i == 0)
  }

  /** The subregion disable bits, bits 15 to 8. */
  function MaskWord(disabled: seq<bool>): Word {
    seq(32, i requires 0 <= i < 32 => 8 <= i < 16 && i - 8 < |disabled| && disabled[i - 8])
  }

  /** The permissions, bits 31 to 28. */
  function Permissions(attr: Word): Word {
    seq(32, i requires 0 <= i < 32 => i >= 28 && attr[i])
  }

  /** The attribute word of a region: its fields and the caller's attributes, all ored together. */
  function AttrWord(r: Region, attr: Word): Word {
    OrBits(OrBits(OrBits(SizeWord(r.pow - 1), EnableWord()), MaskWord(r.disabled)), attr)
  }

  lemma NoMask(address: nat, pow: nat, attr: Word)
    ensures OrBits(OrBits(SizeWord(pow - 1), EnableWord()), attr)
            == AttrWord(Region(address, pow, seq(8, _ => false)), attr)
  {
  }

  /** What has been written to a region's registers. */
  datatype Setup = Setup(base: nat, word: Word)

  function Written(r: Region, attr: Word): Setup {
    Setup(r.base, AttrWord(r, attr))
  }

  /** The region the controller reads from its registers. */
  function Decode(s: Setup): (r: Region)
    ensures |r.disabled| == 8
  {
    Region(s.base, Value(s.word[1..7]) + 1, s.word[8..16])
  }

  predicate Within(a: seq<bool>, b: seq<bool>) {
    |a| == |b| && forall i :: 0 <= i < |a| && a[i] ==> b[i]
  }

  /** The attributes set no bit of the size and disable fields that the region does not set itself. */
  predicate Harmless(r: Region, attr: Word) {
    Within(attr[1..7], SixBits(r.pow - 1)) && Within(attr[8..16], r.disabled)
  }

  ghost predicate AllHarmless(rs: seq<Region>, attr: Word) {
    forall i :: 0 <= i < |rs| ==> Harmless(rs[i], attr)
  }

  predicate Clear(bits: seq<bool>) {
    forall i :: 0 <= i < |bits| ==> !bits[i]
  }

  predicate SparesSize(attr: Word) {
    Clear(attr[1..7])
  }

  predicate SparesDisables(attr: Word) {
    Clear(attr[8..16])
  }

  lemma {:induction false} ValueOfBits(n: nat, k: nat)
    requires n < Pow2(k)
    ensures Value(Bits(n, k)) == n
    decreases k
  {
    if k > 0 {
      ValueOfBits(n / 2, k - 1);
      assert Bits(n, k)[1..] == Bits(n / 2, k - 1);
    }
  }

  lemma ValueOfSix(n: nat)
    requires n < 64
    ensures Value(SixBits(n)) == n
  {
    assert Pow2(6) == 64 by {
      assert Pow2(3) == 8;
    }
    ValueOfBits(n, 6);
  }

  lemma {:induction false} ValueInjective(a: seq<bool>, b: seq<bool>)
    requires |a| == |b| && Value(a) == Value(b)
    ensures a == b
  {
    if a != [] {
      ValueInjective(a[1..], b[1..]);
      assert a == [a[0]] + a[1..] && b == [b[0]] + b[1..];
    }
  }

  lemma OrWithin(a: seq<bool>, b: seq<bool>)
    requires |a| == |b|
    ensures OrBits(b, a) == b <==> Within(a, b)
  {
    if Within(a, b) {
      assert OrBits(b, a) == b;
    } else {
      var i :| 0 <= i < |a| && a[i] && !b[i];
      assert OrBits(b, a)[i] != b[i];
    }
  }

  lemma WordBit(r: Region, attr: Word, i: nat)
    requires i < 32 && |r.disabled| == 8
    ensures 1 <= i < 7 ==> AttrWord(r, attr)[i] == (SixBits(r.pow - 1)[i - 1] || attr[i])
    ensures 8 <= i < 16 ==> AttrWord(r, attr)[i] == (r.disabled[i - 8] || attr[i])
    ensures i == 0 ==> AttrWord(r, attr)[i]
    ensures i >= 28 ==> AttrWord(r, attr)[i] == attr[i]
  {
    hide SixBits;
    var size, mask := SizeWord(r.pow - 1), MaskWord(r.disabled);
    assert OrBits(size, EnableWord())[i] == (size[i] || EnableWord()[i]);
    assert OrBits(OrBits(size, EnableWord()), mask)[i] == (size[i] || EnableWord()[i] || mask[i]);
  }

  lemma Fields(r: Region, attr: Word)
    requires |r.disabled| == 8
    ensures AttrWord(r, attr)[0]
    ensures AttrWord(r, attr)[1..7] == OrBits(SixBits(r.pow - 1), attr[1..7])
    ensures AttrWord(r, attr)[8..16] == OrBits(r.disabled, attr[8..16])
    ensures AttrWord(r, attr)[28..] == attr[28..] && Permissions(AttrWord(r, attr)) == Permissions(attr)
  {
    hide SixBits, AttrWord;
    var w := AttrWord(r, attr);
    WordBit(r, attr, 0);
    forall i | 0 <= i < 6
      ensures w[1..7][i] == OrBits(SixBits(r.pow - 1), attr[1..7])[i]
    {
      WordBit(r, attr, i + 1);
    }
    forall i | 0 <= i < 8
      ensures w[8..16][i] == OrBits(r.disabled, attr[8..16])[i]
    {
      WordBit(r, attr, i + 8);
    }
    forall i | 28 <= i < 32
      ensures w[i] == attr[i]
    {
      WordBit(r, attr, i);
    }
  }

  lemma HalvedQuotient(n: nat, m: nat)
    requires m > 0
    ensures n / 2 / m == n / (2 * m)
  {
    hide Times;
    var q, r := n / 2 / m, n / 2 % m;
    DivSplits(n / 2, m);
    TimesTwice(q, m);
    DivUnique(n, 2 * m, q, 2 * r + n % 2);
  }

  lemma TimesTwice(q: nat, m: nat)
    ensures Times(q, 2 * m) == 2 * Times(q, m)
  {
  }

  lemma {:induction false} BitOf(n: nat, k: nat, i: nat)
    requires i < k
    ensures Bits(n, k)[i] <==> n / Pow2(i) % 2 == 1
    decreases k
  {
    if i > 0 {
      BitOf(n / 2, k - 1, i - 1);
      HalvedQuotient(n, Pow2(i - 1));
    }
  }

  /** Where the attributes leave it clear, bit i of the word, from 1 to 6, is bit i - 1 of the size less one. */
  lemma SizeField(r: Region, attr: Word, i: nat)
    requires ValidRegion(r) && 1 <= i <= 6 && !attr[i]
    ensures AttrWord(r, attr)[i] <==> (r.pow - 1) / Pow2(i - 1) % 2 == 1
  {
    hide Bits, AttrWord;
    WordBit(r, attr, i);
    BitOf(r.pow - 1, 6, i - 1);
  }

  /** The controller reads back the region meant exactly when the attributes leave its fields as they are. */
  lemma DecodesAsMeant(r: Region, attr: Word)
    requires ValidRegion(r) && r.pow <= 64
    ensures Decode(Written(r, attr)) == r <==> Harmless(r, attr)
  {
    hide SixBits, AttrWord, Value, OrBits, Within;
    Fields(r, attr);
    ValueOfSix(r.pow - 1);
    OrWithin(attr[1..7], SixBits(r.pow - 1));
    OrWithin(attr[8..16], r.disabled);
    if Decode(Written(r, attr)) == r {
      ValueInjective(OrBits(SixBits(r.pow - 1), attr[1..7]), SixBits(r.pow - 1));
    }
  }

  lemma SparingIsHarmless(rs: seq<Region>, attr: Word)
    requires AllValid(rs) && SparesSize(attr) && SparesDisables(attr)
    ensures AllHarmless(rs, attr)
  {
    hide SixBits;
  }

  /** Consecutive registers from `first` on hold the given regions; those of region 0 cannot be written. */
  ghost function Program(regs: map<nat, Setup>, first: nat, rs: seq<Region>, attr: Word): map<nat, Setup>
    decreases |rs|
  {
    if rs == [] then regs
    else Program(if first == 0 then regs else regs[first := Written(rs[0], attr)], first + 1, rs[1..], attr)
  }

  lemma {:induction false} ProgramNext(regs: map<nat, Setup>, first: nat, rs: seq<Region>, r: Region, attr: Word)
    ensures var before := Program(regs, first, rs, attr);
            Program(regs, first, rs + [r], attr) ==
            if first + |rs| == 0 then before else before[first + |rs| := Written(r, attr)]
    decreases |rs|
  {
    hide Written;
    if rs != [] {
      ProgramNext(if first == 0 then regs else regs[first := Written(rs[0], attr)], first + 1, rs[1..], r, attr);
      assert (rs + [r])[1..] == rs[1..] + [r];
    } else {
      assert [r][1..] == [];
      assert Program(regs, first, [r], attr) ==
          Program(if first == 0 then regs else regs[first := Written(r, attr)], first + 1, [], attr);
    }
  }

  lemma {:induction false} ProgramAt(regs: map<nat, Setup>, first: nat, rs: seq<Region>, attr: Word, n: nat)
    requires first > 0
    ensures var after := Program(regs, first, rs, attr);
            if first <= n < first + |rs| then n in after && after[n] == Written(rs[n - first], attr)
            else (n in after <==> n in regs) && (n in regs ==> after[n] == regs[n])
    decreases |rs|
  {
    hide Written;
    if rs != [] {
      ProgramAt(regs[first := Written(rs[0], attr)], first + 1, rs[1..], attr, n);
    }
  }

  // ----- What the registers protect

  /** Registers first up to next are written and enabled, with the given permissions. */
  ghost predicate AllSet(regs: map<nat, Setup>, first: nat, next: nat, attr: Word) {
    first <= next && forall n :: first <= n < next ==>
                                   n in regs && regs[n].word[0] && regs[n].word[28..] == attr[28..]
  }

  ghost predicate AllPresent(regs: map<nat, Setup>, first: nat, next: nat) {
    first <= next && forall n :: first <= n < next ==> n in regs
  }

  /** The regions the controller reads from registers first up to next. */
  ghost function Held(regs: map<nat, Setup>, first: nat, next: nat): (rs: seq<Region>)
    requires AllPresent(regs, first, next)
    ensures |rs| == next - first && forall i :: 0 <= i < |rs| ==> rs[i] == Decode(regs[first + i])
  {
    seq(next - first, i requires 0 <= i < next - first => Decode(regs[first + i]))
  }

  /** The regions read from registers first up to next cover exactly [lo, hi), without overlap. */
  ghost predicate Covers(regs: map<nat, Setup>, first: nat, next: nat, lo: nat, hi: nat) {
    && AllPresent(regs, first, next)
    && ExactCover(Held(regs, first, next), lo, hi) && Disjoint(Held(regs, first, next))
  }

  /** The registers from first up to next are set up with the given permissions; no other one has changed. */
  ghost predicate OnlySet(before: map<nat, Setup>, after: map<nat, Setup>, first: nat, next: nat, attr: Word) {
    && AllSet(after, first, next, attr)
    && forall n :: !(first <= n < next) ==> (n in after <==> n in before) && (n in before ==> after[n] == before[n])
  }

  lemma WrittenIs(r: Region, attr: Word)
    requires |r.disabled| == 8
    ensures Written(r, attr) == Setup(r.base, AttrWord(r, attr))
    ensures Written(r, attr).word[0] && Written(r, attr).word[28..] == attr[28..]
    ensures Permissions(Written(r, attr).word) == Permissions(attr)
  {
    hide AttrWord, Permissions;
    Fields(r, attr);
  }

  lemma ProgramSets(regs: map<nat, Setup>, first: nat, rs: seq<Region>, attr: Word)
    requires first > 0 && AllValid(rs)
    ensures var after := Program(regs, first, rs, attr);
            && OnlySet(regs, after, first, first + |rs|, attr) && AllPresent(after, first, first + |rs|)
            && forall i :: 0 <= i < |rs| ==> Held(after, first, first + |rs|)[i] == Decode(Written(rs[i], attr))
  {
    hide Program, Written, Permissions, Decode;
    var after := Program(regs, first, rs, attr);
    forall n: nat
      ensures if first <= n < first + |rs| then n in after && after[n] == Written(rs[n - first], attr)
              else (n in after <==> n in regs) && (n in regs ==> after[n] == regs[n])
    {
      ProgramAt(regs, first, rs, attr, n);
    }
    forall n | first <= n < first + |rs|
      ensures after[n].word[0] && after[n].word[28..] == attr[28..]
    {
      WrittenIs(rs[n - first], attr);
    }
  }

  /** The controller reads back the regions planned exactly when the attributes leave all their fields alone. */
  lemma HoldsPlan(regs: map<nat, Setup>, first: nat, rs: seq<Region>, attr: Word)
    requires first > 0 && AllValid(rs) && PowsUpTo(rs, 64)
    ensures var after := Program(regs, first, rs, attr);
            AllPresent(after, first, first + |rs|)
            && (Held(after, first, first + |rs|) == rs <==> AllHarmless(rs, attr))
  {
    hide Program, Written, Decode, Harmless;
    ProgramSets(regs, first, rs, attr);
    forall i | 0 <= i < |rs|
      ensures Decode(Written(rs[i], attr)) == rs[i] <==> Harmless(rs[i], attr)
    {
      DecodesAsMeant(rs[i], attr);
    }
  }

  // ----- Attributes that switch subregions off

  /** The same region with more of its subregions switched off. */
  predicate Dimmed(r: Region, d: Region) {
    d.base == r.base && d.pow == r.pow && Within(r.disabled, d.disabled)
  }

  lemma OnlyDims(r: Region, attr: Word)
    requires ValidRegion(r) && r.pow <= 64 && SparesSize(attr)
    ensures Dimmed(r, Decode(Written(r, attr)))
  {
    hide SixBits, AttrWord, Value;
    Fields(r, attr);
    ValueOfSix(r.pow - 1);
    assert OrBits(SixBits(r.pow - 1), attr[1..7]) == SixBits(r.pow - 1);
  }

  lemma DimmedHits(r: Region, d: Region, a: nat)
    requires ValidRegion(r) && ValidRegion(d) && Dimmed(r, d) && Hits(d, a)
    ensures Hits(r, a)
  {
    hide InEighth, Eighth;
  }

  /** Two subregions of a region have no address in common. */
  lemma EighthUnique(base: nat, s: nat, i: nat, j: nat, a: nat)
    requires s > 0 && InEighth(base, s, i, a) && InEighth(base, s, j, a)
    ensures i == j
  {
    hide Times;
    TimesOrder(i + 1, j, s);
    TimesOrder(j + 1, i, s);
  }

  /** A region that has lost a subregion has lost an address. */
  lemma DimmedLoses(r: Region, d: Region) returns (a: nat)
    requires ValidRegion(r) && ValidRegion(d) && Dimmed(r, d) && d != r
    ensures Hits(r, a) && !Hits(d, a)
  {
    hide Eighth, Times;
    assert d.disabled != r.disabled;
    var i: nat :| i < 8 && d.disabled[i] && !r.disabled[i];
    var s := Eighth(r.pow);
    a := r.base + Times(i, s);
    TimesStep(i, s);
    assert InEighth(r.base, s, i, a);
    forall j: nat | j < 8 && InEighth(d.base, s, j, a)
      ensures d.disabled[j]
    {
      EighthUnique(r.base, s, i, j, a);
    }
  }

  ghost predicate AllDimmed(rs: seq<Region>, ds: seq<Region>) {
    |rs| == |ds| && AllValid(rs) && AllValid(ds) && forall i :: 0 <= i < |rs| ==> Dimmed(rs[i], ds[i])
  }

  lemma {:induction false} FewerHits(rs: seq<Region>, ds: seq<Region>, k: int, a: nat)
    requires AllDimmed(rs, ds) && k < |rs| && (k >= 0 ==> Hits(rs[k], a) && !Hits(ds[k], a))
    ensures HitCount(ds, a) <= HitCount(rs, a) - if k >= 0 then 1 else 0
    decreases |rs|
  {
    hide Hits, Dimmed, ValidRegion;
    if rs != [] {
      FewerHits(rs[1..], ds[1..], k - 1, a);
      if Hits(ds[0], a) {
        DimmedHits(rs[0], ds[0], a);
      }
    }
  }

  /** Whatever an exact cover loses, it is no longer one. */
  lemma DimmedCover(rs: seq<Region>, ds: seq<Region>, lo: nat, hi: nat)
    requires AllDimmed(rs, ds) && ExactCover(rs, lo, hi) && ds != rs
    ensures !ExactCover(ds, lo, hi)
  {
    hide Hits, HitCount, Dimmed, ValidRegion;
    var k :| 0 <= k < |rs| && ds[k] != rs[k];
    var a := DimmedLoses(rs[k], ds[k]);
    FewerHits(rs, ds, k, a);
    HitAt(rs, k, a);
    assert HitCount(ds, a) != HitCount(rs, a);
  }

  /**
   For attributes that leave the size field alone, the registers protect the requested range exactly when no
   subregion the plan switches on has its disable bit set.
   */
  lemma ProgramProtects(regs: map<nat, Setup>, first: nat, w: nat, addr: nat, size: nat, attr: Word)
    requires first > 0 && w <= 64 && Plan(w, addr, size, w).lsize == 0
    ensures var rs := Plan(w, addr, size, w).regions;
            var after := Program(regs, first, rs, attr);
            && OnlySet(regs, after, first, first + |rs|, attr)
            && (AllHarmless(rs, attr) ==> Covers(after, first, first + |rs|, addr, addr + size))
            && (SparesSize(attr) && SparesDisables(attr) ==> AllHarmless(rs, attr))
            && (SparesSize(attr) && Covers(after, first, first + |rs|, addr, addr + size) ==> AllHarmless(rs, attr))
  {
    hide Plan, ExactCover, Disjoint, Program, AllHarmless, Written, Decode, OnlySet, Dimmed, SparesSize, SparesDisables;
    var rs := Plan(w, addr, size, w).regions;
    var after := Program(regs, first, rs, attr);
    PlanShape(w, addr, size, w);
    CoversWhenDone(w, addr, size);
    ProgramSets(regs, first, rs, attr);
    HoldsPlan(regs, first, rs, attr);
    if SparesSize(attr) && SparesDisables(attr) {
      SparingIsHarmless(rs, attr);
    }
    if SparesSize(attr) && !AllHarmless(rs, attr) {
      var ds := Held(after, first, first + |rs|);
      forall i | 0 <= i < |rs|
        ensures Dimmed(rs[i], ds[i]) && ValidRegion(ds[i])
      {
        OnlyDims(rs[i], attr);
        DimmedValid(rs[i], ds[i]);
      }
      DimmedCover(rs, ds, addr, addr + size);
    }
  }

  lemma DimmedValid(r: Region, d: Region)
    requires ValidRegion(r) && Dimmed(r, d)
    ensures ValidRegion(d)
  {
  }

  /** An attribute word that sets every disable bit leaves no request protected. */
  lemma AllDisabled(regs: map<nat, Setup>, first: nat, w: nat, addr: nat, size: nat, attr: Word)
    requires first > 0 && w <= 64 && Plan(w, addr, size, w).lsize == 0 && size > 0
    requires SparesSize(attr) && attr[8..16] == seq(8, _ => true)
    ensures var rs := Plan(w, addr, size, w).regions;
            !Covers(Program(regs, first, rs, attr), first, first + |rs|, addr, addr + size)
  {
    hide Plan, HitCount, Program, Covers, SparesSize, OnlySet, AllHarmless;
    var rs := Plan(w, addr, size, w).regions;
    CoversWhenDone(w, addr, size);
    ProgramProtects(regs, first, w, addr, size, attr);
    var k := SomeHit(rs, addr);
    HitEnabled(rs, k, addr, attr);
  }

  lemma HitEnabled(rs: seq<Region>, k: nat, a: nat, attr: Word)
    requires k < |rs| && AllValid(rs) && Hits(rs[k], a) && attr[8..16] == seq(8, _ => true)
    ensures !AllHarmless(rs, attr)
  {
    hide InEighth, SixBits;
    var i :| 0 <= i < 8 && !rs[k].disabled[i];
    assert attr[8..16][i];
    assert !Harmless(rs[k], attr);
  }

  lemma {:induction false} SomeHit(rs: seq<Region>, a: nat) returns (k: nat)
    requires AllValid(rs) && HitCount(rs, a) > 0
    ensures k < |rs| && Hits(rs[k], a)
    decreases |rs|
  {
    hide Hits;
    if Hits(rs[0], a) {
      k := 0;
    } else {
      k := SomeHit(rs[1..], a);
      k := k + 1;
    }
  }

  /** The loop over the eighths of a region, advancing past those it switches on. */
  method CoverEighths(base: nat, s: nat, ghost j: nat, address0: nat, lsize0: nat)
      returns (mask: seq<bool>, address: nat, lsize: nat)
    requires s > 0 && j < 8 && address0 == base + Times(j, s)
    ensures mask == Mask(base, s, address0, address0 + lsize0)
    ensures address == address0 + Times(Enabled(s, j, lsize0), s) && lsize == lsize0 - Times(Enabled(s, j, lsize0), s)
  {
    hide Times, Enabled;
    ghost var k := Enabled(s, j, lsize0);
    mask, address, lsize := [], address0, lsize0;
    ghost var c := 0;
    TimesStep(0, s);
    for i := 0 to 8
      invariant c == if i <= j then 0 else if i - j <= k then i - j else k
      invariant address == address0 + Times(c, s) && lsize == lsize0 - Times(c, s)
      invariant |mask| == i && forall n :: 0 <= n < i ==> mask[n] == !Inside(base, s, n, address0, address0 + lsize0)
    {
      InsideRange(base, s, j, lsize0, i);
      TimesSum(j, c, s);
      TimesStep(i, s);
      TimesStep(c, s);
      TimesOrder(i + 1, j + c, s);
      var area := Times(i + 1, s);
      if base + area <= address || base + area > address + lsize {
        mask := mask + [true];
      } else {
        mask := mask + [false];
        address := address + s;
        lsize := lsize - s;
        c := c + 1;
      }
    }
  }

  /** The regions already programmed, followed by those still to come, are the whole plan. */
  ghost predicate Progress(w: nat, addr: nat, size: nat, done: seq<Region>, address: nat, lsize: nat, pow: nat) {
    var o, rest := Plan(w, addr, size, w), Plan(w, address, lsize, pow);
    o.regions == done + rest.regions && o.address == rest.address && o.lsize == rest.lsize
  }

  lemma ProgressStarts(w: nat, addr: nat, size: nat)
    ensures Progress(w, addr, size, [], addr, size, w)
  {
  }

  lemma ProgressEnds(w: nat, addr: nat, size: nat, done: seq<Region>, address: nat, lsize: nat, pow: nat)
    requires Progress(w, addr, size, done, address, lsize, pow) && (lsize == 0 || pow <= 15)
    ensures Plan(w, addr, size, w) == Outcome(done, address, lsize)
  {
    hide Times, Quot, Rem, Pow2, Eighth;
    assert done + [] == done;
  }

  lemma ProgressMore(w: nat, addr: nat, size: nat, done: seq<Region>, address: nat, lsize: nat, pow: nat)
    requires Progress(w, addr, size, done, address, lsize, pow) && lsize != 0 && pow > 15
    ensures WholeRegion(address, lsize, pow) ==>
              lsize >= Pow2(pow)
              && Progress(w, addr, size, done + [Region(address, pow, seq(8, _ => false))],
                          address + Pow2(pow), lsize - Pow2(pow), w)
    ensures !WholeRegion(address, lsize, pow) && SubRegions(address, lsize, pow) ==>
              var base, s := Floor(address, Pow2(pow)), Eighth(pow);
              var step := Times(Enabled(s, Offset(address, pow), lsize), s);
              0 < step <= lsize
              && Progress(w, addr, size, done + [Region(base, pow, Mask(base, s, address, address + lsize))],
                          address + step, lsize - step, w)
    ensures !WholeRegion(address, lsize, pow) && !SubRegions(address, lsize, pow) ==>
              Progress(w, addr, size, done, address, lsize, pow - 1)
  {
    hide Times, Quot, Rem, Pow2, Eighth, Enabled, Mask, Floor, Offset, SubRegions, WholeRegion;
    if WholeRegion(address, lsize, pow) {
      WholeFitsHere(address, lsize, pow);
      var r := Region(address, pow, seq(8, _ => false));
      var rest := Plan(w, address + Pow2(pow), lsize - Pow2(pow), w).regions;
      assert done + ([r] + rest) == done + [r] + rest;
    } else if SubRegions(address, lsize, pow) {
      EnabledSubs(address, lsize, pow);
      var base, s := Floor(address, Pow2(pow)), Eighth(pow);
      var step := Times(Enabled(s, Offset(address, pow), lsize), s);
      var r := Region(base, pow, Mask(base, s, address, address + lsize));
      var rest := Plan(w, address + step, lsize - step, w).regions;
      assert done + ([r] + rest) == done + [r] + rest;
    }
  }

  lemma WholeFitsHere(address: nat, lsize: nat, pow: nat)
    requires WholeRegion(address, lsize, pow) && lsize > 0
    ensures lsize >= Pow2(pow)
  {
    WholeFits(address, lsize, Pow2(pow));
  }

  class Controller {
    const addrWidth: nat
    const numRegions: nat
    var regs: map<nat, Setup>
    var attr0: Word

    constructor (addrWidth: nat, numRegions: nat)
      ensures this.addrWidth == addrWidth && this.numRegions == numRegions && regs == map[]
    {
      this.addrWidth, this.numRegions, regs, attr0 := addrWidth, numRegions, map[], seq(32, _ => false);
    }

    /** Writes one region's registers.  Of region 0 only the permissions can be set; false is a failed assertion. */
    method ConfigureRegion(n: nat, base: nat, word: Word) returns (ok: bool)
      modifies this
      ensures ok <==> n < numRegions
      ensures regs == if ok && n != 0 then old(regs)[n := Setup(base, word)] else old(regs)
      ensures attr0 == if ok && n == 0 then Permissions(word) else old(attr0)
      ensures ok && n == 0 ==> attr0[28..] == word[28..] && forall i :: 0 <= i < 28 ==> !attr0[i]
    {
      if n >= numRegions {
        return false;
      }
      if n != 0 {
        regs := regs[n := Setup(base, word)];
      } else {
        attr0 := Permissions(word);
      }
      return true;
    }

    /**
     Covers [addr, addr + size).  None is a failed assertion: the regions ran out or, at the end, something was left
     over.  Otherwise the registers hold the plan and the next free region is returned.
     */
    method AutoConfigure(addr: nat, size: nat, attr: Word, region: nat) returns (next: Option<nat>)
      requires addrWidth <= 63 && numRegions <= 16 && addr + size < TWO64
      modifies this
      ensures var o := Plan(addrWidth, addr, size, addrWidth);
              && (next.Some? <==> o.lsize == 0 && (o.regions == [] || region + |o.regions| <= numRegions))
              && (next.Some? ==>
                    next.value == region + |o.regions| && regs == Program(old(regs), region, o.regions, attr))
      ensures next.Some? && region > 0 ==>
                && OnlySet(old(regs), regs, region, next.value, attr)
                && (SparesSize(attr) && SparesDisables(attr) ==> Covers(regs, region, next.value, addr, addr + size))
                && (SparesSize(attr) ==>
                      (Covers(regs, region, next.value, addr, addr + size) <==>
                       AllHarmless(Plan(addrWidth, addr, size, addrWidth).regions, attr)))
      ensures var rs := Plan(addrWidth, addr, size, addrWidth).regions;
              && (addrWidth >= 16 && Aligned(addr) && Aligned(size) && region + |rs| <= numRegions ==> next.Some?)
              && (next.Some? ==> attr0 == if region == 0 && rs != [] then Permissions(attr) else old(attr0))
    {
      hide Written, AttrWord, OrBits, Permissions, Covers, OnlySet, AllHarmless, SparesSize, SparesDisables;
      hide Times, Quot, Rem, Pow2, Eighth, Enabled, Mask, Floor, Offset, Progress, Plan, SubRegions, WholeRegion;
      var lregion: nat, address: nat, lsize: nat, pow: nat := region, addr, size, addrWidth;
      ghost var done: seq<Region> := [];
      ProgressStarts(addrWidth, addr, size);
      while lsize != 0 && pow > 15
        invariant Progress(addrWidth, addr, size, done, address, lsize, pow)
        invariant lregion == region + |done| && (done == [] || lregion <= numRegions)
        invariant regs == Program(old(regs), region, done, attr)
        invariant attr0 == if region == 0 && done != [] then Permissions(attr) else old(attr0)
        decreases lsize, pow
      {
        ProgressMore(addrWidth, addr, size, done, address, lsize, pow);
        if WholeRegion(address, lsize, pow) {
          var r := Region(address, pow, seq(8, _ => false));
          ProgramNext(old(regs), region, done, r, attr);
          NoMask(address, pow, attr);
          WrittenIs(r, attr);
          var ok := ConfigureRegion(lregion, address, OrBits(OrBits(SizeWord(pow - 1), EnableWord()), attr));
          done := done + [r];
          if !ok {
            TooMany(addrWidth, addr, size, done, address + Pow2(pow), lsize - Pow2(pow), addrWidth);
            return None;
          }
          lregion := lregion + 1;
          address := address + Pow2(pow);
          lsize := lsize - Pow2(pow);
          pow := addrWidth;
        } else if SubRegions(address, lsize, pow) {
          var base := Floor(address, Pow2(pow));
          AlignedOffset(address, lsize, pow);
          ghost var j := Offset(address, pow);
          var mask;
          mask, address, lsize := CoverEighths(base, Eighth(pow), j, address, lsize);
          var r := Region(base, pow, mask);
          ProgramNext(old(regs), region, done, r, attr);
          WrittenIs(r, attr);
          var ok := ConfigureRegion(lregion, base, AttrWord(r, attr));
          done := done + [r];
          if !ok {
            TooMany(addrWidth, addr, size, done, address, lsize, addrWidth);
            return None;
          }
          lregion := lregion + 1;
          pow := addrWidth;
        } else {
          pow := pow - 1;
        }
      }
      ProgressEnds(addrWidth, addr, size, done, address, lsize, pow);
      if addrWidth >= 16 && Aligned(addr) && Aligned(size) {
        PlanCompletes(addrWidth, addr, size, addrWidth);
      }
      if lsize != 0 {
        return None;
      }
      if region > 0 {
        ProgramProtects(old(regs), region, addrWidth, addr, size, attr);
      }
      return Some(lregion);
    }
  }

  lemma TooMany(w: nat, addr: nat, size: nat, done: seq<Region>, address: nat, lsize: nat, pow: nat)
    requires Progress(w, addr, size, done, address, lsize, pow)
    ensures |Plan(w, addr, size, w).regions| >= |done|
  {
    hide Plan;
  }

  lemma AlignedOffset(address: nat, lsize: nat, pow: nat)
    requires pow >= 3 && SubRegions(address, lsize, pow)
    ensures address == Floor(address, Pow2(pow)) + Times(Offset(address, pow), Eighth(pow))
  {
    hide Times, Quot, Rem, Pow2, Eighth, Floor, Offset;
    OffsetExact(address, pow);
  }

  lemma {:induction false} HitAt(rs: seq<Region>, i: nat, a: nat)
    requires i < |rs| && AllValid(rs) && Hits(rs[i], a)
    ensures HitCount(rs, a) >= 1
    decreases |rs|
  {
    hide Hits;
    if i > 0 {
      HitAt(rs[1..], i - 1, a);
    }
  }

  lemma {:induction false} HitTwice(rs: seq<Region>, i: nat, j: nat, a: nat)
    requires i < j < |rs| && AllValid(rs) && Hits(rs[i], a) && Hits(rs[j], a)
    ensures HitCount(rs, a) >= 2
    decreases |rs|
  {
    hide Hits;
    if i > 0 {
      HitTwice(rs[1..], i - 1, j - 1, a);
    } else {
      HitAt(rs[1..], j - 1, a);
    }
  }

  /** Each address of [lo, hi) is covered exactly once, every other not at all. */
  ghost predicate ExactCover(rs: seq<Region>, lo: nat, hi: nat) {
    AllValid(rs) && forall a: nat :: HitCount(rs, a) == if lo <= a < hi then 1 else 0
  }

  /** No address is in enabled subregions of two regions. */
  ghost predicate Disjoint(rs: seq<Region>) {
    AllValid(rs) && forall i, j, a: nat :: 0 <= i < j < |rs| ==> !(Hits(rs[i], a) && Hits(rs[j], a))
  }

  /** Whatever the request, a plan that leaves nothing over covers it exactly. */
  lemma CoversWhenDone(w: nat, addr: nat, size: nat)
    requires Plan(w, addr, size, w).lsize == 0
    ensures var o := Plan(w, addr, size, w);
            o.address == addr + size && ExactCover(o.regions, addr, addr + size) && Disjoint(o.regions)
  {
    hide Plan, Hits, HitCount, Pow2;
    var o := Plan(w, addr, size, w);
    PlanShape(w, addr, size, w);
    forall a: nat ensures HitCount(o.regions, a) == if addr <= a < addr + size then 1 else 0 {
      PlanCovers(w, addr, size, w, a);
    }
    forall i, j, a: nat | 0 <= i < j < |o.regions| ensures !(Hits(o.regions[i], a) && Hits(o.regions[j], a)) {
      if Hits(o.regions[i], a) && Hits(o.regions[j], a) {
        HitTwice(o.regions, i, j, a);
        assert false;
      }
    }
  }

  /**
   For a base and size that are multiples of 32 KiB and fit the address width, the loop ends with nothing left over,
   the enabled subregions of different regions do not meet, and together they are exactly [addr, addr + size).
   */
  lemma CoversExactly(w: nat, addr: nat, size: nat)
    requires w >= 16 && Aligned(addr) && Aligned(size) && addr + size <= Pow2(w)
    ensures var o := Plan(w, addr, size, w);
            && o.lsize == 0 && o.address == addr + size
            && ExactCover(o.regions, addr, addr + size) && Disjoint(o.regions)
            && forall i :: 0 <= i < |o.regions| ==> Placed(o.regions[i], w)
  {
    hide Plan, Pow2, Placed, ExactCover, Disjoint;
    PlanCompletes(w, addr, size, w);
    PlanPlaced(w, addr, size, w);
    CoversWhenDone(w, addr, size);
  }
}
