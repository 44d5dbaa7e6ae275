/** Merging and page-aligning the loadable segments of an ELF file. */
module Segments {
  import opened Arithmetic
  import opened Wrappers

  const PAGE: nat := 4096

  datatype Perm = Read | Write | Exec

  datatype Segment = Segment(offset: nat, vaddr: nat, filesz: nat, memsz: nat, flags: set<Perm>, align: nat,
                             remapped: bool) {
    function End(): nat {
      vaddr + memsz
    }

    function FileEnd(): nat {
      vaddr + filesz
    }

    /** How far the file is from memory. */
    function Delta(): int {
      offset - vaddr
    }

    predicate Has(a: nat) {
      vaddr <= a < End()
    }
  }

  function RoundDown(v: nat): (r: nat)
    ensures r <= v < r + PAGE && r % PAGE == 0
  {
    v - v % PAGE
  }

  /** Bitwise and. */
  function And(a: nat, b: nat): nat {
    if a == 0 || b == 0 then 0 else 2 * And(a / 2, b / 2) + (if a % 2 == 1 && b % 2 == 1 then 1 else 0)
  }

  // ----- The sanity check

  predicate SaneAlone(s: Segment) {
    s.align >= PAGE && s.End() < TWO64 && s.filesz <= s.memsz && s.offset % PAGE == s.vaddr % PAGE
  }

  predicate SaneAfter(p: Segment, s: Segment) {
    s.vaddr >= p.End() && s.offset >= p.offset + p.filesz
  }

  predicate SaneAt(segs: seq<Segment>, i: nat)
    requires i < |segs|
  {
    SaneAlone(segs[i]) && segs[i].align == segs[0].align && (i > 0 ==> SaneAfter(segs[i - 1], segs[i]))
  }

  ghost predicate Sane(segs: seq<Segment>) {
    forall i :: 0 <= i < |segs| ==> SaneAt(segs, i)
  }

  /** The asserts of the sanity check for segment i, as numbers. */
  predicate AssertsAt(segs: seq<Segment>, i: nat)
    requires i < |segs|
  {
    var s := segs[i];
    && s.align >= 4096 && s.vaddr + s.memsz < 0x1_0000_0000_0000_0000 && s.filesz <= s.memsz
    && s.offset % 4096 == s.vaddr % 4096 && s.align == segs[0].align
    && (i > 0 ==> s.vaddr >= segs[i - 1].vaddr + segs[i - 1].memsz)
    && (i > 0 ==> s.offset >= segs[i - 1].offset + segs[i - 1].filesz)
  }

  ghost predicate AllAsserts(segs: seq<Segment>) {
    forall i :: 0 <= i < |segs| ==> AssertsAt(segs, i)
  }

  lemma AssertsAreSane(segs: seq<Segment>)
    ensures AllAsserts(segs) <==> Sane(segs)
  {
    hide SaneAt, AssertsAt;
    forall i | 0 <= i < |segs| ensures AssertsAt(segs, i) <==> SaneAt(segs, i) {
      AssertIsSane(segs, i);
    }
  }

  lemma AssertIsSane(segs: seq<Segment>, i: nat)
    requires i < |segs|
    ensures AssertsAt(segs, i) <==> SaneAt(segs, i)
  {
  }

  // ----- One segment after another

  predicate Overlaps(p: Segment, s: Segment) {
    RoundDown(s.vaddr) < p.End()
  }

  function Merged(p: Segment, s: Segment): Segment
    requires s.vaddr >= p.vaddr
  {
    p.(filesz := s.vaddr + s.filesz - p.vaddr, memsz := s.vaddr + s.memsz - p.vaddr, flags := p.flags + s.flags)
  }

  predicate SharesFilePage(p: Segment, s: Segment, mask: nat) {
    And(s.offset, mask) != 0 && RoundDown(s.offset) < p.offset + p.filesz
  }

  function Aligned(s: Segment): Segment {
    var d := s.vaddr - RoundDown(s.vaddr);
    s.(filesz := s.filesz + d, memsz := s.memsz + d, vaddr := RoundDown(s.vaddr), offset := RoundDown(s.offset))
  }

  /** The list with s taken in after the segments already adjusted, unless an assert fires. */
  function Step(r: seq<Segment>, s: Segment, mask: nat): Option<seq<Segment>>
    requires r != [] && s.vaddr >= r[|r| - 1].vaddr
  {
    var n := |r| - 1;
    var p := r[n];
    if Overlaps(p, s) then
      if And(s.vaddr, mask) == And(s.offset, mask) && p.memsz == p.filesz then Some(r[..n] + [Merged(p, s)]) else None
    else if SharesFilePage(p, s, mask) then
      if Write in s.flags then Some(r + [Aligned(s.(remapped := true))]) else None
    else Some(r + [Aligned(s)])
  }

  // ----- Which segments end up together

  /** Segment i is merged with the one before it. */
  predicate Joins(segs: seq<Segment>, i: nat)
    requires i < |segs|
  {
    i > 0 && Overlaps(segs[i - 1], segs[i])
  }

  /** The first segment of i's group, and the number of that group. */
  function Head(segs: seq<Segment>, i: nat): (h: nat)
    requires i < |segs|
    ensures h <= i
  {
    if i == 0 || !Joins(segs, i) then i else Head(segs, i - 1)
  }

  function Group(segs: seq<Segment>, i: nat): (g: nat)
    requires i < |segs|
    ensures g <= i
  {
    if i == 0 then 0 else Group(segs, i - 1) + if Joins(segs, i) then 0 else 1
  }

  /** What a segment keeps in the result that holds it. */
  predicate Within(s: Segment, r: Segment) {
    && r.vaddr <= s.vaddr && s.End() <= r.End() && s.flags <= r.flags
    && s.FileEnd() <= r.FileEnd() && r.filesz <= r.memsz
    && (s.filesz < s.memsz ==> s.FileEnd() == r.FileEnd())
  }

  /** Segment i has a home in the result, with the file distance of its group's head. */
  ghost predicate Home(segs: seq<Segment>, r: seq<Segment>, i: nat)
    requires i < |segs|
  {
    var g := Group(segs, i);
    g < |r| && Within(segs[i], r[g]) && r[g].Delta() == segs[Head(segs, i)].Delta()
  }

  /** In order, and all but the first on page boundaries. */
  ghost predicate Ordered(r: seq<Segment>) {
    forall k :: 0 < k < |r| ==> r[k].vaddr % PAGE == 0 && r[k - 1].End() <= r[k].vaddr
  }

  /** The last result ends where the last segment does, and starts no later. */
  ghost predicate LastFits(s: Segment, r: seq<Segment>) {
    r != [] && var p := r[|r| - 1]; p.End() == s.End() && p.FileEnd() == s.FileEnd() && p.vaddr <= s.vaddr
  }

  lemma SanePrefix(segs: seq<Segment>, n: nat)
    requires Sane(segs) && n <= |segs|
    ensures Sane(segs[..n])
  {
    forall i | 0 <= i < n ensures SaneAt(segs[..n], i) {
      assert SaneAt(segs, i);
    }
  }

  /** All the segments taken in one after another. */
  function Adjusted(segs: seq<Segment>): (r: Option<seq<Segment>>)
    requires Sane(segs)
    ensures r.Some? && segs != [] ==> LastFits(segs[|segs| - 1], r.value)
  {
    if |segs| <= 1 then Some(segs) else
    var n := |segs| - 1;
    SanePrefix(segs, n);
    var r := Adjusted(segs[..n]);
    if r.None? then None else
    assert SaneAt(segs, n) && segs[..n][n - 1] == segs[n - 1];
    StepLast(segs[n - 1], r.value, segs[n], segs[0].align - 1);
    hide Step;
    Step(r.value, segs[n], segs[0].align - 1)
  }

  lemma StepLast(t: Segment, r: seq<Segment>, s: Segment, mask: nat)
    requires LastFits(t, r) && s.vaddr >= t.End()
    ensures s.vaddr >= r[|r| - 1].vaddr
    ensures var r' := Step(r, s, mask);
            r'.Some? ==> LastFits(s, r'.value)
  {
    hide And;
  }

  lemma {:induction false} GroupPrefix(segs: seq<Segment>, n: nat, i: nat)
    requires i < n <= |segs|
    ensures Group(segs[..n], i) == Group(segs, i) && Head(segs[..n], i) == Head(segs, i)
  {
    if i > 0 {
      GroupPrefix(segs, n, i - 1);
    }
  }

  lemma {:induction false} GroupGrows(segs: seq<Segment>, i: nat, j: nat)
    requires i <= j < |segs|
    ensures Group(segs, i) <= Group(segs, j)
  {
    if i < j {
      GroupGrows(segs, i, j - 1);
    }
  }

  /** Everything has its home and the homes are in order. */
  ghost predicate Placed(segs: seq<Segment>, r: seq<Segment>)
    requires segs != []
  {
    && |r| == Group(segs, |segs| - 1) + 1 && r[0].vaddr == segs[0].vaddr && Ordered(r)
    && forall i :: 0 <= i < |segs| ==> Home(segs, r, i)
  }

  lemma {:induction false} AdjustedPlaces(segs: seq<Segment>)
    requires Sane(segs) && segs != [] && Adjusted(segs).Some?
    ensures Placed(segs, Adjusted(segs).value)
  {
    var n := |segs| - 1;
    if n == 0 {
      assert SaneAt(segs, 0);
      WithinSelf(segs[0]);
    } else {
      hide Step, Placed, LastFits;
      SanePrefix(segs, n);
      AdjustedPlaces(segs[..n]);
      assert segs[..n][n - 1] == segs[n - 1];
      StepPlaces(segs, Adjusted(segs[..n]).value);
    }
  }

  lemma StepPlaces(segs: seq<Segment>, r: seq<Segment>)
    requires |segs| > 1 && Sane(segs) && Placed(segs[..|segs| - 1], r) && LastFits(segs[|segs| - 2], r)
    ensures segs[0].align > 0 && segs[|segs| - 1].vaddr >= r[|r| - 1].vaddr
    ensures var r' := Step(r, segs[|segs| - 1], segs[0].align - 1);
            r'.Some? ==> Placed(segs, r'.value)
  {
    hide Placed, Aligned, Merged, And;
    var n := |segs| - 1;
    assert SaneAt(segs, 0) && SaneAt(segs, n);
    var r' := Step(r, segs[n], segs[0].align - 1);
    if r'.Some? {
      if Joins(segs, n) {
        JoinPlaces(segs, r);
      } else {
        AppendPlaces(segs, r, r'.value);
      }
    }
  }

  lemma WithinSelf(s: Segment)
    requires SaneAlone(s)
    ensures Within(s, s)
  {
  }

  /** A merge keeps what the last result held, and takes in s. */
  lemma MergeWithin(t: Segment, p: Segment, s: Segment)
    requires Within(t, p) && p.memsz == p.filesz && s.vaddr >= p.End() && s.filesz <= s.memsz
    ensures Within(t, Merged(p, s)) && Within(s, Merged(p, s)) && Merged(p, s).Delta() == p.Delta()
  {
  }

  lemma JoinPlaces(segs: seq<Segment>, r: seq<Segment>)
    requires |segs| > 1 && Sane(segs) && Placed(segs[..|segs| - 1], r) && Joins(segs, |segs| - 1)
    requires LastFits(segs[|segs| - 2], r) && r[|r| - 1].memsz == r[|r| - 1].filesz
    ensures var n := |r| - 1;
            segs[|segs| - 1].vaddr >= r[n].vaddr && Placed(segs, r[..n] + [Merged(r[n], segs[|segs| - 1])])
  {
    hide Within, Merged;
    var n, m := |segs| - 1, |r| - 1;
    var p, s := r[m], segs[n];
    assert SaneAt(segs, n);
    var r' := r[..m] + [Merged(p, s)];
    MergedShape(p, s);
    GroupPrefix(segs, n, n - 1);
    forall i | 0 <= i <= n ensures Home(segs, r', i) {
      var j := if i == n then n - 1 else i;
      GroupPrefix(segs, n, j);
      assert Home(segs[..n], r, j);
      GroupGrows(segs, j, n - 1);
      if Group(segs, j) == m {
        MergeWithin(segs[j], p, s);
      }
    }
  }

  lemma MergedShape(p: Segment, s: Segment)
    requires s.vaddr >= p.vaddr
    ensures Merged(p, s).vaddr == p.vaddr && Merged(p, s).End() == s.End()
  {
  }

  lemma AppendPlaces(segs: seq<Segment>, r: seq<Segment>, r': seq<Segment>)
    requires |segs| > 1 && Sane(segs) && Placed(segs[..|segs| - 1], r) && !Joins(segs, |segs| - 1)
    requires LastFits(segs[|segs| - 2], r) && |r'| == |r| + 1 && r'[..|r|] == r
    requires var s := segs[|segs| - 1]; r'[|r|] == Aligned(s) || r'[|r|] == Aligned(s.(remapped := true))
    ensures Placed(segs, r')
  {
    hide Within, Aligned;
    var n := |segs| - 1;
    var s := segs[n];
    assert SaneAt(segs, n);
    AlignedFacts(s);
    AlignedFacts(s.(remapped := true));
    GroupPrefix(segs, n, n - 1);
    forall i | 0 <= i <= n ensures Home(segs, r', i) {
      if i < n {
        GroupPrefix(segs, n, i);
        assert Home(segs[..n], r, i);
      }
    }
  }

  lemma AlignedFacts(s: Segment)
    requires SaneAlone(s)
    ensures var r := Aligned(s);
            && r.vaddr == RoundDown(s.vaddr) && r.vaddr % PAGE == 0 && Within(s, r) && r.Delta() == s.Delta()
            && r.End() == s.End() && Within(s.(remapped := false), r) && Within(s.(remapped := true), r)
  {
  }

  // ----- Permissions and the mark for a file page mapped twice

  /** Segment h, first of its group, starts on a file page that the results before it have mapped already. */
  predicate Remaps(segs: seq<Segment>, h: nat)
    requires h < |segs| && segs[0].align > 0
  {
    segs[h].remapped ||
    (h > 0 && And(segs[h].offset, segs[0].align - 1) != 0 &&
     RoundDown(segs[h].offset) < segs[h - 1].FileEnd() + segs[Head(segs, h - 1)].Delta())
  }

  /** Some segment of group k has permission x. */
  ghost predicate Given(segs: seq<Segment>, k: nat, x: Perm) {
    exists i :: 0 <= i < |segs| && Group(segs, i) == k && x in segs[i].flags
  }

  ghost predicate OnlyGiven(segs: seq<Segment>, r: seq<Segment>) {
    forall k, x :: 0 <= k < |r| && x in r[k].flags ==> Given(segs, k, x)
  }

  ghost predicate RemapsMarked(segs: seq<Segment>, r: seq<Segment>)
    requires segs != [] && segs[0].align > 0
  {
    forall i :: 0 <= i < |segs| ==> MarkedAt(segs, r, i)
  }

  ghost predicate MarkedAt(segs: seq<Segment>, r: seq<Segment>, i: nat)
    requires i < |segs| && segs[0].align > 0
  {
    Group(segs, i) < |r| && r[Group(segs, i)].remapped == Remaps(segs, Head(segs, i))
  }

  lemma GivenStays(segs: seq<Segment>, k: nat, x: Perm)
    requires segs != [] && Given(segs[..|segs| - 1], k, x)
    ensures Given(segs, k, x)
  {
    var n := |segs| - 1;
    var i :| 0 <= i < n && Group(segs[..n], i) == k && x in segs[..n][i].flags;
    GroupPrefix(segs, n, i);
    assert x in segs[i].flags;
  }

  lemma StepOnlyGiven(segs: seq<Segment>, r: seq<Segment>, r': seq<Segment>)
    requires |segs| > 1 && OnlyGiven(segs[..|segs| - 1], r) && |r| == Group(segs, |segs| - 2) + 1
    requires Group(segs, |segs| - 1) == |r'| - 1 && |r| <= |r'| <= |r| + 1
    requires forall k :: 0 <= k < |r'| - 1 ==> r'[k] == r[k]
    requires r'[|r'| - 1].flags == (if |r'| == |r| then r[|r| - 1].flags else {}) + segs[|segs| - 1].flags
    ensures OnlyGiven(segs, r')
  {
    hide Given, Group;
    var n, m := |segs| - 1, |r'| - 1;
    forall k, x | 0 <= k <= m && x in r'[k].flags ensures Given(segs, k, x) {
      if k < |r| && x in r[k].flags {
        GivenStays(segs, k, x);
      } else {
        GivenBy(segs, n, x);
      }
    }
  }

  lemma GivenBy(segs: seq<Segment>, i: nat, x: Perm)
    requires i < |segs| && x in segs[i].flags
    ensures Given(segs, Group(segs, i), x)
  {
  }

  lemma RemapsPrefix(segs: seq<Segment>, n: nat, h: nat)
    requires h < n <= |segs| && segs[0].align > 0
    ensures Remaps(segs[..n], h) == Remaps(segs, h)
  {
    hide And;
    if h > 0 {
      GroupPrefix(segs, n, h - 1);
    }
  }

  lemma StepRemaps(segs: seq<Segment>, r: seq<Segment>, r': seq<Segment>)
    requires |segs| > 1 && segs[0].align > 0 && RemapsMarked(segs[..|segs| - 1], r)
    requires |r| == Group(segs, |segs| - 2) + 1 <= |r'| && Group(segs, |segs| - 1) == |r'| - 1
    requires forall k :: 0 <= k < |r'| - 1 ==> k < |r| && r'[k] == r[k]
    requires |r'| == |r| ==> Head(segs, |segs| - 1) == Head(segs, |segs| - 2)
    requires |r'| == |r| ==> r'[|r| - 1].remapped == r[|r| - 1].remapped
    requires |r'| > |r| ==> Head(segs, |segs| - 1) == |segs| - 1 && r'[|r|].remapped == Remaps(segs, |segs| - 1)
    ensures RemapsMarked(segs, r')
  {
    hide Group, Head, Remaps;
    var n := |segs| - 1;
    forall i | 0 <= i <= n ensures MarkedAt(segs, r', i) {
      var j := if i == n && |r'| == |r| then n - 1 else i;
      if j < n {
        GroupPrefix(segs, n, j);
        RemapsPrefix(segs, n, Head(segs, j));
        GroupGrows(segs, j, n - 1);
        assert MarkedAt(segs[..n], r, j);
      }
    }
  }

  /** What a step does to permissions and mark. */
  lemma StepMarks(segs: seq<Segment>, r: seq<Segment>)
    requires |segs| > 1 && Sane(segs) && Placed(segs[..|segs| - 1], r) && LastFits(segs[|segs| - 2], r)
    requires segs[0].align > 0 && OnlyGiven(segs[..|segs| - 1], r) && RemapsMarked(segs[..|segs| - 1], r)
    ensures segs[|segs| - 1].vaddr >= r[|r| - 1].vaddr
    ensures var r' := Step(r, segs[|segs| - 1], segs[0].align - 1);
            r'.Some? ==> OnlyGiven(segs, r'.value) && RemapsMarked(segs, r'.value)
  {
    hide And, OnlyGiven, RemapsMarked;
    var n := |segs| - 1;
    assert SaneAt(segs, n);
    var s, p, r' := segs[n], r[|r| - 1], Step(r, segs[n], segs[0].align - 1);
    GroupPrefix(segs, n, n - 1);
    assert Home(segs[..n], r, n - 1);
    assert p.offset + p.filesz == segs[n - 1].FileEnd() + segs[Head(segs, n - 1)].Delta();
    if r'.Some? {
      StepOnlyGiven(segs, r, r'.value);
      StepRemaps(segs, r, r'.value);
    }
  }

  /** The permissions of a result are the union of those of its group, and it is marked exactly if its head remaps. */
  lemma {:induction false} AdjustedMarks(segs: seq<Segment>)
    requires Sane(segs) && segs != [] && Adjusted(segs).Some?
    ensures segs[0].align > 0 && OnlyGiven(segs, Adjusted(segs).value) && RemapsMarked(segs, Adjusted(segs).value)
  {
    var n := |segs| - 1;
    assert SaneAt(segs, 0);
    if n == 0 {
      forall x | x in segs[0].flags ensures Given(segs, 0, x) {
        GivenBy(segs, 0, x);
      }
    } else {
      hide Step, Placed, LastFits, OnlyGiven, RemapsMarked;
      SanePrefix(segs, n);
      AdjustedMarks(segs[..n]);
      AdjustedPlaces(segs[..n]);
      assert segs[..n][n - 1] == segs[n - 1];
      StepMarks(segs, Adjusted(segs[..n]).value);
    }
  }

  // ----- What the adjusted list guarantees

  /** Every address of every segment is in exactly one result, and that one has the segment's permissions. */
  lemma ExactlyOneHome(segs: seq<Segment>, i: nat, a: nat)
    requires Sane(segs) && Adjusted(segs).Some? && i < |segs| && segs[i].Has(a)
    ensures var r := Adjusted(segs).value;
            var g := Group(segs, i);
            && g < |r| && segs[i].flags <= r[g].flags
            && (forall x :: x in r[g].flags ==> Given(segs, g, x))
            && forall k :: 0 <= k < |r| ==> (r[k].Has(a) <==> k == g)
  {
    AdjustedMarks(segs);
    hide Adjusted;
    AdjustedPlaces(segs);
    var r, g := Adjusted(segs).value, Group(segs, i);
    assert Home(segs, r, i);
    forall k | 0 <= k < |r| && r[k].Has(a) ensures k == g {
      Apart(r, k, g);
      Apart(r, g, k);
    }
  }

  lemma {:induction false} Apart(r: seq<Segment>, j: nat, k: nat)
    requires Ordered(r) && j < |r| && k < |r|
    ensures j < k ==> r[j].End() <= r[k].vaddr
    decreases k
  {
    if j < k - 1 {
      Apart(r, j, k - 1);
    }
  }

  /** No page holds addresses of two results. */
  lemma NoSharedPage(segs: seq<Segment>, j: nat, k: nat, a: nat, b: nat)
    requires Sane(segs) && Adjusted(segs).Some? && j < k < |Adjusted(segs).value|
    requires Adjusted(segs).value[j].Has(a) && Adjusted(segs).value[k].Has(b)
    ensures a / PAGE < b / PAGE && Adjusted(segs).value[k].vaddr % PAGE == 0
  {
    assert segs != [];
    hide Adjusted;
    AdjustedPlaces(segs);
    Apart(Adjusted(segs).value, j, k);
  }

  /** Address a is in s or on the page s starts on. */
  predicate Near(s: Segment, a: nat) {
    s.Has(a) || RoundDown(a) == RoundDown(s.vaddr)
  }

  /** Nothing is mapped beyond the pages the segments touch. */
  lemma {:induction false} NothingExtra(segs: seq<Segment>, k: nat, a: nat) returns (i: nat)
    requires Sane(segs) && Adjusted(segs).Some? && k < |Adjusted(segs).value| && Adjusted(segs).value[k].Has(a)
    ensures i < |segs| && Near(segs[i], a)
  {
    var n := |segs| - 1;
    i := n;
    if n > 0 && !Near(segs[n], a) {
      SanePrefix(segs, n);
      assert SaneAt(segs, n) && segs[..n][n - 1] == segs[n - 1];
      var r := Adjusted(segs[..n]).value;
      hide Step, Near;
      StepNear(segs[n - 1], r, segs[n], segs[0].align - 1, k, a);
      i := NothingExtra(segs[..n], if k < |r| then k else |r| - 1, a);
    }
  }

  lemma StepNear(t: Segment, r: seq<Segment>, s: Segment, mask: nat, k: nat, a: nat)
    requires LastFits(t, r) && s.vaddr >= t.End() && Step(r, s, mask).Some?
    requires k < |Step(r, s, mask).value| && Step(r, s, mask).value[k].Has(a)
    ensures Near(s, a) || r[if k < |r| then k else |r| - 1].Has(a)
  {
    hide And;
    SamePage(s, a);
  }

  lemma SamePage(s: Segment, a: nat)
    ensures RoundDown(s.vaddr) <= a < s.vaddr ==> Near(s, a)
  {
  }

  /** What the loader puts at an address: a byte of the file, or zero. */
  datatype Content = FileByte(offset: int) | ZeroByte

  function ContentAt(s: Segment, a: nat): Content
    requires s.Has(a)
  {
    if a < s.FileEnd() then FileByte(a + s.Delta()) else ZeroByte
  }

  ghost predicate ContentKept(segs: seq<Segment>, r: seq<Segment>) {
    forall i, a :: 0 <= i < |segs| && segs[i].Has(a) ==>
      Group(segs, i) < |r| && r[Group(segs, i)].Has(a) && ContentAt(r[Group(segs, i)], a) == ContentAt(segs[i], a)
  }

  /** Each segment with bytes in the file is as far from it as the head of its group. */
  ghost predicate SameDistance(segs: seq<Segment>) {
    forall i :: 0 <= i < |segs| && segs[i].filesz > 0 ==> segs[i].Delta() == segs[Head(segs, i)].Delta()
  }

  /** Every byte keeps its place in the file, or stays zero, exactly when merged segments keep one distance. */
  lemma ContentKeptExactly(segs: seq<Segment>)
    requires Sane(segs) && Adjusted(segs).Some? && segs != []
    ensures ContentKept(segs, Adjusted(segs).value) <==> SameDistance(segs)
  {
    hide Adjusted, Group, Head;
    AdjustedPlaces(segs);
    var r := Adjusted(segs).value;
    if SameDistance(segs) {
      forall i, a | 0 <= i < |segs| && segs[i].Has(a)
        ensures Group(segs, i) < |r| && r[Group(segs, i)].Has(a)
        ensures ContentAt(r[Group(segs, i)], a) == ContentAt(segs[i], a)
      {
        assert Home(segs, r, i) && SaneAt(segs, i);
      }
    }
    if ContentKept(segs, r) {
      forall i | 0 <= i < |segs| && segs[i].filesz > 0 ensures segs[i].Delta() == segs[Head(segs, i)].Delta() {
        assert Home(segs, r, i) && SaneAt(segs, i);
        assert segs[i].Has(segs[i].vaddr);
      }
    }
  }

  /** The asserts let through a merge of two segments at different distances. */
  lemma DistanceUnchecked()
    ensures var segs := [Segment(0, 0, 0x1100, 0x1100, {Read, Exec}, 0x1000, false),
                         Segment(0x2800, 0x1800, 0x100, 0x100, {Read, Write}, 0x1000, false)];
            Sane(segs) && Adjusted(segs).Some? && !SameDistance(segs)
  {
    var s := Segment(0, 0, 0x1100, 0x1100, {Read, Exec}, 0x1000, false);
    var t := Segment(0x2800, 0x1800, 0x100, 0x100, {Read, Write}, 0x1000, false);
    var segs := [s, t];
    assert SaneAt(segs, 0) && SaneAt(segs, 1);
    assert Pow2(12) == 0x1000;
    AndMask(0x1800, 12);
    AndMask(0x2800, 12);
    assert segs[..1] == [s];
    assert Joins(segs, 1) && Head(segs, 1) == Head(segs, 0) == 0;
    assert segs[1].Delta() != segs[0].Delta();
  }

  /** A mask one below a power of two keeps the remainder. */
  lemma {:induction false} AndMask(a: nat, k: nat)
    ensures And(a, Pow2(k) - 1) == Rem(a, Pow2(k))
    decreases k
  {
    hide Rem, Quot;
    if k == 0 {
      RemOne(a);
    } else {
      var m := Pow2(k - 1);
      AndMask(a / 2, k - 1);
      AndOdd(a, m - 1);
      HalvedRemainder(a, m);
    }
  }

  lemma RemOne(a: nat)
    ensures Rem(a, 1) == 0 && And(a, 0) == 0
  {
  }

  lemma AndOdd(a: nat, b: nat)
    ensures And(a, 2 * b + 1) == 2 * And(a / 2, b) + a % 2
  {
  }

  lemma HalvedRemainder(a: nat, m: nat)
    requires m > 0
    ensures Rem(a, 2 * m) == 2 * Rem(a / 2, m) + a % 2
  {
    hide Times, Rem, Quot;
    var h, b := a / 2, a % 2;
    DivSplits(h, m);
    DoubleTimes(Quot(h, m), m);
    DivUnique(a, 2 * m, Quot(h, m), 2 * Rem(h, m) + b);
  }

  lemma DoubleTimes(q: nat, m: nat)
    ensures Times(q, 2 * m) == 2 * Times(q, m)
  {
  }

  // ----- The list edited in place

  class Elf {
    var segs: seq<Segment>

    constructor (segs: seq<Segment>)
      ensures this.segs == segs
    {
      this.segs := segs;
    }

    /** False when an assert fires. */
    method CheckSegments() returns (ok: bool, align: nat)
      ensures ok <==> AllAsserts(segs)
      ensures ok <==> Sane(segs)
      ensures ok && segs != [] ==> align == segs[0].align
    {
      AssertsAreSane(segs);
      align := 0;
      for i := 0 to |segs|
        invariant forall j :: 0 <= j < i ==> SaneAt(segs, j)
        invariant align == if i == 0 then 0 else segs[0].align
      {
        var s := segs[i];
        assert i > 0 ==> SaneAt(segs, 0);
        if !SaneAlone(s) || (i > 0 && !SaneAfter(segs[i - 1], s)) {
          assert !SaneAt(segs, i);
          return false, align;
        }
        if align == 0 {
          align := s.align;
        }
        if align != s.align {
          assert !SaneAt(segs, i);
          return false, align;
        }
        assert SaneAt(segs, i);
      }
      ok := true;
    }

    method AdjustSegments() returns (ok: bool)
      modifies this
      ensures ok <==> Sane(old(segs)) && Adjusted(old(segs)).Some?
      ensures ok ==> segs == Adjusted(old(segs)).value
    {
      hide Sane, Adjusted, Step, LastFits;
      ghost var all := segs;
      var align;
      ok, align := CheckSegments();
      if !ok {
        return;
      }
      var mask := if align == 0 then TWO64 - 1 else align - 1;
      var i := 1;
      ghost var n := if all == [] then 0 else 1;
      AdjustedStart(all);
      while i < |segs|
        invariant Sane(all) && n <= |all| && (all != [] ==> n > 0 && all[0].align > 0 && mask == all[0].align - 1)
        invariant Sane(all[..n]) && Adjusted(all[..n]).Some? && segs == Adjusted(all[..n]).value + all[n..]
        invariant i == if all == [] then 1 else |Adjusted(all[..n]).value|
        decreases |all| - n
      {
        ghost var r := Adjusted(all[..n]).value;
        AdjustedNext(all, n);
        assert segs[..i] == r && segs[i] == all[n] && segs[i + 1..] == all[n + 1..];
        ok, i := AdjustAt(i, mask);
        n := n + 1;
        if !ok {
          NoneStays(all, n);
          return;
        }
      }
      assert all[..n] == all;
    }

    /** One turn of the loop: segment i merged into the one before it, or put on a page boundary. */
    method AdjustAt(i: nat, mask: nat) returns (ok: bool, next: nat)
      requires 0 < i < |segs| && segs[i].vaddr >= segs[i - 1].vaddr
      modifies this
      ensures var r := Step(old(segs[..i]), old(segs[i]), mask);
              ok == r.Some? && (ok ==> segs == r.value + old(segs[i + 1..]) && next == |r.value|)
    {
      hide And, RoundDown;
      var s, p := segs[i], segs[i - 1];
      if RoundDown(s.vaddr) < p.vaddr + p.memsz {
        if And(s.vaddr, mask) != And(s.offset, mask) || p.memsz != p.filesz {
          return false, i;
        }
        p := p.(filesz := s.vaddr + s.filesz - p.vaddr, memsz := s.vaddr + s.memsz - p.vaddr,
                flags := p.flags + s.flags);
        assert segs[..i][..i - 1] == segs[..i - 1];
        segs := segs[..i - 1] + [p] + segs[i + 1..];
        return true, i;
      }
      if And(s.offset, mask) != 0 && RoundDown(s.offset) < p.offset + p.filesz {
        if Write !in s.flags {
          return false, i;
        }
        s := s.(remapped := true);
      }
      var d := s.vaddr - RoundDown(s.vaddr);
      s := s.(filesz := s.filesz + d, memsz := s.memsz + d);
      s := s.(vaddr := RoundDown(s.vaddr), offset := RoundDown(s.offset));
      segs := segs[i := s];
      return true, i + 1;
    }
  }

  lemma AdjustedStart(all: seq<Segment>)
    requires Sane(all)
    ensures var n := if all == [] then 0 else 1;
            && Sane(all[..n]) && Adjusted(all[..n]) == Some(all[..n]) && all[..n] + all[n..] == all
            && (all != [] ==> all[0].align > 0)
  {
    var n := if all == [] then 0 else 1;
    SanePrefix(all, n);
    if all != [] {
      assert SaneAt(all, 0);
    }
  }

  lemma AdjustedNext(all: seq<Segment>, n: nat)
    requires Sane(all) && 0 < n < |all| && Sane(all[..n]) && Adjusted(all[..n]).Some?
    ensures var r := Adjusted(all[..n]).value;
            && Sane(all[..n + 1]) && all[0].align > 0 && r != [] && all[n].vaddr >= r[|r| - 1].vaddr
            && Adjusted(all[..n + 1]) == Step(r, all[n], all[0].align - 1)
  {
    hide Step;
    SanePrefix(all, n + 1);
    assert all[..n + 1][..n] == all[..n] && SaneAt(all, n) && SaneAt(all, 0);
  }

  /** An assert that fires on some of the segments also stops the whole. */
  lemma {:induction false} NoneStays(all: seq<Segment>, n: nat)
    requires Sane(all) && n <= |all| && Sane(all[..n]) && Adjusted(all[..n]).None?
    ensures Adjusted(all).None?
    decreases |all| - n
  {
    if n < |all| {
      SanePrefix(all, n + 1);
      assert all[..n + 1][..n] == all[..n];
      NoneStays(all, n + 1);
    } else {
      assert all[..n] == all;
    }
  }
}
