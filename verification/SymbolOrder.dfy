/** The order in which modules are searched, against the one the documentation gives. */
module SymbolOrder {
  import opened Bytes
  import opened Symbols

  // ----- What a module has to offer

  /** How good an answer is: a defined global, a defined weak, an undefined weak symbol, or none. */
  ghost function Grade(m: Module, name: seq<byte>): nat {
    if exists i: nat :: Offers(m, name, i, Global) then 3
    else if exists i: nat :: Offers(m, name, i, Weak) then 2
    else if exists i: nat :: OffersZero(m, name, i) then 1
    else 0
  }

  predicate OffersZero(m: Module, name: seq<byte>, i: nat) {
    i < |m.syms| && m.syms[i].name != 0 && NameOf(m, i) == name && m.syms[i].bind == Weak && m.syms[i].section == Undef
  }

  ghost predicate Proper(e: Entry) {
    TableOk(e.m, e.rank) && UniqueNames(e.m)
  }

  /** A module answers exactly when it has something to offer. */
  lemma AnswerGrade(e: Entry, name: seq<byte>)
    requires Proper(e)
    ensures Answer(e, name) == NoMatch <==> Grade(e.m, name) == 0
  {
    hide NameAt, Walk, Scan, Grade, TrySymbol;
    var i := IndexOf(e.m, name);
    LookupIsScan(e.m, e.rank, name, false);
    LookupIsScan(e.m, e.rank, name, true);
    ScanOnly(e.m, name, false, 0, i);
    ScanOnly(e.m, name, true, 0, i);
    GradeAt(e.m, name, i);
  }

  lemma GradeAt(m: Module, name: seq<byte>, i: nat)
    requires OnlyFor(m, name, i) && (i < |m.syms| ==> 0 < m.syms[i].name <= |m.dynstr| && NameOf(m, i) == name)
    ensures Grade(m, name) == 0 <==> i >= |m.syms| || TrySymbol(m, m.syms[i], name, true) == NoMatch
    ensures i < |m.syms| && TrySymbol(m, m.syms[i], name, true) == NoMatch ==>
              TrySymbol(m, m.syms[i], name, false) == NoMatch
  {
    hide NameAt;
    assert i < |m.syms| && TrySymbol(m, m.syms[i], name, true) != NoMatch ==>
        Offers(m, name, i, Global) || Offers(m, name, i, Weak) || OffersZero(m, name, i);
  }

  /** The symbol a module would answer with is of an unsupported type or outside the module. */
  ghost predicate Malformed(m: Module, name: seq<byte>) {
    exists i: nat :: (Offers(m, name, i, Global) || Offers(m, name, i, Weak)) && BadSymbol(m, m.syms[i])
  }

  predicate BadSymbol(m: Module, s: Symbol) {
    s.kind == OtherType || (s.kind != Tls && s.value > m.size)
  }

  lemma AnswerMalformed(e: Entry, name: seq<byte>)
    requires Proper(e)
    ensures Answer(e, name) == Abort <==> Malformed(e.m, name)
  {
    hide NameAt, Walk, Scan;
    var m := e.m;
    var i := IndexOf(m, name);
    LookupIsScan(m, e.rank, name, false);
    LookupIsScan(m, e.rank, name, true);
    ScanOnly(m, name, false, 0, i);
    ScanOnly(m, name, true, 0, i);
    if Answer(e, name) == Abort {
      assert Offers(m, name, i, Global) || Offers(m, name, i, Weak);
    }
  }

  // ----- The documented outcome

  ghost predicate AllProper(order: seq<Entry>) {
    forall i :: 0 <= i < |order| ==> Proper(order[i])
  }

  /** Only the given module is searched, if there is one. */
  function Scope(elf: seq<Entry>, queue: seq<Entry>): seq<Entry> {
    if elf != [] then elf else queue
  }

  /** The first of the first n modules with the best symbol: any global before any weak, undefined weak ones last. */
  ghost function Best(order: seq<Entry>, name: seq<byte>, n: nat): (b: nat)
    requires 0 < n <= |order|
    ensures b < n && (forall k :: 0 <= k < n ==> Grade(order[k].m, name) <= Grade(order[b].m, name))
    ensures forall k :: 0 <= k < b ==> Grade(order[k].m, name) < Grade(order[b].m, name)
  {
    if n == 1 then 0 else
    var b := Best(order, name, n - 1);
    if Grade(order[n - 1].m, name) > Grade(order[b].m, name) then n - 1 else b
  }

  /** The module with the best symbol in scope decides, and without a symbol in scope nothing is found. */
  ghost function Documented(elf: seq<Entry>, queue: seq<Entry>, name: seq<byte>): Resolved
    requires AllProper(elf) && AllProper(queue)
  {
    var scope := Scope(elf, queue);
    if scope == [] then NotFound else
    var b := Best(scope, name, |scope|);
    if Grade(scope[b].m, name) == 0 then NotFound else Decide(b, Answer(scope[b], name))
  }

  // ----- When the code does as documented

  ghost predicate NoneOffers(order: seq<Entry>, name: seq<byte>) {
    forall k :: 0 <= k < |order| ==> Grade(order[k].m, name) == 0
  }

  /** The first module with anything to offer, or one past the end. */
  ghost function First(order: seq<Entry>, name: seq<byte>, k: nat): (f: nat)
    requires k <= |order|
    ensures k <= f <= |order| && (f < |order| ==> Grade(order[f].m, name) > 0)
    ensures forall i :: k <= i < f ==> Grade(order[i].m, name) == 0
    decreases |order| - k
  {
    if k == |order| || Grade(order[k].m, name) > 0 then k else First(order, name, k + 1)
  }

  /**
   * A given module has the symbol or no module has it. Without a given module, the first module with anything to
   * offer has a symbol as good as any, or it and the first of the best are both malformed.
   */
  ghost predicate Agrees(elf: seq<Entry>, queue: seq<Entry>, name: seq<byte>) {
    if elf != [] then Grade(elf[0].m, name) > 0 || NoneOffers(queue, name)
    else
      NoneOffers(queue, name) ||
      var f, b := First(queue, name, 0), Best(queue, name, |queue|);
      Grade(queue[f].m, name) == Grade(queue[b].m, name) || (Malformed(queue[f].m, name) && Malformed(queue[b].m, name))
  }

  lemma {:induction false} FirstIsFirst(order: seq<Entry>, name: seq<byte>, k: nat)
    requires AllProper(order) && AllSearchable(order) && k <= |order|
    ensures FirstAnswer(order, name, k) == First(order, name, k)
    decreases |order| - k
  {
    hide Answer, Grade, Proper, Searchable;
    if k < |order| {
      AnswerGrade(order[k], name);
      FirstIsFirst(order, name, k + 1);
    }
  }

  lemma ProperAreSearchable(order: seq<Entry>)
    requires AllProper(order)
    ensures AllSearchable(order)
  {
    hide Proper, Searchable;
    forall i | 0 <= i < |order| ensures Searchable(order[i]) {
      ProperSearchable(order[i]);
    }
  }

  /** With no module given. */
  lemma QueueAgrees(queue: seq<Entry>, name: seq<byte>)
    requires AllProper(queue) && AllSearchable(queue)
    ensures Resolve(queue, name) == Documented([], queue, name) <==> Agrees([], queue, name)
  {
    hide Answer, Grade, Proper, Searchable, Malformed;
    FirstIsFirst(queue, name, 0);
    if !NoneOffers(queue, name) {
      var f, b := First(queue, name, 0), Best(queue, name, |queue|);
      AnswerGrade(queue[f], name);
      AnswerGrade(queue[b], name);
      AnswerMalformed(queue[f], name);
      AnswerMalformed(queue[b], name);
    }
  }

  /** With a module given. */
  lemma GivenAgrees(e: Entry, queue: seq<Entry>, name: seq<byte>)
    requires Proper(e) && AllProper(queue) && AllProper([e] + queue) && AllSearchable([e] + queue)
    ensures Resolve([e] + queue, name) == Documented([e], queue, name) <==> Agrees([e], queue, name)
  {
    hide Answer, Grade, Proper, Searchable;
    var order := [e] + queue;
    FirstIsFirst(order, name, 0);
    AnswerGrade(e, name);
    assert order[0] == e && order[1..] == queue;
    var f := First(order, name, 0);
    if f < |order| {
      AnswerGrade(order[f], name);
    }
    assert NoneOffers(queue, name) && Grade(e.m, name) == 0 ==> f == |order|;
  }

  /** For modules with proper tables the search does as documented exactly under that condition. */
  lemma DocumentedWhen(elf: seq<Entry>, queue: seq<Entry>, name: seq<byte>)
    requires |elf| <= 1 && AllProper(elf) && AllProper(queue)
    ensures AllSearchable(Order(elf, queue))
    ensures Resolve(Order(elf, queue), name) == Documented(elf, queue, name) <==> Agrees(elf, queue, name)
  {
    hide Resolve, Documented, Agrees, Proper, Searchable;
    var order := Order(elf, queue);
    forall i | 0 <= i < |order| ensures Proper(order[i]) {
      assert order[i] == if i < |elf| then elf[i] else queue[i - |elf|];
    }
    ProperAreSearchable(order);
    if elf == [] {
      assert order == queue;
      QueueAgrees(queue, name);
    } else {
      assert elf == [elf[0]];
      GivenAgrees(elf[0], queue, name);
    }
  }

  // ----- Inputs at which they differ

  /** A module with one symbol named "f". */
  function OneSymbol(bind: Bind): Entry {
    var syms := [Symbol(0, OtherBind, NoType, Undef, 0), Symbol(1, bind, Func, Defined, 4)];
    Entry(Module([0, 102, 0], [], syms, [1], [0, 0], 0x1000, 16), [0, 0])
  }

  lemma OneProper(bind: Bind)
    ensures Proper(OneSymbol(bind))
  {
    SmallTable(OneSymbol(bind));
  }

  lemma SmallTable(e: Entry)
    requires |e.m.syms| == 2 && e.m.syms[0].name == 0 && e.m.syms[1].name <= |e.m.dynstr|
    requires |e.m.bucket| == 1 && e.m.bucket[0] == 1 && e.rank == e.m.chain == [0, 0]
    ensures Proper(e)
  {
    hide NameAt, Hash;
    assert OnChain(e.m, e.rank, 1, 1);
    assert Bucket(e.m, NameOf(e.m, 1)) == 1;
  }

  lemma OneGrade(bind: Bind)
    ensures Grade(OneSymbol(bind).m, [102]) == if bind == Global then 3 else if bind == Weak then 2 else 0
  {
    hide NameAt;
    var m := OneSymbol(bind).m;
    OneName(bind);
    assert Offers(m, [102], 1, bind);
    assert m.syms[0].name == 0;
    forall j: nat, b | Offers(m, [102], j, b) ensures b == bind {
    }
    forall j: nat ensures !OffersZero(m, [102], j) {
    }
  }

  lemma OneName(bind: Bind)
    ensures NameOf(OneSymbol(bind).m, 1) == [102]
  {
    var s: seq<byte> := [0, 102, 0];
    assert OneSymbol(bind).m.dynstr + OneSymbol(bind).m.behind == s;
    assert StringAt(s, 2) == [];
    assert StringAt(s, 1) == [102] + StringAt(s, 2);
  }

  lemma BetterLater(w: Entry, g: Entry, name: seq<byte>)
    requires Proper(w) && Proper(g) && 0 < Grade(w.m, name) < Grade(g.m, name)
    ensures AllProper([w, g]) && AllSearchable([w, g]) && Searchable(w) && Searchable(g)
    ensures Resolve([w, g], name) == Decide(0, Answer(w, name))
    ensures Documented([], [w, g], name) == Decide(1, Answer(g, name))
  {
    hide Answer, Grade, Proper, Searchable;
    ProperAreSearchable([w, g]);
    ProperSearchable(w);
    ProperSearchable(g);
    AnswerGrade(w, name);
    assert Best([w, g], name, 1) == 0;
  }

  /** A weak symbol in an earlier module hides a global one in a later module. */
  lemma WeakHidesGlobal()
    ensures var queue := [OneSymbol(Weak), OneSymbol(Global)];
            && AllProper(queue) && AllSearchable(queue)
            && Resolve(queue, [102]) == FoundIn(0, 0x1004) && Documented([], queue, [102]) == FoundIn(1, 0x1004)
  {
    hide Answer, Grade, OneSymbol, Proper, Searchable, Resolve, Documented;
    OneProper(Weak);
    OneProper(Global);
    OneGrade(Weak);
    OneGrade(Global);
    OneAnswer(Weak);
    OneAnswer(Global);
    BetterLater(OneSymbol(Weak), OneSymbol(Global), [102]);
  }

  lemma OnlyElsewhere(e: Entry, g: Entry, name: seq<byte>)
    requires Proper(e) && Proper(g) && Grade(e.m, name) == 0 < Grade(g.m, name)
    ensures AllProper([e]) && AllProper([e, g]) && AllSearchable(Order([e], [e, g])) && Searchable(g)
    ensures Resolve(Order([e], [e, g]), name) == Decide(2, Answer(g, name)) && Documented([e], [e, g], name) == NotFound
  {
    hide Answer, Grade, Proper, Searchable;
    var order := Order([e], [e, g]);
    assert order == [e, e, g];
    ProperAreSearchable(order);
    ProperSearchable(g);
    AnswerGrade(e, name);
    AnswerGrade(g, name);
    assert FirstAnswer(order, name, 2) == 2;
    assert FirstAnswer(order, name, 1) == 2;
  }

  /** A symbol missing from the given module is found in another one. */
  lemma SearchGoesOn()
    ensures var elf, queue := [OneSymbol(OtherBind)], [OneSymbol(OtherBind), OneSymbol(Global)];
            && AllProper(elf) && AllProper(queue) && AllSearchable(Order(elf, queue))
            && Resolve(Order(elf, queue), [102]) == FoundIn(2, 0x1004) && Documented(elf, queue, [102]) == NotFound
  {
    hide Answer, Grade, OneSymbol, Proper, Searchable, Resolve, Documented;
    OneProper(OtherBind);
    OneProper(Global);
    OneGrade(OtherBind);
    OneGrade(Global);
    OneAnswer(Global);
    OnlyElsewhere(OneSymbol(OtherBind), OneSymbol(Global), [102]);
  }

  lemma OneAnswer(bind: Bind)
    requires bind == Weak || bind == Global
    ensures Searchable(OneSymbol(bind)) && Answer(OneSymbol(bind), [102]) == Found(0x1004)
  {
    OneName(bind);
    SmallAnswer(OneSymbol(bind), [102]);
  }

  lemma SmallAnswer(e: Entry, name: seq<byte>)
    requires |e.m.syms| == 2 && e.m.syms[0].name == 0 && 0 < e.m.syms[1].name <= |e.m.dynstr|
    requires |e.m.bucket| == 1 && e.m.bucket[0] == 1 && e.rank == e.m.chain == [0, 0]
    requires var s := e.m.syms[1]; s.bind != OtherBind && s.section == Defined && s.kind == Func && s.value <= e.m.size
    requires NameOf(e.m, 1) == name
    ensures Searchable(e) && Answer(e, name) == Found(e.m.syms[1].value + e.m.base)
  {
    hide NameAt, Hash, Walk, Scan, Bucket;
    SmallTable(e);
    ProperSearchable(e);
    LookupIsScan(e.m, e.rank, name, false);
    LookupIsScan(e.m, e.rank, name, true);
    ScanOnly(e.m, name, false, 0, 1);
    ScanOnly(e.m, name, true, 0, 1);
  }

  lemma ProperSearchable(e: Entry)
    requires Proper(e)
    ensures Searchable(e)
  {
  }
}
