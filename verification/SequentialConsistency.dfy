/**
  When store buffers cannot be noticed. A load bypasses a store if the store, to another address, is
  still in the buffer of the loading thread. Runs without bypassing loads are sequentially consistent:
  the order in which stores reach memory, with every load moved behind the store whose value it
  forwarded, is a run without buffers.
*/
module SequentialConsistency {
  import opened Common
  import opened StoreBuffers

  /** No load of the run bypasses a buffered store. */
  ghost predicate NoBypass(m: Memory, es: seq<Event>) {
    es == [] || (NoBypass(m, Front(es)) && NoBypassBy(TsoState(m, Front(es)), Last(es)))
  }

  ghost predicate NoBypassBy(s: Tso, e: Event) {
    e.Load? ==> AllAt(s.Buffer(e.t), e.addr)
  }

  /** All stores of the buffer are to `a`. */
  ghost predicate AllAt(b: seq<Entry>, a: Address) {
    forall i :: 0 <= i < |b| ==> b[i].addr == a
  }

  // ----- the order without buffers -----

  /** The events that have taken place, and per thread those that wait for buffered stores. */
  datatype Order = Order(done: seq<Event>, waiting: map<Thread, seq<Event>>) {
    function Waiting(t: Thread): seq<Event> {
      if t in waiting then waiting[t] else []
    }

    function With(t: Thread, w: seq<Event>): Order {
      this.(waiting := waiting[t := w])
    }

    function Do(w: seq<Event>): Order {
      this.(done := done + w)
    }
  }

  /** The number of loads at the beginning of `w`. */
  function Loads(w: seq<Event>): (n: nat)
    ensures n <= |w|
  {
    if w == [] || !w[0].Load? then 0 else 1 + Loads(w[1..])
  }

  /** The first store, and the loads that forwarded it. */
  function Group(w: seq<Event>): (n: nat)
    ensures n <= |w|
  {
    if w == [] then 0 else 1 + Loads(w[1..])
  }

  function OrderNext(o: Order, e: Event): Order {
    var w := o.Waiting(e.t);
    match e
    case Store(t, _, _, _) => o.With(t, w + [e])
    case Load(t, _, _, _) => if w == [] then o.Do([e]) else o.With(t, w + [e])
    case Fence(t) => o.Do(w).With(t, [])
    case StoreFence(_) => o
    case Cas(t, _, _, _, _, _) => o.Do(w + [e]).With(t, [])
    case Flush(t, _, _) => o.Do(w[..Group(w)]).With(t, w[Group(w)..])
  }

  function OrderOf(es: seq<Event>): Order {
    if es == [] then Order([], map[]) else OrderNext(OrderOf(Front(es)), Last(es))
  }

  function EntryOf(e: Event): Entry
    requires e.Store?
  {
    Entry(e.addr, e.val, e.instr)
  }

  /** The stores among the waiting events. */
  function Stores(w: seq<Event>): seq<Entry> {
    if w == [] then []
    else Stores(Front(w)) + (if Last(w).Store? then [EntryOf(Last(w))] else [])
  }

  predicate Forwards(e: Event, f: Event) {
    (e.Store? || e.Load?) && f.Load? && f.addr == e.addr && f.val == e.val
  }

  /** Stores, and loads that read what the event in front of them wrote or read. */
  predicate Chained(w: seq<Event>) {
    w == [] || (Chained(Front(w)) && (Last(w).Store? || (|w| > 1 && Forwards(w[|w| - 2], Last(w)))))
  }

  /** The waiting events of thread `t`, as far as its buffer goes. */
  ghost predicate Waits(w: seq<Event>, t: Thread, b: seq<Entry>) {
    && Chained(w) && (forall i :: 0 <= i < |w| ==> w[i].t == t)
    && Stores(w) == b
  }

  // ----- chains of waiting events -----

  lemma {:induction false} StoresConcat(a: seq<Event>, b: seq<Event>)
    ensures Stores(a + b) == Stores(a) + Stores(b)
    decreases |b|
  {
    if b == [] {
      assert a + b == a;
    } else {
      assert Front(a + b) == a + Front(b) && Last(a + b) == Last(b);
      StoresConcat(a, Front(b));
    }
  }

  lemma {:induction false} ChainParts(w: seq<Event>, k: nat)
    requires Chained(w) && k <= |w|
    ensures Chained(w[..k])
    ensures k < |w| && w[k].Store? ==> Chained(w[k..])
    ensures w != [] ==> w[0].Store? && (Last(w).Store? || Last(w).Load?)
    decreases |w|
  {
    if k == |w| {
      assert w[..k] == w;
      if w != [] {
        ChainParts(Front(w), 0);
      }
    } else {
      ChainParts(Front(w), k);
      assert Front(w)[..k] == w[..k];
      if k == |w| - 1 {
        assert w[k..] == [w[k]] && Front(w[k..]) == [];
      } else {
        assert Front(w[k..]) == Front(w)[k..] && Last(w[k..]) == Last(w);
      }
    }
  }

  lemma {:induction false} LoadsAre(w: seq<Event>)
    ensures forall i :: 0 <= i < Loads(w) ==> w[i].Load?
    ensures Loads(w) < |w| ==> !w[Loads(w)].Load?
    decreases |w|
  {
    if w != [] && w[0].Load? {
      LoadsAre(w[1..]);
    }
  }

  lemma {:induction false} OneStore(w: seq<Event>)
    requires w != [] && w[0].Store? && forall i :: 1 <= i < |w| ==> w[i].Load?
    ensures Stores(w) == [EntryOf(w[0])]
    decreases |w|
  {
    if |w| == 1 {
      assert Front(w) == [];
    } else {
      OneStore(Front(w));
    }
  }

  lemma {:induction false} ChainHasNoOther(w: seq<Event>, i: nat)
    requires Chained(w) && i < |w|
    ensures w[i].Store? || w[i].Load?
    decreases |w|
  {
    if i < |w| - 1 {
      ChainHasNoOther(Front(w), i);
    }
  }

  /** The first store and its loads leave; a chain remains. */
  lemma GroupLeaves(w: seq<Event>, t: Thread, b: seq<Entry>)
    requires Waits(w, t, b) && w != []
    ensures b != [] && Waits(w[..Group(w)], t, [b[0]]) && Waits(w[Group(w)..], t, b[1..])
  {
    hide Chained, Stores;
    var n := Group(w);
    ChainParts(w, 0);
    LoadsAre(w[1..]);
    assert forall i :: 1 <= i < n ==> w[i] == w[1..][i - 1];
    OneStore(w[..n]);
    if n < |w| {
      assert w[n] == w[1..][n - 1];
      ChainHasNoOther(w, n);
    } else {
      EmptyChain(w[n..]);
    }
    ChainParts(w, n);
    assert w == w[..n] + w[n..];
    StoresConcat(w[..n], w[n..]);
  }

  lemma EmptyChain(w: seq<Event>)
    ensures w == [] ==> Chained(w) && Stores(w) == []
  {
  }

  /** The last event of a chain has the address and value of the last store. */
  lemma {:induction false} LastIsNewest(w: seq<Event>)
    requires Chained(w) && w != []
    ensures Last(w).Store? || Last(w).Load?
    ensures Stores(w) != [] && Last(w).addr == Last(Stores(w)).addr && Last(w).val == Last(Stores(w)).val
    decreases |w|
  {
    if Last(w).Load? {
      LastIsNewest(Front(w));
    }
  }

  lemma {:induction false} DrainLast(m: Memory, b: seq<Entry>, e: Entry)
    ensures Drain(m, b + [e]) == Apply(Drain(m, b), e)
    decreases |b|
  {
    if b == [] {
      assert b + [e] == [e] && [e][1..] == [];
    } else {
      assert (b + [e])[0] == b[0] && (b + [e])[1..] == b[1..] + [e];
      DrainLast(Apply(m, b[0]), b[1..], e);
    }
  }

  /** Executed at one go, a chain puts its stores into memory. */
  lemma {:induction false} ChainRuns(m: Memory, w: seq<Event>)
    requires Chained(w)
    ensures ScRun(m, w) && ScMemory(m, w) == Drain(m, Stores(w))
    ensures w != [] ==> (Last(w).Store? || Last(w).Load?) && Read(ScMemory(m, w), Last(w).addr) == Last(w).val
    decreases |w|
  {
    if w != [] {
      var e := Last(w);
      ChainRuns(m, Front(w));
      assert w == Front(w) + [e];
      ScConcat(m, Front(w), [e]);
      ScOne(ScMemory(m, Front(w)), e);
      if e.Store? {
        DrainLast(m, Stores(Front(w)), EntryOf(e));
      } else {
        assert Stores(w) == Stores(Front(w));
      }
    }
  }

  // ----- the invariant -----

  ghost predicate Ordered(m: Memory, es: seq<Event>) {
    var o, s := OrderOf(es), TsoState(m, es);
    && ScRun(m, o.done) && ScMemory(m, o.done) == s.memory
    && forall t: Thread :: ThreadOrdered(o, s, es, t)
  }

  ghost predicate ThreadOrdered(o: Order, s: Tso, es: seq<Event>, t: Thread) {
    && Waits(o.Waiting(t), t, s.Buffer(t))
    && ProgramOf(o.done, t) + o.Waiting(t) == ProgramOf(es, t)
  }

  lemma {:induction false} RunIsOrdered(m: Memory, es: seq<Event>)
    requires TsoRun(m, es) && NoBypass(m, es)
    ensures Ordered(m, es)
    decreases |es|
  {
    hide TsoEnabled, TsoNext, OrderNext, NoBypassBy, ThreadOrdered;
    if es == [] {
      NothingIsOrdered(m);
    } else {
      RunIsOrdered(m, Front(es));
      StepIsOrdered(m, OrderOf(Front(es)), TsoState(m, Front(es)), Front(es), Last(es));
      assert es == Front(es) + [Last(es)];
    }
  }

  lemma NothingIsOrdered(m: Memory)
    ensures Ordered(m, [])
  {
  }

  /** The events that the step makes happen. */
  function Happening(o: Order, e: Event): seq<Event> {
    var w := o.Waiting(e.t);
    match e
    case Store(_, _, _, _) => []
    case Load(_, _, _, _) => if w == [] then [e] else []
    case Flush(_, _, _) => w[..Group(w)]
    case Fence(_) => w
    case StoreFence(_) => []
    case Cas(_, _, _, _, _, _) => w + [e]
  }

  lemma OrderNextIs(o: Order, e: Event)
    ensures OrderNext(o, e).done == o.done + Happening(o, e)
    ensures forall u: Thread :: u != e.t ==> OrderNext(o, e).Waiting(u) == o.Waiting(u)
    ensures Happening(o, e) + OrderNext(o, e).Waiting(e.t) == o.Waiting(e.t) + (if Visible(e) then [e] else [])
  {
    var w := o.Waiting(e.t);
    assert w[..Group(w)] + w[Group(w)..] == w + [];
  }

  lemma HappeningRuns(o: Order, s: Tso, e: Event)
    requires TsoEnabled(s, e) && Waits(o.Waiting(e.t), e.t, s.Buffer(e.t))
    ensures ScRun(s.memory, Happening(o, e)) && ScMemory(s.memory, Happening(o, e)) == TsoNext(s, e).memory
  {
    hide Chained, Stores, ScRun, ScMemory;
    var w, b := o.Waiting(e.t), s.Buffer(e.t);
    EmptyChain(w);
    ScNothing(s.memory);
    match e
    case Store(_, _, _, _) =>
    case Load(t, a, v, _) => ScOne(s.memory, e);
    case Flush(t, _, _) =>
      if w != [] {
        GroupLeaves(w, t, b);
        ChainRuns(s.memory, w[..Group(w)]);
        DrainEntry(s.memory, b[0]);
      }
    case Fence(_) => ChainRuns(s.memory, w);
    case StoreFence(_) =>
    case Cas(_, _, _, _, _, _) =>
      ChainRuns(s.memory, w);
      ScConcat(s.memory, w, [e]);
      ScOne(Drain(s.memory, b), e);
  }

  lemma ScNothing(m: Memory)
    ensures ScRun(m, []) && ScMemory(m, []) == m
  {
  }

  lemma HappeningLeaves(o: Order, s: Tso, e: Event)
    requires TsoEnabled(s, e) && NoBypassBy(s, e) && Waits(o.Waiting(e.t), e.t, s.Buffer(e.t))
    ensures Waits(OrderNext(o, e).Waiting(e.t), e.t, TsoNext(s, e).Buffer(e.t))
    ensures forall i :: 0 <= i < |Happening(o, e)| ==> Happening(o, e)[i].t == e.t && Visible(Happening(o, e)[i])
  {
    hide ScRun, ScMemory, Drain, Chained, Stores;
    var w, b := o.Waiting(e.t), s.Buffer(e.t);
    ChainIsVisible(w);
    EmptyChain(w);
    EmptyChain([]);
    match e
    case Store(_, _, _, _) => StoreWaits(w, e, b);
    case Load(t, a, v, _) =>
      if w != [] {
        LoadWaits(w, e, b);
      }
    case Flush(t, _, _) =>
      if w != [] {
        GroupLeaves(w, t, b);
      }
    case _ =>
  }

  lemma ChainIsVisible(w: seq<Event>)
    requires Chained(w)
    ensures forall i :: 0 <= i < |w| ==> Visible(w[i])
  {
    forall i | 0 <= i < |w|
      ensures Visible(w[i])
    {
      ChainHasNoOther(w, i);
    }
  }

  lemma DrainEntry(m: Memory, e: Entry)
    ensures Drain(m, [e]) == Apply(m, e)
  {
    assert [e][1..] == [];
  }

  lemma StoreWaits(w: seq<Event>, e: Event, b: seq<Entry>)
    requires e.Store? && Waits(w, e.t, b)
    ensures Waits(w + [e], e.t, b + [EntryOf(e)])
  {
    assert Front(w + [e]) == w;
  }

  /** A load that does not bypass waits for the store whose value it forwards. */
  lemma LoadWaits(w: seq<Event>, e: Event, b: seq<Entry>)
    requires e.Load? && Waits(w, e.t, b) && w != [] && AllAt(b, e.addr)
    requires Newest(b, e.addr) == None || Newest(b, e.addr) == Some(e.val)
    ensures Waits(w + [e], e.t, b)
  {
    assert Front(w + [e]) == w;
    LastIsNewest(w);
    assert Last(b).addr == e.addr;
  }

  lemma StepIsOrdered(m: Memory, o: Order, s: Tso, es: seq<Event>, e: Event)
    requires o == OrderOf(es) && s == TsoState(m, es) && Ordered(m, es)
    requires TsoEnabled(s, e) && NoBypassBy(s, e)
    ensures ScRun(m, OrderNext(o, e).done) && ScMemory(m, OrderNext(o, e).done) == TsoNext(s, e).memory
    ensures forall t: Thread :: ThreadOrdered(OrderNext(o, e), TsoNext(s, e), es + [e], t)
  {
    hide OrderNext, Happening, TsoEnabled, NoBypassBy, Waits, ThreadOrdered, TsoNext;
    assert Waits(o.Waiting(e.t), e.t, s.Buffer(e.t)) by {
      WaitsFor(o, s, es, e.t);
    }
    HappeningRuns(o, s, e);
    OrderNextIs(o, e);
    ScConcat(m, o.done, Happening(o, e));
    forall t: Thread
      ensures ThreadOrdered(OrderNext(o, e), TsoNext(s, e), es + [e], t)
    {
      ThreadStep(o, s, es, e, t);
    }
  }

  lemma WaitsFor(o: Order, s: Tso, es: seq<Event>, t: Thread)
    requires ThreadOrdered(o, s, es, t)
    ensures Waits(o.Waiting(t), t, s.Buffer(t))
  {
  }

  lemma ThreadStep(o: Order, s: Tso, es: seq<Event>, e: Event, t: Thread)
    requires ThreadOrdered(o, s, es, t) && ThreadOrdered(o, s, es, e.t)
    requires TsoEnabled(s, e) && NoBypassBy(s, e)
    ensures ThreadOrdered(OrderNext(o, e), TsoNext(s, e), es + [e], t)
  {
    hide OrderNext, Happening, TsoEnabled, NoBypassBy, Waits, TsoNext, ProgramOf;
    var h, next := Happening(o, e), OrderNext(o, e);
    HappeningLeaves(o, s, e);
    OrderNextIs(o, e);
    NextProgram(o, e, es, t);
    OthersKeepBuffers(s, e, t);
    if t != e.t {
      assert next.Waiting(t) == o.Waiting(t);
      assert ProgramOf(o.done, t) + [] == ProgramOf(o.done, t) && ProgramOf(es, t) + [] == ProgramOf(es, t);
    } else {
      Rejoin(ProgramOf(o.done, t), h, o.Waiting(t), next.Waiting(t), ProgramOf(es, t), ProgramOf([e], t));
    }
  }

  lemma NextProgram(o: Order, e: Event, es: seq<Event>, t: Thread)
    requires forall i :: 0 <= i < |Happening(o, e)| ==> Happening(o, e)[i].t == e.t && Visible(Happening(o, e)[i])
    ensures ProgramOf(OrderNext(o, e).done, t) == ProgramOf(o.done, t) + (if t == e.t then Happening(o, e) else [])
    ensures ProgramOf(es + [e], t) == ProgramOf(es, t) + ProgramOf([e], t)
    ensures ProgramOf([e], t) == if e.t == t && Visible(e) then [e] else []
  {
    OrderNextIs(o, e);
    hide OrderNext, Happening, ProgramOf;
    ProgramConcat(o.done, Happening(o, e), t);
    ProgramOfThread(Happening(o, e), e.t, t);
    ProgramConcat(es, [e], t);
    ProgramOne(e, t);
  }

  lemma OthersKeepBuffers(s: Tso, e: Event, t: Thread)
    ensures t != e.t ==> TsoNext(s, e).Buffer(t) == s.Buffer(t)
  {
  }

  lemma Rejoin(d: seq<Event>, h: seq<Event>, w: seq<Event>, w': seq<Event>, p: seq<Event>, e: seq<Event>)
    requires d + w == p && h + w' == w + e
    ensures (d + h) + w' == p + e
  {
    assert (d + h) + w' == d + (h + w');
    assert d + (w + e) == (d + w) + e;
  }

  lemma ProgramOne(e: Event, t: Thread)
    ensures ProgramOf([e], t) == if e.t == t && Visible(e) then [e] else []
  {
    assert Front([e]) == [];
  }

  // ----- the theorem -----

  /** The waiting events of the threads below `n`, one thread after the other. */
  function Rest(o: Order, n: nat): seq<Event> {
    if n == 0 then [] else Rest(o, n - 1) + o.Waiting(n - 1)
  }

  lemma {:induction false} RestRuns(o: Order, s: Tso, es: seq<Event>, n: nat, m: Memory, t: Thread)
    requires forall u: Thread :: ThreadOrdered(o, s, es, u)
    ensures ScRun(m, Rest(o, n)) && ProgramOf(Rest(o, n), t) == if t < n then o.Waiting(t) else []
    decreases n
  {
    hide Waits, ProgramOf, ScRun, ScMemory;
    ScNothing(m);
    NothingHasNoProgram(t);
    if n > 0 {
      RestRuns(o, s, es, n - 1, m, t);
      var w := o.Waiting(n - 1);
      assert ThreadOrdered(o, s, es, n - 1);
      WaitingRuns(w, n - 1, s.Buffer(n - 1), ScMemory(m, Rest(o, n - 1)), t);
      ScConcat(m, Rest(o, n - 1), w);
      ProgramConcat(Rest(o, n - 1), w, t);
    }
  }

  lemma NothingHasNoProgram(t: Thread)
    ensures ProgramOf([], t) == []
  {
  }

  lemma WaitingRuns(w: seq<Event>, t: Thread, b: seq<Entry>, m: Memory, u: Thread)
    requires Waits(w, t, b)
    ensures ScRun(m, w) && ProgramOf(w, u) == if u == t then w else []
  {
    ChainRuns(m, w);
    ChainIsVisible(w);
    ProgramOfThread(w, t, u);
  }

  /** All events are of threads below `n`. */
  ghost predicate ThreadsBelow(es: seq<Event>, n: nat) {
    forall i :: 0 <= i < |es| ==> es[i].t < n
  }

  lemma {:induction false} NoProgram(es: seq<Event>, n: nat, t: Thread)
    requires ThreadsBelow(es, n) && t >= n
    ensures ProgramOf(es, t) == []
    decreases |es|
  {
    if es != [] {
      NoProgram(Front(es), n, t);
    }
  }

  /**
    Any number of threads, any interleaving, any flushes: if no load bypasses a buffered store of its
    thread to another address, then the run is sequentially consistent, whether its buffers have been
    flushed in the end or not.
  */
  lemma NoBypassIsSequentiallyConsistent(m: Memory, es: seq<Event>, n: nat)
    requires TsoRun(m, es) && NoBypass(m, es) && ThreadsBelow(es, n)
    ensures SequentiallyConsistent(m, es)
  {
    RunIsOrdered(m, es);
    var o, s := OrderOf(es), TsoState(m, es);
    var sc := o.done + Rest(o, n);
    RestRuns(o, s, es, n, s.memory, 0);
    ScConcat(m, o.done, Rest(o, n));
    hide OrderOf, TsoState, Rest, Waits;
    forall t: Thread
      ensures ProgramOf(sc, t) == ProgramOf(es, t)
    {
      RestRuns(o, s, es, n, s.memory, t);
      ProgramConcat(o.done, Rest(o, n), t);
      assert ThreadOrdered(o, s, es, t);
      if t >= n {
        NoProgram(es, n, t);
      }
    }
    assert SamePrograms(sc, es);
  }

  /** And if the buffers are empty in the end, then memory is what the run without buffers leaves. */
  lemma NoBypassSameMemory(m: Memory, es: seq<Event>)
    requires TsoRun(m, es) && NoBypass(m, es)
    requires forall t: Thread :: TsoState(m, es).Buffer(t) == []
    ensures var sc := OrderOf(es).done;
            ScRun(m, sc) && SamePrograms(sc, es) && ScMemory(m, sc) == TsoState(m, es).memory
  {
    RunIsOrdered(m, es);
    var o, s := OrderOf(es), TsoState(m, es);
    forall t: Thread
      ensures ProgramOf(o.done, t) == ProgramOf(es, t)
    {
      assert ThreadOrdered(o, s, es, t);
      NoStoresNothingWaits(o.Waiting(t));
    }
  }

  lemma NoStoresNothingWaits(w: seq<Event>)
    requires Chained(w) && Stores(w) == []
    ensures w == []
  {
    if w != [] {
      LastIsNewest(w);
    }
  }

  // ----- fences -----

  ghost predicate Drains(e: Event, t: Thread) {
    e.t == t && (e.Fence? || e.Cas?)
  }

  /** Store `i` of the run is buffered by thread `t` as `x`, and not drained since. */
  ghost predicate Pending(es: seq<Event>, t: Thread, x: Entry, i: nat) {
    && i < |es| && es[i].Store? && es[i].t == t && EntryOf(es[i]) == x
    && forall k :: i < k < |es| ==> !Drains(es[k], t)
  }

  lemma {:induction false} BufferedIsPending(m: Memory, es: seq<Event>, t: Thread, j: nat) returns (i: nat)
    requires j < |TsoState(m, es).Buffer(t)|
    ensures Pending(es, t, TsoState(m, es).Buffer(t)[j], i)
    decreases |es|
  {
    var front, e := Front(es), Last(es);
    var b := TsoState(m, front).Buffer(t);
    if e.Store? && e.t == t && j == |b| {
      i := |es| - 1;
    } else {
      i := BufferedIsPending(m, front, t, if e.Flush? && e.t == t && b != [] then j + 1 else j);
    }
  }

  /** Between a store and a later load of its thread from another address there is a fence, or a compare-and-swap. */
  ghost predicate Fenced(es: seq<Event>) {
    forall i, j ::
      0 <= i < j < |es| && es[i].Store? && es[j].Load? && es[i].t == es[j].t && es[i].addr != es[j].addr ==>
      exists k :: i < k < j && Drains(es[k], es[i].t)
  }

  /** Fences keep loads from bypassing, so fenced programs run as if there were no buffers. */
  lemma {:induction false} FencedDoesNotBypass(m: Memory, es: seq<Event>)
    requires Fenced(es)
    ensures NoBypass(m, es)
    decreases |es|
  {
    if es != [] {
      var front, e := Front(es), Last(es);
      assert Fenced(front) by {
        FencedFront(es);
      }
      FencedDoesNotBypass(m, front);
      if e.Load? {
        var b := TsoState(m, front).Buffer(e.t);
        forall j | 0 <= j < |b|
          ensures b[j].addr == e.addr
        {
          var i := BufferedIsPending(m, front, e.t, j);
          assert es[i] == front[i] && es[|es| - 1] == e;
          assert forall k :: i < k < |front| ==> es[k] == front[k];
        }
      }
    }
  }

  lemma FencedFront(es: seq<Event>)
    requires es != [] && Fenced(es)
    ensures Fenced(Front(es))
  {
    var front := Front(es);
    forall i, j | 0 <= i < j < |front| && front[i].Store? && front[j].Load? && front[i].t == front[j].t
                  && front[i].addr != front[j].addr
      ensures exists k :: i < k < j && Drains(front[k], front[i].t)
    {
      assert es[i] == front[i] && es[j] == front[j];
      var k :| i < k < j && Drains(es[k], es[i].t);
      assert front[k] == es[k];
    }
  }

  lemma FencedIsSequentiallyConsistent(m: Memory, es: seq<Event>, n: nat)
    requires TsoRun(m, es) && Fenced(es) && ThreadsBelow(es, n)
    ensures SequentiallyConsistent(m, es)
  {
    FencedDoesNotBypass(m, es);
    NoBypassIsSequentiallyConsistent(m, es, n);
  }

  // ----- buffers that are flushed at once -----

  /** A run without buffers, as one with buffers in which every store is flushed at once. */
  function Eager(es: seq<Event>): seq<Event> {
    if es == [] then []
    else Eager(Front(es)) + [Last(es)] + (if Last(es).Store? then [Flush(Last(es).t, 0, Last(es).t)] else [])
  }

  lemma TsoMore(m: Memory, es: seq<Event>, e: Event)
    ensures TsoRun(m, es + [e]) <==> TsoRun(m, es) && TsoEnabled(TsoState(m, es), e)
    ensures TsoState(m, es + [e]) == TsoNext(TsoState(m, es), e)
  {
    assert Front(es + [e]) == es;
  }

  /** Whatever can happen without buffers can happen under TSO. */
  lemma {:induction false} ScRunsUnderTso(m: Memory, es: seq<Event>)
    requires ScRun(m, es)
    ensures TsoRun(m, Eager(es)) && TsoState(m, Eager(es)).memory == ScMemory(m, es)
    ensures forall t: Thread :: TsoState(m, Eager(es)).Buffer(t) == []
    ensures SamePrograms(Eager(es), es)
    decreases |es|
  {
    if es != [] {
      var front, e := Front(es), Last(es);
      assert es == front + [e];
      ScConcat(m, front, [e]);
      ScOne(ScMemory(m, front), e);
      ScRunsUnderTso(m, front);
      EagerStep(m, Eager(front), e, ScMemory(m, front));
      forall t: Thread
        ensures ProgramOf(Eager(es), t) == ProgramOf(es, t)
      {
        ProgramConcat(Eager(front), [e], t);
        ProgramOne(e, t);
        if e.Store? {
          ProgramConcat(Eager(front) + [e], [Flush(e.t, 0, e.t)], t);
          ProgramOne(Flush(e.t, 0, e.t), t);
        } else {
          assert Eager(front) + [e] + [] == Eager(front) + [e];
        }
      }
    }
  }

  lemma EagerStep(m: Memory, es: seq<Event>, e: Event, mem: Memory)
    requires TsoRun(m, es) && TsoState(m, es).memory == mem && ScEnabled(mem, e)
    requires forall t: Thread :: TsoState(m, es).Buffer(t) == []
    ensures var es' := es + [e] + (if e.Store? then [Flush(e.t, 0, e.t)] else []);
            && TsoRun(m, es') && TsoState(m, es').memory == ScNext(mem, e)
            && forall t: Thread :: TsoState(m, es').Buffer(t) == []
  {
    hide TsoRun, TsoState;
    TsoMore(m, es, e);
    var s := TsoState(m, es);
    assert TsoRead(s, e.t, if e.Load? then e.addr else 0) == Read(mem, if e.Load? then e.addr else 0);
    assert Drain(mem, []) == mem;
    if e.Store? {
      assert s.Buffer(e.t) + [EntryOf(e)] == [EntryOf(e)] && [EntryOf(e)][1..] == [];
      var f, s' := Flush(e.t, 0, e.t), TsoNext(s, e);
      TsoMore(m, es + [e], f);
      assert s'.Buffer(e.t) == [EntryOf(e)] && TsoNext(s', f).Buffer(e.t) == [];
      forall t: Thread
        ensures TsoNext(s', f).Buffer(t) == []
      {
        OthersKeepBuffers(s, e, t);
        OthersKeepBuffers(s', f, t);
      }
    } else {
      assert es + [e] + [] == es + [e] && TsoNext(s, e).Buffer(e.t) == [];
      forall t: Thread
        ensures TsoNext(s, e).Buffer(t) == []
      {
        OthersKeepBuffers(s, e, t);
      }
    }
  }
}
