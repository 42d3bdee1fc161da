/**
  PSO next to TSO. A PSO state matches a TSO state if its buffers are the buffers of TSO, sorted by
  address. Every run under TSO is one under PSO; and a run under PSO in which no load, store or
  compare-and-swap passes a buffered store to another address is sequentially consistent.
*/
module PartialStoreOrder {
  import opened Common
  import opened StoreBuffers
  import opened SequentialConsistency

  /** The stores of the buffer to one address. */
  function Only(b: seq<Entry>, a: Address): seq<Entry> {
    if b == [] then [] else Only(Front(b), a) + (if Last(b).addr == a then [Last(b)] else [])
  }

  ghost predicate Matches(p: Pso, s: Tso) {
    p.memory == s.memory && forall t: Thread, a: Address :: p.Buffer(t, a) == Only(s.Buffer(t), a)
  }

  // ----- buffers sorted by address -----

  lemma {:induction false} NewestIsLast(b: seq<Entry>, a: Address)
    ensures Newest(b, a) == if Only(b, a) == [] then None else Some(Last(Only(b, a)).val)
    decreases |b|
  {
    if b != [] {
      NewestIsLast(Front(b), a);
    }
  }

  lemma {:induction false} OnlyEmpty(b: seq<Entry>, a: Address)
    ensures Only(b, a) == [] <==> forall i :: 0 <= i < |b| ==> b[i].addr != a
    decreases |b|
  {
    if b != [] {
      OnlyEmpty(Front(b), a);
    }
  }

  lemma {:induction false} OnlyAll(b: seq<Entry>, a: Address)
    requires AllAt(b, a)
    ensures Only(b, a) == b
    decreases |b|
  {
    if b != [] {
      OnlyAll(Front(b), a);
      assert b == Front(b) + [Last(b)] && Last(b).addr == a;
    }
  }

  lemma OnlyMore(b: seq<Entry>, x: Entry, a: Address)
    ensures Only(b + [x], a) == if x.addr == a then Only(b, a) + [x] else Only(b, a)
  {
    assert Front(b + [x]) == b;
    assert Only(b, a) + [] == Only(b, a);
  }

  lemma {:induction false} OnlyTail(b: seq<Entry>, a: Address)
    requires b != []
    ensures b[0].addr == a ==> Only(b, a) != [] && Only(b, a)[0] == b[0] && Only(b[1..], a) == Only(b, a)[1..]
    ensures b[0].addr != a ==> Only(b[1..], a) == Only(b, a)
    decreases |b|
  {
    if |b| == 1 {
      assert Front(b) == [] && b[1..] == [];
    } else {
      OnlyTail(Front(b), a);
      assert Front(b[1..]) == Front(b)[1..];
      assert b[0].addr == a ==>
          Only(b, a)[1..] == Only(Front(b), a)[1..] + (if Last(b).addr == a then [Last(b)] else []);
    }
  }

  /** Draining leaves, at every address, the last buffered store to it. */
  lemma {:induction false} DrainAt(m: Memory, b: seq<Entry>, a: Address)
    ensures a in Drain(m, b) <==> a in m || Only(b, a) != []
    ensures a in Drain(m, b) ==> Drain(m, b)[a] == if Only(b, a) == [] then m[a] else Last(Only(b, a)).val
    decreases |b|
  {
    if b != [] {
      DrainAt(m, Front(b), a);
      assert b == Front(b) + [Last(b)];
      DrainLast(m, Front(b), Last(b));
    }
  }

  lemma DrainsTheSame(p: Pso, s: Tso, t: Thread)
    requires Matches(p, s)
    ensures DrainAll(p.memory, p.Buffers(t)) == Drain(s.memory, s.Buffer(t))
  {
    var x, y := DrainAll(p.memory, p.Buffers(t)), Drain(s.memory, s.Buffer(t));
    forall a: Address
      ensures (a in x <==> a in y) && (a in x ==> x[a] == y[a])
    {
      DrainAt(s.memory, s.Buffer(t), a);
      assert p.Buffer(t, a) == Only(s.Buffer(t), a);
    }
  }

  // ----- steps that match -----

  lemma StoreMatches(p: Pso, s: Tso, e: Event)
    requires Matches(p, s) && e.Store?
    ensures Matches(PsoNext(p, e), TsoNext(s, e))
  {
    assert PsoNext(p, e).memory == TsoNext(s, e).memory;
    hide PsoNext, TsoNext;
    forall t: Thread, a: Address
      ensures PsoNext(p, e).Buffer(t, a) == Only(TsoNext(s, e).Buffer(t), a)
    {
      assert p.Buffer(t, a) == Only(s.Buffer(t), a);
      StoreBufferMatches(p, s, e, t, a);
    }
  }

  lemma StoreBufferMatches(p: Pso, s: Tso, e: Event, t: Thread, a: Address)
    requires e.Store? && p.Buffer(t, a) == Only(s.Buffer(t), a)
    ensures PsoNext(p, e).Buffer(t, a) == Only(TsoNext(s, e).Buffer(t), a)
  {
    var x := Entry(e.addr, e.val, e.instr);
    OnlyMore(s.Buffer(t), x, a);
    BufferWith(p, e.t, e.addr, p.Buffer(e.t, e.addr) + [x], t, a);
    hide Only, Pso.Buffer, Pso.With;
  }

  lemma BufferWith(p: Pso, t: Thread, a: Address, b: seq<Entry>, u: Thread, c: Address)
    ensures p.With(t, a, b).Buffer(u, c) == if u == t && c == a then b else p.Buffer(u, c)
  {
  }

  lemma LoadMatches(p: Pso, s: Tso, t: Thread, a: Address)
    requires Matches(p, s)
    ensures PsoRead(p, t, a) == TsoRead(s, t, a)
  {
    NewestIsLast(s.Buffer(t), a);
    assert p.Buffer(t, a) == Only(s.Buffer(t), a);
  }

  /** Both fences of PSO do what the store-load fence of TSO does. */
  lemma FenceMatches(p: Pso, s: Tso, e: Event)
    requires Matches(p, s) && (e.Fence? || e.StoreFence?)
    ensures Matches(PsoNext(p, e), TsoNext(s, Fence(e.t)))
  {
    DrainsTheSame(p, s, e.t);
    hide Drain, DrainAll;
    forall t: Thread, a: Address
      ensures PsoNext(p, e).Buffer(t, a) == Only(TsoNext(s, Fence(e.t)).Buffer(t), a)
    {
      assert p.Buffer(t, a) == Only(s.Buffer(t), a);
    }
  }

  lemma FlushMatches(p: Pso, s: Tso, e: Event, f: Event)
    requires Matches(p, s) && e.Flush? && f.Flush? && e.t == f.t
    requires s.Buffer(e.t) != [] && f.addr == s.Buffer(e.t)[0].addr
    ensures Matches(PsoNext(p, f), TsoNext(s, e))
  {
    var b := s.Buffer(e.t);
    assert p.Buffer(f.t, f.addr) == Only(b, f.addr);
    OnlyTail(b, f.addr);
    hide Only;
    forall t: Thread, a: Address
      ensures PsoNext(p, f).Buffer(t, a) == Only(TsoNext(s, e).Buffer(t), a)
    {
      assert p.Buffer(t, a) == Only(s.Buffer(t), a);
      FlushedBuffer(p, s, e, f, t, a);
    }
  }

  /** A flush takes the oldest store from the one buffer of PSO that holds it. */
  lemma FlushedBuffer(p: Pso, s: Tso, e: Event, f: Event, t: Thread, a: Address)
    requires e.Flush? && f.Flush? && e.t == f.t && s.Buffer(e.t) != [] && f.addr == s.Buffer(e.t)[0].addr
    requires p.Buffer(t, a) == Only(s.Buffer(t), a) && p.Buffer(f.t, f.addr) == Only(s.Buffer(f.t), f.addr)
    ensures PsoNext(p, f).Buffer(t, a) == Only(TsoNext(s, e).Buffer(t), a)
  {
    OnlyTail(s.Buffer(e.t), a);
    OnlyTail(s.Buffer(e.t), f.addr);
    hide Only;
  }

  /** A compare-and-swap of a thread that buffers nothing to other addresses. */
  lemma CasMatches(p: Pso, s: Tso, e: Event)
    requires Matches(p, s) && e.Cas? && AllAt(s.Buffer(e.t), e.addr)
    ensures PsoEnabled(p, e) <==> TsoEnabled(s, e)
    ensures Matches(PsoNext(p, e), TsoNext(s, e))
  {
    CasMemoryMatches(p, s, e);
    hide PsoEnabled, TsoEnabled, PsoNext, TsoNext;
    forall t: Thread, a: Address
      ensures PsoNext(p, e).Buffer(t, a) == Only(TsoNext(s, e).Buffer(t), a)
    {
      assert p.Buffer(t, a) == Only(s.Buffer(t), a);
      CasBufferMatches(p, s, e, t, a);
    }
  }

  lemma CasMemoryMatches(p: Pso, s: Tso, e: Event)
    requires Matches(p, s) && e.Cas? && AllAt(s.Buffer(e.t), e.addr)
    ensures PsoEnabled(p, e) <==> TsoEnabled(s, e)
    ensures PsoNext(p, e).memory == TsoNext(s, e).memory
  {
    var b := s.Buffer(e.t);
    assert p.Buffer(e.t, e.addr) == Only(b, e.addr);
    OnlyAll(b, e.addr);
    DrainsAtOne(s.memory, e.addr, b);
    hide Drain, Only;
  }

  lemma CasBufferMatches(p: Pso, s: Tso, e: Event, t: Thread, a: Address)
    requires p.Buffer(t, a) == Only(s.Buffer(t), a) && e.Cas? && AllAt(s.Buffer(e.t), e.addr)
    ensures PsoNext(p, e).Buffer(t, a) == Only(TsoNext(s, e).Buffer(t), a)
  {
    OnlyEmpty(s.Buffer(e.t), a);
    assert Only([], a) == [];
    hide Drain, DrainOne, ScNext, Only;
  }

  lemma DrainsAtOne(m: Memory, a: Address, b: seq<Entry>)
    requires AllAt(b, a)
    ensures Drain(m, b) == DrainOne(m, a, b)
  {
    var x, y := Drain(m, b), DrainOne(m, a, b);
    forall c: Address
      ensures (c in x <==> c in y) && (c in x ==> x[c] == y[c])
    {
      DrainAt(m, b, c);
      OnlyEmpty(b, c);
      if c == a {
        OnlyAll(b, a);
      }
    }
  }

  // ----- every run under TSO is one under PSO -----

  /** Flushes of a whole buffer, oldest first. */
  function Flushes(b: seq<Entry>, t: Thread): seq<Event> {
    if b == [] then [] else [Flush(t, b[0].addr, t)] + Flushes(b[1..], t)
  }

  /** The events of PSO for one of TSO: a flush names the address; a compare-and-swap, which drains the
      whole buffer under TSO only, comes behind flushes. */
  function PsoEvents(s: Tso, e: Event): seq<Event> {
    match e
    case Flush(t, _, c) => if s.Buffer(t) == [] then [] else [Flush(t, s.Buffer(t)[0].addr, c)]
    case Cas(t, _, _, _, _, _) => Flushes(s.Buffer(t), t) + [e]
    case _ => [e]
  }

  function ToPso(m: Memory, es: seq<Event>): seq<Event> {
    if es == [] then [] else ToPso(m, Front(es)) + PsoEvents(TsoState(m, Front(es)), Last(es))
  }

  lemma PsoOne(m: Memory, es: seq<Event>, e: Event)
    ensures PsoRun(m, es + [e]) <==> PsoRun(m, es) && PsoEnabled(PsoState(m, es), e)
    ensures PsoState(m, es + [e]) == PsoNext(PsoState(m, es), e)
  {
    assert Front(es + [e]) == es;
  }

  lemma {:induction false} FlushesRun(m: Memory, es: seq<Event>, s: Tso, t: Thread)
    requires PsoRun(m, es) && Matches(PsoState(m, es), s)
    ensures var b := s.Buffer(t);
            && PsoRun(m, es + Flushes(b, t))
            && Matches(PsoState(m, es + Flushes(b, t)), s.With(t, []).(memory := Drain(s.memory, b)))
    decreases |s.Buffer(t)|
  {
    hide PsoRun, PsoState, Matches;
    var b := s.Buffer(t);
    if b == [] {
      assert es + Flushes(b, t) == es;
      EmptyMatches(PsoState(m, es), s, t);
    } else {
      var f, s' := Flush(t, b[0].addr, t), TsoNext(s, Flush(t, b[0].addr, t));
      PsoOne(m, es, f);
      FlushMatches(PsoState(m, es), s, f, f);
      FlushesRun(m, es + [f], s', t);
      assert es + [f] + Flushes(b[1..], t) == es + Flushes(b, t);
      assert s'.With(t, []).(memory := Drain(s'.memory, b[1..])) == s.With(t, []).(memory := Drain(s.memory, b));
    }
  }

  lemma EmptyMatches(p: Pso, s: Tso, t: Thread)
    requires Matches(p, s) && s.Buffer(t) == []
    ensures Matches(p, s.With(t, []).(memory := Drain(s.memory, [])))
  {
    var s' := s.With(t, []);
    forall u: Thread, a: Address
      ensures p.Buffer(u, a) == Only(s'.Buffer(u), a)
    {
      assert p.Buffer(u, a) == Only(s.Buffer(u), a);
    }
  }

  lemma FlushesHaveNoProgram(b: seq<Entry>, t: Thread, u: Thread)
    ensures ProgramOf(Flushes(b, t), u) == []
    decreases |b|
  {
    if b != [] {
      var f := Flush(t, b[0].addr, t);
      ProgramConcat([f], Flushes(b[1..], t), u);
      ProgramOne(f, u);
      FlushesHaveNoProgram(b[1..], t, u);
    }
  }

  lemma PsoEventsProgram(s: Tso, e: Event, u: Thread)
    ensures ProgramOf(PsoEvents(s, e), u) == ProgramOf([e], u)
  {
    match e
    case Flush(t, _, c) =>
      ProgramOne(e, u);
      if s.Buffer(t) != [] {
        ProgramOne(Flush(t, s.Buffer(t)[0].addr, c), u);
      }
    case Cas(t, _, _, _, _, _) =>
      ProgramConcat(Flushes(s.Buffer(t), t), [e], u);
      FlushesHaveNoProgram(s.Buffer(t), t, u);
    case _ =>
  }

  lemma PsoStep(m: Memory, es: seq<Event>, s: Tso, e: Event)
    requires PsoRun(m, es) && Matches(PsoState(m, es), s) && TsoEnabled(s, e) && !e.StoreFence?
    ensures PsoRun(m, es + PsoEvents(s, e)) && Matches(PsoState(m, es + PsoEvents(s, e)), TsoNext(s, e))
  {
    hide PsoRun, PsoState, Matches;
    var p := PsoState(m, es);
    PsoOne(m, es, e);
    match e
    case Store(_, _, _, _) => StoreMatches(p, s, e);
    case Load(t, a, _, _) => LoadMatches(p, s, t, a);
    case Fence(_) => FenceMatches(p, s, e);
    case Flush(t, _, c) =>
      if s.Buffer(t) == [] {
        assert es + [] == es;
      } else {
        var f := Flush(t, s.Buffer(t)[0].addr, c);
        PsoOne(m, es, f);
        FlushMatches(p, s, e, f);
      }
    case Cas(t, _, _, _, _, _) =>
      var fs := Flushes(s.Buffer(t), t);
      var s' := s.With(t, []).(memory := Drain(s.memory, s.Buffer(t)));
      FlushesRun(m, es, s, t);
      PsoOne(m, es + fs, e);
      assert es + (fs + [e]) == es + fs + [e];
      CasMatches(PsoState(m, es + fs), s', e);
      assert TsoNext(s', e).buffers == TsoNext(s, e).buffers;
  }

  /**
    Whatever can happen under TSO can happen under PSO, with the same results and the same memory; but
    not around store-store fences, which do nothing under TSO and drain all buffers under PSO.
  */
  lemma {:induction false} TsoRunsUnderPso(m: Memory, es: seq<Event>)
    requires TsoRun(m, es) && forall i :: 0 <= i < |es| ==> !es[i].StoreFence?
    ensures PsoRun(m, ToPso(m, es)) && Matches(PsoState(m, ToPso(m, es)), TsoState(m, es))
    ensures SamePrograms(ToPso(m, es), es)
    decreases |es|
  {
    hide Matches, PsoEvents, TsoEnabled, PsoEnabled;
    if es == [] {
      NothingMatches(m);
    } else {
      var front, e := Front(es), Last(es);
      TsoRunsUnderPso(m, front);
      PsoStep(m, ToPso(m, front), TsoState(m, front), e);
      ToPsoProgram(m, es);
    }
  }

  lemma ToPsoProgram(m: Memory, es: seq<Event>)
    requires es != [] && SamePrograms(ToPso(m, Front(es)), Front(es))
    ensures SamePrograms(ToPso(m, es), es)
  {
    hide PsoEvents, ProgramOf;
    var front, e := Front(es), Last(es);
    assert es == front + [e];
    forall t: Thread
      ensures ProgramOf(ToPso(m, es), t) == ProgramOf(es, t)
    {
      ProgramConcat(ToPso(m, front), PsoEvents(TsoState(m, front), e), t);
      PsoEventsProgram(TsoState(m, front), e, t);
      ProgramConcat(front, [e], t);
    }
  }

  lemma NothingMatches(m: Memory)
    ensures Matches(Pso(m, map[]), Tso(m, map[]))
  {
  }

  // ----- runs under PSO that nobody can tell from runs without buffers -----

  /** No load, store or compare-and-swap while the thread has a store to another address buffered. */
  ghost predicate PsoNoBypass(m: Memory, es: seq<Event>) {
    es == [] || (PsoNoBypass(m, Front(es)) && PsoNoBypassBy(PsoState(m, Front(es)), Last(es)))
  }

  ghost predicate PsoNoBypassBy(p: Pso, e: Event) {
    e.Store? || e.Load? || e.Cas? ==> forall a: Address :: a != e.addr ==> p.Buffer(e.t, a) == []
  }

  /** The same run under TSO; flushes of empty buffers are left out, and every fence is a store-load fence. */
  function ToTso(m: Memory, es: seq<Event>): seq<Event> {
    if es == [] then []
    else ToTso(m, Front(es)) + TsoEvents(PsoState(m, Front(es)), Last(es))
  }

  function ForTso(e: Event): Event {
    if e.StoreFence? then Fence(e.t) else e
  }

  function TsoEvents(p: Pso, e: Event): seq<Event> {
    if e.Flush? && p.Buffer(e.t, e.addr) == [] then [] else [ForTso(e)]
  }

  /** Every thread buffers stores to one address only. */
  ghost predicate OneAddress(s: Tso) {
    forall t: Thread :: OneAddressOf(s.Buffer(t))
  }

  ghost predicate OneAddressOf(b: seq<Entry>) {
    b != [] ==> AllAt(b, b[0].addr)
  }

  lemma NoOtherAddress(p: Pso, s: Tso, t: Thread, a: Address)
    requires Matches(p, s) && forall c: Address :: c != a ==> p.Buffer(t, c) == []
    ensures AllAt(s.Buffer(t), a)
  {
    var b := s.Buffer(t);
    forall i | 0 <= i < |b|
      ensures b[i].addr == a
    {
      assert p.Buffer(t, b[i].addr) == Only(b, b[i].addr);
      OnlyEmpty(b, b[i].addr);
    }
  }

  lemma TsoStep(p: Pso, s: Tso, e: Event)
    requires Matches(p, s) && OneAddress(s) && PsoEnabled(p, e) && PsoNoBypassBy(p, e)
    requires !(e.Flush? && p.Buffer(e.t, e.addr) == [])
    ensures TsoEnabled(s, ForTso(e)) && NoBypassBy(s, ForTso(e))
    ensures Matches(PsoNext(p, e), TsoNext(s, ForTso(e))) && OneAddressOf(TsoNext(s, ForTso(e)).Buffer(e.t))
  {
    hide Matches, PsoNext;
    var b := s.Buffer(e.t);
    assert OneAddressOf(b);
    if e.Store? || e.Load? || e.Cas? {
      NoOtherAddress(p, s, e.t, e.addr);
    }
    match e
    case Store(_, _, _, _) => StoreMatches(p, s, e);
    case Load(t, a, _, _) =>
      LoadMatches(p, s, t, a);
      LoadLeaves(p, e);
    case Fence(_) => FenceMatches(p, s, e);
    case StoreFence(_) => FenceMatches(p, s, e);
    case Cas(_, _, _, _, _, _) => CasMatches(p, s, e);
    case Flush(t, a, c) =>
      FlushedAddress(p, s, t, a);
      FlushMatches(p, s, e, e);
  }

  lemma LoadLeaves(p: Pso, e: Event)
    requires e.Load?
    ensures PsoNext(p, e) == p
  {
  }

  lemma FlushedAddress(p: Pso, s: Tso, t: Thread, a: Address)
    requires Matches(p, s) && OneAddressOf(s.Buffer(t)) && p.Buffer(t, a) != []
    ensures s.Buffer(t) != [] && s.Buffer(t)[0].addr == a
  {
    assert p.Buffer(t, a) == Only(s.Buffer(t), a);
    OnlyEmpty(s.Buffer(t), a);
  }

  lemma {:induction false} NoBypassUnderTso(m: Memory, es: seq<Event>)
    requires PsoRun(m, es) && PsoNoBypass(m, es)
    ensures var ts := ToTso(m, es);
            && TsoRun(m, ts) && NoBypass(m, ts) && SamePrograms(ts, es)
            && Matches(PsoState(m, es), TsoState(m, ts)) && OneAddress(TsoState(m, ts))
    decreases |es|
  {
    hide Matches, TsoEnabled, PsoEnabled, NoBypassBy, PsoNoBypassBy, OneAddressOf, TsoNext, PsoNext, ProgramOf;
    if es == [] {
      NothingMatches(m);
      assert OneAddress(TsoState(m, [])) by {
        NothingOneAddress(m);
      }
    } else {
      var front, e := Front(es), Last(es);
      NoBypassUnderTso(m, front);
      var ts, p, s := ToTso(m, front), PsoState(m, front), TsoState(m, ToTso(m, front));
      ToTsoProgram(m, es);
      if e.Flush? && p.Buffer(e.t, e.addr) == [] {
        assert ToTso(m, es) == ts;
        EmptyFlush(p, e);
      } else {
        var f := ForTso(e);
        TsoStep(p, s, e);
        assert Front(ts + [f]) == ts && Last(ts + [f]) == f;
        forall t: Thread
          ensures OneAddressOf(TsoNext(s, f).Buffer(t))
        {
          OthersKeepBuffers(s, f, t);
          assert OneAddressOf(s.Buffer(t));
        }
      }
    }
  }

  lemma NothingOneAddress(m: Memory)
    ensures OneAddress(Tso(m, map[]))
  {
  }

  lemma EmptyFlush(p: Pso, e: Event)
    requires e.Flush? && p.Buffer(e.t, e.addr) == []
    ensures PsoNext(p, e) == p
  {
  }

  lemma ToTsoProgram(m: Memory, es: seq<Event>)
    requires es != [] && SamePrograms(ToTso(m, Front(es)), Front(es))
    ensures SamePrograms(ToTso(m, es), es)
  {
    var front, e := Front(es), Last(es);
    assert es == front + [e];
    forall t: Thread
      ensures ProgramOf(ToTso(m, es), t) == ProgramOf(es, t)
    {
      ProgramConcat(ToTso(m, front), TsoEvents(PsoState(m, front), e), t);
      ProgramConcat(front, [e], t);
      ProgramOne(e, t);
      ProgramOne(ForTso(e), t);
    }
  }

  /** Under PSO too, a run that bypasses nothing is sequentially consistent. */
  lemma PsoNoBypassIsSequentiallyConsistent(m: Memory, es: seq<Event>, n: nat)
    requires PsoRun(m, es) && PsoNoBypass(m, es) && ThreadsBelow(es, n)
    ensures SequentiallyConsistent(m, es)
  {
    hide TsoRun, NoBypass, PsoRun, PsoNoBypass, Matches, OneAddress;
    NoBypassUnderTso(m, es);
    var ts := ToTso(m, es);
    ToTsoBelow(m, es, n);
    NoBypassIsSequentiallyConsistent(m, ts, n);
    var sc: seq<Event> :| ScRun(m, sc) && SamePrograms(sc, ts);
    assert SamePrograms(sc, es);
  }

  lemma {:induction false} ToTsoBelow(m: Memory, es: seq<Event>, n: nat)
    requires ThreadsBelow(es, n)
    ensures ThreadsBelow(ToTso(m, es), n)
    decreases |es|
  {
    if es != [] {
      ToTsoBelow(m, Front(es), n);
    }
  }

  // ----- fences under PSO -----

  /** Empties the buffer of address `a`: either fence, or a compare-and-swap there. */
  ghost predicate PsoDrains(e: Event, t: Thread, a: Address) {
    e.t == t && (e.Fence? || e.StoreFence? || (e.Cas? && e.addr == a))
  }

  /** Store `i` of the run is buffered by thread `t` as `x`, and not drained since. */
  ghost predicate PsoPending(es: seq<Event>, t: Thread, x: Entry, i: nat) {
    && i < |es| && es[i].Store? && es[i].t == t && EntryOf(es[i]) == x
    && forall k :: i < k < |es| ==> !PsoDrains(es[k], t, x.addr)
  }

  lemma BufferAfter(p: Pso, e: Event, t: Thread, a: Address)
    ensures var b := p.Buffer(t, a);
            PsoNext(p, e).Buffer(t, a) ==
              if PsoDrains(e, t, a) then []
              else if e.Store? && e.t == t && e.addr == a then b + [EntryOf(e)]
              else if e.Flush? && e.t == t && e.addr == a && b != [] then b[1..]
              else b
  {
    hide DrainAll, DrainOne;
  }

  lemma {:induction false} PsoBufferedIsPending(m: Memory, es: seq<Event>, t: Thread, a: Address, j: nat)
    returns (i: nat)
    requires j < |PsoState(m, es).Buffer(t, a)|
    ensures PsoState(m, es).Buffer(t, a)[j].addr == a && PsoPending(es, t, PsoState(m, es).Buffer(t, a)[j], i)
    decreases |es|
  {
    var front, e := Front(es), Last(es);
    var b := PsoState(m, front).Buffer(t, a);
    BufferAfter(PsoState(m, front), e, t, a);
    assert PsoState(m, es) == PsoNext(PsoState(m, front), e);
    hide PsoState, PsoNext;
    if e.Store? && e.t == t && e.addr == a && j == |b| {
      i := |es| - 1;
    } else {
      i := PsoBufferedIsPending(m, front, t, a, if e.Flush? && e.t == t && e.addr == a && b != [] then j + 1 else j);
      forall k | i < k < |es|
        ensures !PsoDrains(es[k], t, a)
      {
        assert k < |front| ==> es[k] == front[k];
      }
    }
  }

  /** Between a store and a later access of its thread to another address the store's buffer is emptied. */
  ghost predicate PsoFenced(es: seq<Event>) {
    forall i, j :: 0 <= i < j < |es| && es[i].Store? && Visible(es[j]) && es[i].t == es[j].t
                   && es[i].addr != es[j].addr ==>
      exists k :: i < k < j && PsoDrains(es[k], es[i].t, es[i].addr)
  }

  lemma PsoFencedFront(es: seq<Event>)
    requires es != [] && PsoFenced(es)
    ensures PsoFenced(Front(es))
  {
    var front := Front(es);
    forall i, j | 0 <= i < j < |front| && front[i].Store? && Visible(front[j]) && front[i].t == front[j].t
                  && front[i].addr != front[j].addr
      ensures exists k :: i < k < j && PsoDrains(front[k], front[i].t, front[i].addr)
    {
      assert es[i] == front[i] && es[j] == front[j];
      var k :| i < k < j && PsoDrains(es[k], es[i].t, es[i].addr);
      assert front[k] == es[k];
    }
  }

  lemma {:induction false} PsoFencedDoesNotBypass(m: Memory, es: seq<Event>)
    requires PsoFenced(es)
    ensures PsoNoBypass(m, es)
    decreases |es|
  {
    if es != [] {
      var front, e := Front(es), Last(es);
      PsoFencedFront(es);
      PsoFencedDoesNotBypass(m, front);
      if Visible(e) {
        forall a: Address | a != e.addr
          ensures PsoState(m, front).Buffer(e.t, a) == []
        {
          FencedBufferIsEmpty(m, es, a);
        }
      }
    }
  }

  lemma PendingIsNotFenced(es: seq<Event>, x: Entry, i: nat)
    requires es != [] && Visible(Last(es)) && x.addr != Last(es).addr && PsoPending(Front(es), Last(es).t, x, i)
    ensures !PsoFenced(es)
  {
    var front, j := Front(es), |es| - 1;
    assert es[i] == front[i] && es[j] == Last(es);
    forall k | i < k < j
      ensures !PsoDrains(es[k], es[i].t, es[i].addr)
    {
      assert es[k] == front[k];
    }
  }

  lemma FencedBufferIsEmpty(m: Memory, es: seq<Event>, a: Address)
    requires es != [] && PsoFenced(es) && Visible(Last(es)) && a != Last(es).addr
    ensures PsoState(m, Front(es)).Buffer(Last(es).t, a) == []
  {
    hide PsoState;
    var front, e := Front(es), Last(es);
    if PsoState(m, front).Buffer(e.t, a) != [] {
      var i := PsoBufferedIsPending(m, front, e.t, a, 0);
      PendingIsNotFenced(es, PsoState(m, front).Buffer(e.t, a)[0], i);
    }
  }

  /** So fences between stores and later accesses are enough under PSO. */
  lemma PsoFencedIsSequentiallyConsistent(m: Memory, es: seq<Event>, n: nat)
    requires PsoRun(m, es) && PsoFenced(es) && ThreadsBelow(es, n)
    ensures SequentiallyConsistent(m, es)
  {
    PsoFencedDoesNotBypass(m, es);
    PsoNoBypassIsSequentiallyConsistent(m, es, n);
  }
}
