/**
  The generator under PSO. It rebuilds one buffer per thread and address and notes the pairs of a
  buffered store with a later load or store of another address. As long as the rebuilt buffers are the
  real ones it finds every bypass but those of a compare-and-swap that fails, which is not recorded as
  an access.
*/
module PsoConstraints {
  import opened Common
  import opened StoreBuffers
  import opened SequentialConsistency
  import opened PartialStoreOrder
  import opened FenceConstraints

  // ----- what the interpreter records under PSO -----

  function PsoRecords(e: Event): seq<Rec> {
    match e
    case Store(t, a, _, l) => [Rec(t, WRITE, a, l)]
    case Load(t, a, _, l) => [Rec(t, READ, a, l)]
    case Fence(t) => [Rec(t, FLUSH_FENCE, 0, 0)]
    case StoreFence(t) => [Rec(t, FLUSH_FENCE, 0, 0)]
    case Cas(t, a, _, _, ok, l) => (if ok then [Rec(t, WRITE, a, l)] else []) + [Rec(t, FLUSH_CAS_PSO, a, -1)]
    case Flush(_, a, current) => [Rec(current, FLUSH_RANDOM_PSO, a, -1)]
  }

  function PsoRecordsOf(es: seq<Event>): seq<Rec> {
    if es == [] then [] else PsoRecordsOf(Front(es)) + PsoRecords(Last(es))
  }

  // ----- the generator -----

  /** The rebuilt buffers, and the pairs to be kept apart by store-load and store-store fences. */
  datatype PsoScan = PsoScan(buffers: map<Address, seq<Rec>>, loads: set<(int, int)>, stores: set<(int, int)>) {
    function Buffer(a: Address): seq<Rec> {
      if a in buffers then buffers[a] else []
    }
  }

  /** All buffered stores to other addresses, paired with `r`. */
  function PassedIn(s: PsoScan, r: Rec): set<(int, int)> {
    set a, i | a in s.buffers && 0 <= i < |s.buffers[a]| && s.buffers[a][i].location != r.location
      :: (s.buffers[a][i].instr, r.instr)
  }

  function PsoScanNext(s: PsoScan, r: Rec): PsoScan {
    if r.instr == 0 then s.(buffers := map[])
    else
      match r.kind
      case READ => s.(loads := s.loads + PassedIn(s, r))
      case WRITE =>
        s.(stores := s.stores + PassedIn(s, r), buffers := s.buffers[r.location := s.Buffer(r.location) + [r]])
      case FLUSH_RANDOM_PSO =>
        if s.Buffer(r.location) == [] then s
        else s.(buffers := s.buffers[r.location := s.Buffer(r.location)[1..]])
      case FLUSH_CAS_PSO => s.(buffers := s.buffers[r.location := []])
      case _ => s
  }

  function PsoScanOf(trace: seq<Rec>): PsoScan {
    if trace == [] then PsoScan(map[], {}, {}) else PsoScanNext(PsoScanOf(Front(trace)), Last(trace))
  }

  function PsoRebuilt(es: seq<Event>, t: Thread): PsoScan {
    PsoScanOf(TraceOf(PsoRecordsOf(es), t))
  }

  /** Accesses have labels other than 0. */
  predicate HasLabel(e: Event) {
    e.Store? || e.Load? || e.Cas? ==> e.instr != 0
  }

  ghost predicate AllLabelled(es: seq<Event>) {
    forall i :: 0 <= i < |es| ==> HasLabel(es[i])
  }

  function PsoScanAfter(s: PsoScan, e: Event, t: Thread): PsoScan {
    match e
    case Flush(_, a, current) => if current == t then PsoScanNext(s, Rec(t, FLUSH_RANDOM_PSO, a, -1)) else s
    case Cas(u, a, _, _, ok, l) =>
      if u != t then s
      else
        var s' := if ok then PsoScanNext(s, Rec(t, WRITE, a, l)) else s;
        PsoScanNext(s', Rec(t, FLUSH_CAS_PSO, a, -1))
    case Store(u, a, _, l) => if u == t then PsoScanNext(s, Rec(t, WRITE, a, l)) else s
    case Load(u, a, _, l) => if u == t then PsoScanNext(s, Rec(t, READ, a, l)) else s
    case _ => if e.t == t then PsoScanNext(s, Rec(t, FLUSH_FENCE, 0, 0)) else s
  }

  lemma PsoRecordMore(trace: seq<Rec>, r: Rec, t: Thread)
    ensures PsoScanOf(TraceOf(trace + [r], t)) ==
            if r.thr == t then PsoScanNext(PsoScanOf(TraceOf(trace, t)), r) else PsoScanOf(TraceOf(trace, t))
  {
    assert Front(trace + [r]) == trace && Last(trace + [r]) == r;
    if r.thr == t {
      assert Front(TraceOf(trace, t) + [r]) == TraceOf(trace, t);
    } else {
      assert TraceOf(trace, t) + [] == TraceOf(trace, t);
    }
  }

  function PsoScanMaybe(s: PsoScan, r: Rec, t: Thread): PsoScan {
    if r.thr == t then PsoScanNext(s, r) else s
  }

  lemma PsoRecordTwice(trace: seq<Rec>, r: Rec, r': Rec, t: Thread)
    ensures PsoScanOf(TraceOf(trace + [r, r'], t)) ==
      PsoScanMaybe(PsoScanMaybe(PsoScanOf(TraceOf(trace, t)), r, t), r', t)
  {
    hide PsoScanNext, PsoScanOf, TraceOf;
    PsoRecordMore(trace, r, t);
    PsoRecordMore(trace + [r], r', t);
    assert trace + [r, r'] == trace + [r] + [r'];
  }

  lemma OnePsoRecord(es: seq<Event>, e: Event, r: Rec, t: Thread)
    requires PsoRecords(e) == [r]
    ensures PsoRebuilt(es + [e], t) == PsoScanMaybe(PsoRebuilt(es, t), r, t)
  {
    assert Front(es + [e]) == es && Last(es + [e]) == e;
    hide PsoRecords, PsoScanNext, PsoScanOf, TraceOf;
    PsoRecordMore(PsoRecordsOf(es), r, t);
  }

  lemma TwoPsoRecords(es: seq<Event>, e: Event, r: Rec, r': Rec, t: Thread)
    requires PsoRecords(e) == [r, r']
    ensures PsoRebuilt(es + [e], t) == PsoScanMaybe(PsoScanMaybe(PsoRebuilt(es, t), r, t), r', t)
  {
    assert Front(es + [e]) == es && Last(es + [e]) == e;
    hide PsoRecords, PsoScanMaybe, PsoScanOf, TraceOf;
    PsoRecordTwice(PsoRecordsOf(es), r, r', t);
  }

  lemma PsoRebuiltMore(es: seq<Event>, e: Event, t: Thread)
    requires HasLabel(e)
    ensures PsoRebuilt(es + [e], t) == PsoScanAfter(PsoRebuilt(es, t), e, t)
  {
    hide PsoRebuilt, PsoScanNext;
    match e
    case Store(u, a, _, l) => OnePsoRecord(es, e, Rec(u, WRITE, a, l), t);
    case Load(u, a, _, l) => OnePsoRecord(es, e, Rec(u, READ, a, l), t);
    case Fence(u) => OnePsoRecord(es, e, Rec(u, FLUSH_FENCE, 0, 0), t);
    case StoreFence(u) => OnePsoRecord(es, e, Rec(u, FLUSH_FENCE, 0, 0), t);
    case Flush(_, a, current) => OnePsoRecord(es, e, Rec(current, FLUSH_RANDOM_PSO, a, -1), t);
    case Cas(u, a, _, _, ok, l) =>
      if ok {
        TwoPsoRecords(es, e, Rec(u, WRITE, a, l), Rec(u, FLUSH_CAS_PSO, a, -1), t);
      } else {
        OnePsoRecord(es, e, Rec(u, FLUSH_CAS_PSO, a, -1), t);
      }
  }

  // ----- rebuilt and real buffers -----

  /** The generator has rebuilt the buffers of all threads and addresses. */
  ghost predicate PsoMirrors(m: Memory, es: seq<Event>) {
    forall t: Thread, a: Address :: PsoRebuilt(es, t).Buffer(a) == Recs(t, PsoState(m, es).Buffer(t, a))
  }

  ghost predicate AlwaysPsoMirrors(m: Memory, es: seq<Event>) {
    PsoMirrors(m, es) && (es == [] || AlwaysPsoMirrors(m, Front(es)))
  }

  /** A flush is recorded for the thread whose buffer was flushed, or both have nothing buffered there. */
  ghost predicate PsoAttributed(p: Pso, e: Event) {
    e.Flush? ==> e.t == e.current || (p.Buffer(e.t, e.addr) == [] && p.Buffer(e.current, e.addr) == [])
  }

  ghost predicate AllPsoAttributed(m: Memory, es: seq<Event>) {
    es == [] || (AllPsoAttributed(m, Front(es)) && PsoAttributed(PsoState(m, Front(es)), Last(es)))
  }

  lemma PsoMirrorKept(s: PsoScan, p: Pso, e: Event, t: Thread, a: Address)
    requires s.Buffer(a) == Recs(t, p.Buffer(t, a)) && HasLabel(e) && PsoAttributed(p, e)
    ensures PsoScanAfter(s, e, t).Buffer(a) == Recs(t, PsoNext(p, e).Buffer(t, a))
  {
    hide PassedIn, DrainAll, DrainOne;
  }

  /** Of the flushed buffer and the one the flush is recorded for, only one gets shorter. */
  lemma PsoMirrorLost(p: Pso, e: Event, flushed: PsoScan, current: PsoScan)
    requires e.Flush? && !PsoAttributed(p, e)
    requires flushed.Buffer(e.addr) == Recs(e.t, p.Buffer(e.t, e.addr))
    requires current.Buffer(e.addr) == Recs(e.current, p.Buffer(e.current, e.addr))
    ensures || PsoScanAfter(flushed, e, e.t).Buffer(e.addr) != Recs(e.t, PsoNext(p, e).Buffer(e.t, e.addr))
            || PsoScanAfter(current, e, e.current).Buffer(e.addr) !=
                Recs(e.current, PsoNext(p, e).Buffer(e.current, e.addr))
  {
    hide PassedIn;
    if p.Buffer(e.t, e.addr) != [] {
      assert |PsoNext(p, e).Buffer(e.t, e.addr)| == |p.Buffer(e.t, e.addr)| - 1;
    } else {
      assert |PsoNext(p, e).Buffer(e.current, e.addr)| == |p.Buffer(e.current, e.addr)|;
    }
  }

  lemma PsoMirrorStep(m: Memory, es: seq<Event>, e: Event)
    requires PsoMirrors(m, es) && HasLabel(e)
    ensures PsoMirrors(m, es + [e]) <==> PsoAttributed(PsoState(m, es), e)
  {
    hide PsoRebuilt, PsoScanAfter, PsoNext;
    var p := PsoState(m, es);
    assert Front(es + [e]) == es && PsoState(m, es + [e]) == PsoNext(p, e);
    if PsoAttributed(p, e) {
      forall t: Thread, a: Address
        ensures PsoRebuilt(es + [e], t).Buffer(a) == Recs(t, PsoNext(p, e).Buffer(t, a))
      {
        PsoRebuiltMore(es, e, t);
        assert PsoRebuilt(es, t).Buffer(a) == Recs(t, p.Buffer(t, a));
        PsoMirrorKept(PsoRebuilt(es, t), p, e, t, a);
      }
    } else {
      PsoRebuiltMore(es, e, e.t);
      PsoRebuiltMore(es, e, e.current);
      assert PsoRebuilt(es, e.t).Buffer(e.addr) == Recs(e.t, p.Buffer(e.t, e.addr));
      assert PsoRebuilt(es, e.current).Buffer(e.addr) == Recs(e.current, p.Buffer(e.current, e.addr));
      PsoMirrorLost(p, e, PsoRebuilt(es, e.t), PsoRebuilt(es, e.current));
      assert PsoRebuilt(es + [e], e.t).Buffer(e.addr) != Recs(e.t, PsoNext(p, e).Buffer(e.t, e.addr))
          || PsoRebuilt(es + [e], e.current).Buffer(e.addr) != Recs(e.current, PsoNext(p, e).Buffer(e.current, e.addr));
    }
  }

  lemma PsoNothingMirrors(m: Memory)
    ensures PsoMirrors(m, [])
  {
  }

  /** The rebuilt buffers are the real ones throughout the run if and only if every flush is recorded for
      the thread that it flushes; all others must find nothing buffered for their address. */
  lemma {:induction false} PsoRebuiltIsReal(m: Memory, es: seq<Event>)
    requires AllLabelled(es)
    ensures AlwaysPsoMirrors(m, es) <==> AllPsoAttributed(m, es)
    decreases |es|
  {
    hide PsoMirrors, PsoAttributed;
    if es == [] {
      PsoNothingMirrors(m);
    } else {
      PsoRebuiltIsReal(m, Front(es));
      assert es == Front(es) + [Last(es)] && HasLabel(Last(es));
      if AllPsoAttributed(m, Front(es)) {
        PsoMirrorStep(m, Front(es), Last(es));
      }
    }
  }

  /** The buffer of an address holds stores to that address. */
  lemma {:induction false} BufferedAt(m: Memory, es: seq<Event>, t: Thread, a: Address)
    ensures AllAt(PsoState(m, es).Buffer(t, a), a)
    decreases |es|
  {
    if es != [] {
      BufferedAt(m, Front(es), t, a);
    }
  }

  /** A stored or loaded address passes nothing, exactly if no other address has a buffered store. */
  lemma PassedInNothing(s: PsoScan, p: Pso, t: Thread, r: Rec)
    requires forall a: Address :: s.Buffer(a) == Recs(t, p.Buffer(t, a)) && AllAt(p.Buffer(t, a), a)
    ensures PassedIn(s, r) == {} <==> forall a: Address :: a != r.location ==> p.Buffer(t, a) == []
  {
    if a: Address :| a != r.location && p.Buffer(t, a) != [] {
      assert s.Buffer(a) == Recs(t, p.Buffer(t, a)) && AllAt(p.Buffer(t, a), a);
      assert s.buffers[a][0].location == a;
      assert (s.buffers[a][0].instr, r.instr) in PassedIn(s, r);
    } else {
      forall a: Address, i | a in s.buffers && 0 <= i < |s.buffers[a]|
        ensures s.buffers[a][i].location == r.location
      {
        assert s.Buffer(a) == Recs(t, p.Buffer(t, a)) && AllAt(p.Buffer(t, a), a);
      }
    }
  }

  // ----- what is found and what is not -----

  /** The generator has found nothing to fence. */
  ghost predicate NothingFound(es: seq<Event>) {
    forall t: Thread :: PsoRebuilt(es, t).loads == {} && PsoRebuilt(es, t).stores == {}
  }

  /** A compare-and-swap that fails does so with nothing buffered for other addresses. */
  ghost predicate FailuresPassNothing(m: Memory, es: seq<Event>) {
    es == [] || (FailuresPassNothing(m, Front(es)) && FailurePassesNothing(PsoState(m, Front(es)), Last(es)))
  }

  ghost predicate FailurePassesNothing(p: Pso, e: Event) {
    e.Cas? && !e.succeeded ==> PsoNoBypassBy(p, e)
  }

  lemma FoundStep(m: Memory, es: seq<Event>, e: Event)
    requires PsoMirrors(m, es) && HasLabel(e)
    requires NothingFound(es) && FailurePassesNothing(PsoState(m, es), e)
    ensures NothingFound(es + [e]) <==> PsoNoBypassBy(PsoState(m, es), e)
  {
    hide PsoRebuilt, PassedIn, PsoNext;
    var p, s := PsoState(m, es), PsoRebuilt(es, e.t);
    forall a: Address
      ensures s.Buffer(a) == Recs(e.t, p.Buffer(e.t, a)) && AllAt(p.Buffer(e.t, a), a)
    {
      BufferedAt(m, es, e.t, a);
    }
    PsoRebuiltMore(es, e, e.t);
    assert s.loads == {} && s.stores == {};
    if e.Store? || e.Load? || (e.Cas? && e.succeeded) {
      PassedInNothing(s, p, e.t, Rec(e.t, if e.Load? then READ else WRITE, e.addr, e.instr));
    }
    FoundBy(s, e);
    if PsoNoBypassBy(p, e) {
      forall t: Thread
        ensures PsoRebuilt(es + [e], t).loads == {} && PsoRebuilt(es + [e], t).stores == {}
      {
        PsoRebuiltMore(es, e, t);
        assert PsoRebuilt(es, t).loads == {} && PsoRebuilt(es, t).stores == {};
        OthersFindNothing(PsoRebuilt(es, t), e, t);
      }
    }
  }

  /** What one event adds to nothing. */
  lemma FoundBy(s: PsoScan, e: Event)
    requires HasLabel(e) && s.loads == {} && s.stores == {}
    ensures var s' := PsoScanAfter(s, e, e.t);
            && s'.loads == (if e.Load? then PassedIn(s, Rec(e.t, READ, e.addr, e.instr)) else {})
            && s'.stores ==
                (if e.Store? || (e.Cas? && e.succeeded) then PassedIn(s, Rec(e.t, WRITE, e.addr, e.instr)) else {})
  {
    hide PassedIn;
  }

  lemma OthersFindNothing(s: PsoScan, e: Event, t: Thread)
    requires HasLabel(e)
    ensures t != e.t ==> PsoScanAfter(s, e, t).loads == s.loads && PsoScanAfter(s, e, t).stores == s.stores
    ensures t != e.t && !e.Flush? ==> PsoScanAfter(s, e, t) == s
  {
    hide PassedIn;
  }

  lemma FoundFront(es: seq<Event>)
    requires es != [] && HasLabel(Last(es)) && NothingFound(es)
    ensures NothingFound(Front(es))
  {
    hide PsoRebuilt;
    assert es == Front(es) + [Last(es)];
    forall t: Thread
      ensures PsoRebuilt(Front(es), t).loads == {} && PsoRebuilt(Front(es), t).stores == {}
    {
      PsoRebuiltMore(Front(es), Last(es), t);
      assert PsoRebuilt(es, t).loads == {} && PsoRebuilt(es, t).stores == {};
      FoundGrows(PsoRebuilt(Front(es), t), Last(es), t);
    }
  }

  lemma FoundGrows(s: PsoScan, e: Event, t: Thread)
    requires HasLabel(e)
    ensures s.loads <= PsoScanAfter(s, e, t).loads && s.stores <= PsoScanAfter(s, e, t).stores
  {
    hide PassedIn;
  }

  /** In a run that passes nothing, failed compare-and-swaps pass nothing either. */
  lemma {:induction false} NoBypassNoFailure(m: Memory, es: seq<Event>)
    requires PsoNoBypass(m, es)
    ensures FailuresPassNothing(m, es)
    decreases |es|
  {
    hide PsoNoBypassBy;
    if es != [] {
      NoBypassNoFailure(m, Front(es));
    }
  }

  lemma {:induction false} FoundUnlessFailed(m: Memory, es: seq<Event>)
    requires AllLabelled(es) && AllPsoAttributed(m, es) && FailuresPassNothing(m, es)
    ensures NothingFound(es) <==> PsoNoBypass(m, es)
    decreases |es|
  {
    hide NothingFound, PsoNoBypassBy, FailurePassesNothing, PsoMirrors, PsoAttributed;
    if es == [] {
      NothingInNothing();
    } else {
      var front, e := Front(es), Last(es);
      assert es == front + [e] && HasLabel(e);
      assert AllLabelled(front) && AllPsoAttributed(m, front);
      FoundUnlessFailed(m, front);
      PsoRebuiltIsReal(m, front);
      if NothingFound(es) {
        FoundFront(es);
      }
      if NothingFound(front) {
        FoundStep(m, front, e);
      }
    }
  }

  /**
    What finding nothing means, exactly: a run passes nothing if and only if the generator finds nothing
    and no compare-and-swap fails while the thread has a store to another address buffered.
  */
  lemma NothingFoundIsNoBypass(m: Memory, es: seq<Event>)
    requires AllLabelled(es) && AllPsoAttributed(m, es)
    ensures PsoNoBypass(m, es) <==> NothingFound(es) && FailuresPassNothing(m, es)
  {
    if PsoNoBypass(m, es) {
      NoBypassNoFailure(m, es);
    }
    if FailuresPassNothing(m, es) {
      FoundUnlessFailed(m, es);
    }
  }

  lemma NothingInNothing()
    ensures NothingFound([])
  {
  }

  /** So a run with nothing to fence, whose failed compare-and-swaps pass nothing, is sequentially consistent. */
  lemma PsoNothingToFence(m: Memory, es: seq<Event>, n: nat)
    requires PsoRun(m, es) && AllLabelled(es) && AllPsoAttributed(m, es) && ThreadsBelow(es, n)
    requires FailuresPassNothing(m, es) && NothingFound(es)
    ensures SequentiallyConsistent(m, es)
  {
    NothingFoundIsNoBypass(m, es);
    PsoNoBypassIsSequentiallyConsistent(m, es, n);
  }

  // ----- later runs -----

  /** What one event adds. */
  lemma FoundMore(s: PsoScan, e: Event, t: Thread, p: (int, int))
    requires HasLabel(e) && Visible(e)
    ensures var s', read, write := PsoScanAfter(s, e, t), Rec(t, READ, e.addr, e.instr), Rec(t, WRITE, e.addr, e.instr);
            && (p in s'.loads <==> p in s.loads || (e.t == t && e.Load? && p in PassedIn(s, read)))
            && (p in s'.stores <==>
                p in s.stores || (e.t == t && (e.Store? || (e.Cas? && e.succeeded)) && p in PassedIn(s, write)))
  {
    hide PassedIn;
  }

  lemma RebuiltBufferAfter(s: PsoScan, e: Event, t: Thread, a: Address)
    requires HasLabel(e)
    ensures var b := s.Buffer(a);
            PsoScanAfter(s, e, t).Buffer(a) ==
              if PsoDrains(e, t, a) then []
              else if e.Store? && e.t == t && e.addr == a then b + [Rec(t, WRITE, a, e.instr)]
              else if e.Flush? && e.current == t && e.addr == a && b != [] then b[1..]
              else b
  {
    hide PassedIn;
  }

  /** Whatever the flushes: what is in a rebuilt buffer was stored by the thread and not drained since. */
  lemma {:induction false} PsoRebuiltIsPending(es: seq<Event>, t: Thread, a: Address, j: nat) returns (i: nat)
    requires AllLabelled(es) && j < |PsoRebuilt(es, t).Buffer(a)|
    ensures i < |es| && es[i].Store? && es[i].addr == a == PsoRebuilt(es, t).Buffer(a)[j].location
    ensures PsoPending(es, t, EntryOf(es[i]), i) && es[i].instr == PsoRebuilt(es, t).Buffer(a)[j].instr
    decreases |es|
  {
    hide PsoRebuilt, PsoScanAfter;
    if es == [] {
      NothingPsoRebuilt(t);
    }
    var front, e := Front(es), Last(es);
    assert es == front + [e] && HasLabel(e);
    PsoRebuiltMore(front, e, t);
    RebuiltBufferAfter(PsoRebuilt(front, t), e, t, a);
    var b := PsoRebuilt(front, t).Buffer(a);
    if e.Store? && e.t == t && e.addr == a && j == |b| {
      i := |es| - 1;
    } else {
      i := PsoRebuiltIsPending(front, t, a, if e.Flush? && e.current == t && e.addr == a && b != [] then j + 1 else j);
      assert es[i] == front[i];
      forall k | i < k < |es|
        ensures !PsoDrains(es[k], t, a)
      {
        assert k < |front| ==> es[k] == front[k];
      }
    }
  }

  lemma NothingPsoRebuilt(t: Thread)
    ensures PsoRebuilt([], t) == PsoScan(map[], {}, {})
  {
  }

  /** A store labelled `st` leaves its buffer before an access labelled `l` of the thread to another address. */
  ghost predicate PsoSeparated(es: seq<Event>, t: Thread, st: int, l: int) {
    forall i, j :: 0 <= i < j < |es| && es[i].Store? && Visible(es[j]) && es[i].t == es[j].t == t
                   && es[i].instr == st && es[j].instr == l && es[i].addr != es[j].addr ==>
      exists k :: i < k < j && PsoDrains(es[k], t, es[i].addr)
  }

  lemma PsoSeparatedFront(es: seq<Event>, t: Thread, st: int, l: int)
    requires es != [] && PsoSeparated(es, t, st, l)
    ensures PsoSeparated(Front(es), t, st, l)
  {
    var front := Front(es);
    forall i, j | 0 <= i < j < |front| && front[i].Store? && Visible(front[j]) && front[i].t == front[j].t == t
                  && front[i].instr == st && front[j].instr == l && front[i].addr != front[j].addr
      ensures exists k :: i < k < j && PsoDrains(front[k], t, front[i].addr)
    {
      assert es[i] == front[i] && es[j] == front[j];
      var k :| i < k < j && PsoDrains(es[k], t, es[i].addr);
      assert front[k] == es[k];
    }
  }

  lemma PsoPendingIsNotSeparated(es: seq<Event>, t: Thread, x: Entry, i: nat)
    requires es != [] && Last(es).t == t && Visible(Last(es)) && Last(es).addr != x.addr
      && PsoPending(Front(es), t, x, i)
    ensures !PsoSeparated(es, t, x.instr, Last(es).instr)
  {
    var front, j := Front(es), |es| - 1;
    assert es[i] == front[i] && es[j] == Last(es);
    forall k | i < k < j
      ensures !PsoDrains(es[k], t, es[i].addr)
    {
      assert es[k] == front[k];
    }
  }

  /** A separated pair is no pair of the next access. */
  lemma SeparatedIsNotPassed(es: seq<Event>, t: Thread, kind: Kind, st: int, l: int)
    requires es != [] && AllLabelled(es) && PsoSeparated(es, t, st, l)
    requires Visible(Last(es)) && Last(es).t == t
    ensures (st, l) !in PassedIn(PsoRebuilt(Front(es), t), Rec(t, kind, Last(es).addr, Last(es).instr))
  {
    hide PsoRebuilt, PsoSeparated, PsoPending;
    var front, e := Front(es), Last(es);
    var s := PsoRebuilt(front, t);
    if (st, l) in PassedIn(s, Rec(t, kind, e.addr, e.instr)) {
      var a, j :| a in s.buffers && 0 <= j < |s.buffers[a]| && s.buffers[a][j].location != e.addr
                  && (st, l) == (s.buffers[a][j].instr, e.instr);
      assert s.Buffer(a) == s.buffers[a] && AllLabelled(front);
      var i := PsoRebuiltIsPending(front, t, a, j);
      PsoPendingIsNotSeparated(es, t, EntryOf(front[i]), i);
    }
  }

  /** So a separated pair is found in no run under PSO, whichever threads its flushes are recorded for. */
  lemma {:induction false} PsoSeparatedIsNotFound(es: seq<Event>, t: Thread, st: int, l: int)
    requires AllLabelled(es) && PsoSeparated(es, t, st, l)
    ensures (st, l) !in PsoRebuilt(es, t).loads && (st, l) !in PsoRebuilt(es, t).stores
    decreases |es|
  {
    hide PsoRebuilt, PassedIn, PsoSeparated, PsoScanAfter;
    if es == [] {
      NothingPsoRebuilt(t);
    } else {
      var front, e := Front(es), Last(es);
      assert es == front + [e] && HasLabel(e) && AllLabelled(front);
      PsoSeparatedFront(es, t, st, l);
      PsoSeparatedIsNotFound(front, t, st, l);
      PsoRebuiltMore(front, e, t);
      if e.t == t && Visible(e) {
        SeparatedIsNotPassed(es, t, READ, st, l);
        SeparatedIsNotPassed(es, t, WRITE, st, l);
        FoundMore(PsoRebuilt(front, t), e, t, (st, l));
      } else {
        FoundNothing(PsoRebuilt(front, t), e, t);
      }
    }
  }

  lemma FoundNothing(s: PsoScan, e: Event, t: Thread)
    requires HasLabel(e) && !(e.t == t && Visible(e))
    ensures PsoScanAfter(s, e, t).loads == s.loads && PsoScanAfter(s, e, t).stores == s.stores
  {
    hide PassedIn;
  }
}
