/**
  Two threads that each store and then load what the other stores. Without buffers one of them sees the
  other's store; with buffers neither may. A flush that is recorded for the wrong thread makes the
  generator overlook it, and so do a store-store fence under TSO and a failed swap under PSO. Each of
  these runs is in an order that the scheduler can choose, and has records that the generator accepts.
*/
module Litmus {
  import opened Common
  import opened StoreBuffers
  import opened SequentialConsistency
  import opened FenceConstraints
  import opened PsoConstraints

  const X: Address := 100
  const Y: Address := 200
  const Z: Address := 300

  // ----- runs event by event -----

  lemma Prefixes(es: seq<Event>)
    ensures es[..0] == [] && es[..|es|] == es
    ensures forall i :: 0 <= i < |es| ==> es[..i + 1] == es[..i] + [es[i]]
  {
  }

  lemma Start()
    ensures TsoRun(map[], []) && TsoState(map[], []) == Tso(map[], map[])
    ensures forall t: Thread :: ProgramOf([], t) == [] && Rebuilt([], t) == Scan([], {})
  {
  }

  lemma TsoOne(es: seq<Event>, e: Event)
    ensures TsoRun(map[], es + [e]) <==> TsoRun(map[], es) && TsoEnabled(TsoState(map[], es), e)
    ensures TsoState(map[], es + [e]) == TsoNext(TsoState(map[], es), e)
    ensures forall t: Thread :: ProgramOf(es + [e], t) ==
              ProgramOf(es, t) + (if e.t == t && Visible(e) then [e] else [])
  {
    assert Front(es + [e]) == es;
    ProgramMore(es, e);
  }

  lemma ProgramMore(es: seq<Event>, e: Event)
    ensures forall t: Thread :: ProgramOf(es + [e], t) ==
              ProgramOf(es, t) + (if e.t == t && Visible(e) then [e] else [])
  {
    assert Front(es + [e]) == es;
  }

  lemma PsoStart()
    ensures PsoRun(map[], []) && PsoState(map[], []) == Pso(map[], map[]) && FlushesHit([])
    ensures forall t: Thread :: ProgramOf([], t) == [] && PsoRebuilt([], t) == PsoScan(map[], {}, {})
  {
  }

  lemma PsoMore(es: seq<Event>, e: Event)
    ensures PsoRun(map[], es + [e]) <==> PsoRun(map[], es) && PsoEnabled(PsoState(map[], es), e)
    ensures PsoState(map[], es + [e]) == PsoNext(PsoState(map[], es), e)
    ensures FlushesHit(es + [e]) <==> FlushesHit(es) && (e.Flush? ==> PsoState(map[], es).Buffer(e.t, e.addr) != [])
  {
    assert Front(es + [e]) == es;
  }

  /** Under PSO the scheduler flushes only where something is buffered. */
  ghost predicate FlushesHit(es: seq<Event>) {
    es == [] || (FlushesHit(Front(es)) && (Last(es).Flush? ==>
                   PsoState(map[], Front(es)).Buffer(Last(es).t, Last(es).addr) != []))
  }

  // ----- what the scheduler produces and the generator accepts -----

  /** The last event before `i` that is no flush, if the run does not begin with one. */
  function Ran(es: seq<Event>, i: nat): (k: nat)
    requires 0 < i <= |es|
    ensures k < i
  {
    if i == 1 || !es[i - 1].Flush? then i - 1 else Ran(es, i - 1)
  }

  /** A store, or a load that is answered from memory because the thread has not stored there. */
  ghost predicate Accesses(es: seq<Event>, k: nat) {
    && k < |es|
    && (|| es[k].Store?
        || (es[k].Load? && forall j :: 0 <= j < k && es[j].Store? && es[j].t == es[k].t ==> es[j].addr != es[k].addr))
  }

  /**
    The scheduler keeps a thread until it accesses shared memory, which a fence or a compare-and-swap is
    not counted as, or until it has ended. The main thread ends last, in its join.
  */
  ghost predicate MayLeave(es: seq<Event>, k: nat, i: nat) {
    && k < |es|
    && (|| Accesses(es, k)
        || (es[k].t != 1 && forall j :: i <= j < |es| && !es[j].Flush? ==> es[j].t != es[k].t))
  }

  /** Event `i` may be next: a flush is recorded for the thread that ran last. */
  ghost predicate Turn(es: seq<Event>, i: nat)
    requires 0 < i < |es|
  {
    var k := Ran(es, i);
    && (es[i].Flush? ==> es[i].current == es[k].t)
    && (es[i].Flush? || es[i].t != es[k].t ==> MayLeave(es, k, i))
  }

  /** The main thread spawns the others and runs on to its first access; then the scheduler decides. */
  ghost predicate Scheduled(es: seq<Event>) {
    && (es != [] ==> !es[0].Flush? && es[0].t == 1)
    && forall i :: 0 < i < |es| ==> Turn(es, i)
  }

  function RecordedFor(e: Event): Thread {
    if e.Flush? then e.current else e.t
  }

  lemma TraceOne(es: seq<Event>, e: Event, t: Thread)
    ensures var trace := TraceOf(RecordsOf(es), t);
            TraceOf(RecordsOf(es + [e]), t) == trace + (if RecordedFor(e) == t then Records(e) else [])
    ensures var trace := TraceOf(PsoRecordsOf(es), t);
            TraceOf(PsoRecordsOf(es + [e]), t) == trace + (if RecordedFor(e) == t then PsoRecords(e) else [])
  {
    assert Front(es + [e]) == es && Last(es + [e]) == e;
    assert RecordsOf(es + [e]) == RecordsOf(es) + Records(e);
    assert PsoRecordsOf(es + [e]) == PsoRecordsOf(es) + PsoRecords(e);
    RecordsAreFor(e);
    hide RecordsOf, PsoRecordsOf, TraceOf, Records, PsoRecords, RecordedFor;
    TraceConcat(RecordsOf(es), Records(e), t);
    TraceConcat(PsoRecordsOf(es), PsoRecords(e), t);
    TraceOfSame(Records(e), RecordedFor(e), t);
    TraceOfSame(PsoRecords(e), RecordedFor(e), t);
  }

  lemma RecordsAreFor(e: Event)
    ensures forall i :: 0 <= i < |Records(e)| ==> Records(e)[i].thr == RecordedFor(e)
    ensures forall i :: 0 <= i < |PsoRecords(e)| ==> PsoRecords(e)[i].thr == RecordedFor(e)
  {
  }

  lemma {:induction false} TraceOfSame(rs: seq<Rec>, u: Thread, t: Thread)
    requires forall i :: 0 <= i < |rs| ==> rs[i].thr == u
    ensures TraceOf(rs, t) == if u == t then rs else []
    decreases |rs|
  {
    if rs != [] {
      TraceOfSame(Front(rs), u, t);
      assert rs == Front(rs) + [Last(rs)];
    }
  }

  lemma {:induction false} NothingBefore(es: seq<Event>, t: Thread)
    requires forall k :: 0 <= k < |es| ==> RecordedFor(es[k]) != t
    ensures TraceOf(RecordsOf(es), t) == [] && TraceOf(PsoRecordsOf(es), t) == []
    decreases |es|
  {
    hide RecordsOf, PsoRecordsOf, TraceOf;
    if es == [] {
      NothingRecorded(t);
    } else {
      NothingBefore(Front(es), t);
      TraceOne(Front(es), Last(es), t);
      assert es == Front(es) + [Last(es)];
    }
  }

  lemma NothingRecorded(t: Thread)
    ensures TraceOf(RecordsOf([]), t) == [] && TraceOf(PsoRecordsOf([]), t) == []
  {
  }

  /** The records of a thread begin with those of its first access. */
  lemma {:induction false} BeginsWith(es: seq<Event>, t: Thread, i: nat)
    requires i < |es| && es[i].t == t && (es[i].Store? || es[i].Load?) && es[i].instr != 0
    requires forall k :: 0 <= k < i ==> RecordedFor(es[k]) != t
    ensures Accepted(TraceOf(RecordsOf(es), t)) && Accepted(TraceOf(PsoRecordsOf(es), t))
    decreases |es|
  {
    hide RecordsOf, PsoRecordsOf, TraceOf;
    TraceOne(Front(es), Last(es), t);
    assert es == Front(es) + [Last(es)];
    if i == |es| - 1 {
      NothingBefore(Front(es), t);
    } else {
      BeginsWith(Front(es), t, i);
    }
  }

  lemma {:induction false} RecordedWithin(es: seq<Event>, n: nat)
    requires forall k :: 0 <= k < |es| ==> 1 <= RecordedFor(es[k]) < n
    ensures forall k :: 0 <= k < |RecordsOf(es)| ==> 1 <= RecordsOf(es)[k].thr < n
    ensures forall k :: 0 <= k < |PsoRecordsOf(es)| ==> 1 <= PsoRecordsOf(es)[k].thr < n
    decreases |es|
  {
    if es != [] {
      RecordedWithin(Front(es), n);
      RecordsAreFor(Last(es));
      assert 1 <= RecordedFor(Last(es)) < n;
      hide Records, PsoRecords, RecordedFor;
    }
  }

  // ----- two threads that miss each other's store -----

  /** Thread `t` finds no 1 at `a`: it loads 0, or fails to swap a 1. */
  predicate Misses(e: Event, t: Thread, a: Address) {
    match e
    case Load(u, b, v, _) => u == t && b == a && v == 0
    case Cas(u, b, x, _, ok, _) => u == t && b == a && x == 1 && !ok
    case _ => false
  }

  function First(e: Event): seq<Event> {
    [Store(1, X, 1, 11), e]
  }

  function Second(e: Event): seq<Event> {
    [Store(2, Y, 1, 21), e]
  }

  /** The thread writes neither X nor Y. */
  predicate Elsewhere(program: seq<Event>) {
    forall i :: 0 <= i < |program| ==>
      match program[i]
      case Store(_, a, _, _) => a != X && a != Y
      case Cas(_, a, _, _, _, _) => a != X && a != Y
      case _ => true
  }

  /** One more event of the thread, if it is one of its program. */
  function CountOwn(n: nat, e: Event, t: Thread): nat {
    if Visible(e) && e.t == t then n + 1 else n
  }

  /** What is in memory when `n1` and `n2` events of the two programs have happened; not all of them can have. */
  ghost predicate SeenBy(m: Memory, n1: nat, n2: nat) {
    && Read(m, X) == (if n1 > 0 then 1 else 0) && Read(m, Y) == (if n2 > 0 then 1 else 0)
    && !(n1 >= 2 && n2 >= 2)
  }

  lemma SeenNext(m: Memory, e: Event, e1: Event, e2: Event, n1: nat, n2: nat)
    requires Misses(e1, 1, Y) && Misses(e2, 2, X) && SeenBy(m, n1, n2) && ScEnabled(m, e)
    requires Visible(e) && e.t == 1 ==> n1 < 2 && e == First(e1)[n1]
    requires Visible(e) && e.t == 2 ==> n2 < 2 && e == Second(e2)[n2]
    requires Visible(e) && e.t != 1 && e.t != 2 ==> Elsewhere([e])
    ensures SeenBy(ScNext(m, e), CountOwn(n1, e, 1), CountOwn(n2, e, 2))
  {
    assert [e][0] == e;
  }

  lemma {:induction false} BeginningOf(sc: seq<Event>, e1: Event, e2: Event)
    requires Misses(e1, 1, Y) && Misses(e2, 2, X)
    requires ScRun(map[], sc) && forall t: Thread :: t != 1 && t != 2 ==> Elsewhere(ProgramOf(sc, t))
    requires ProgramOf(sc, 1) <= First(e1) && ProgramOf(sc, 2) <= Second(e2)
    ensures SeenBy(ScMemory(map[], sc), |ProgramOf(sc, 1)|, |ProgramOf(sc, 2)|)
    decreases |sc|
  {
    hide SeenBy, Misses, Elsewhere, ScNext, ScEnabled;
    if sc == [] {
      NothingSeen();
    } else {
      var front, e := Front(sc), Last(sc);
      assert sc == front + [e];
      ScConcat(map[], front, [e]);
      ScOne(ScMemory(map[], front), e);
      forall t: Thread | t != 1 && t != 2
        ensures Elsewhere(ProgramOf(front, t))
      {
        ElsewhereFront(sc, t);
      }
      if e.t != 1 && e.t != 2 {
        ElsewhereFront(sc, e.t);
      }
      BeginningOf(front, e1, e2);
      assert Visible(e) && e.t == 1 ==> e == First(e1)[|ProgramOf(front, 1)|];
      assert Visible(e) && e.t == 2 ==> e == Second(e2)[|ProgramOf(front, 2)|];
      SeenNext(ScMemory(map[], front), e, e1, e2, |ProgramOf(front, 1)|, |ProgramOf(front, 2)|);
    }
  }

  lemma NothingSeen()
    ensures SeenBy(map[], 0, 0)
  {
  }

  lemma ElsewhereFront(sc: seq<Event>, t: Thread)
    requires sc != [] && Elsewhere(ProgramOf(sc, t))
    ensures Elsewhere(ProgramOf(Front(sc), t))
    ensures Visible(Last(sc)) && Last(sc).t == t ==> Elsewhere([Last(sc)])
  {
    assert ProgramOf(Front(sc), t) <= ProgramOf(sc, t);
    if Visible(Last(sc)) && Last(sc).t == t {
      assert ProgramOf(sc, t)[|ProgramOf(Front(sc), t)|] == Last(sc);
    }
  }

  /** Whatever the flushes: these two programs with these results never happen without buffers. */
  lemma NoOrderExplains(es: seq<Event>, e1: Event, e2: Event)
    requires Misses(e1, 1, Y) && Misses(e2, 2, X)
    requires ProgramOf(es, 1) == First(e1) && ProgramOf(es, 2) == Second(e2)
    requires forall t: Thread :: t != 1 && t != 2 ==> Elsewhere(ProgramOf(es, t))
    ensures !SequentiallyConsistent(map[], es)
  {
    if SequentiallyConsistent(map[], es) {
      var sc: seq<Event> :| ScRun(map[], sc) && SamePrograms(sc, es);
      assert ProgramOf(sc, 1) == First(e1) && ProgramOf(sc, 2) == Second(e2);
      assert forall t: Thread :: ProgramOf(sc, t) == ProgramOf(es, t);
      BeginningOf(sc, e1, e2);
      assert false;
    }
  }

  // ----- store buffering -----

  /** Both threads have buffered their stores, and nothing has been written. */
  ghost predicate BothBuffer(es: seq<Event>) {
    var s := TsoState(map[], es);
    && TsoRun(map[], es) && X !in s.memory && Y !in s.memory
    && s.Buffer(1) == [Entry(X, 1, 11)] && s.Buffer(2) == [Entry(Y, 1, 21)]
    && ProgramOf(es, 1) == [Store(1, X, 1, 11)] && ProgramOf(es, 2) == [Store(2, Y, 1, 21)]
    && forall t: Thread :: t != 1 && t != 2 ==> Elsewhere(ProgramOf(es, t))
  }

  /** Then neither sees the other's store. */
  function BothMiss(es: seq<Event>): seq<Event> {
    es + [Load(1, Y, 0, 12)] + [Load(2, X, 0, 22)]
  }

  lemma NotThere(s: Tso, t: Thread, a: Address)
    requires a !in s.memory && |s.Buffer(t)| == 1 && s.Buffer(t)[0].addr != a
    ensures TsoRead(s, t, a) == 0
  {
    var b := s.Buffer(t);
    assert Last(b) == b[0] && Front(b) == [];
    assert Newest(b, a) == Newest(Front(b), a) == None;
  }

  lemma BothMissIsARun(es: seq<Event>)
    requires BothBuffer(es)
    ensures TsoRun(map[], BothMiss(es)) && !SequentiallyConsistent(map[], BothMiss(es))
  {
    hide TsoRun, TsoState, ProgramOf, Elsewhere;
    var s, e1, e2 := TsoState(map[], es), Load(1, Y, 0, 12), Load(2, X, 0, 22);
    NotThere(s, 1, Y);
    NotThere(s, 2, X);
    hide TsoRead;
    TsoOne(es, e1);
    TsoOne(es + [e1], e2);
    forall t: Thread | t != 1 && t != 2
      ensures Elsewhere(ProgramOf(BothMiss(es), t))
    {
      assert ProgramOf(BothMiss(es), t) == ProgramOf(es, t);
    }
    NoOrderExplains(BothMiss(es), e1, e2);
  }

  /** A thread with nothing in its rebuilt buffer has found nothing when it loads. */
  lemma NothingFoundMissing(es: seq<Event>, t: Thread)
    requires Rebuilt(es, t) == Scan([], {})
    ensures Rebuilt(BothMiss(es), t).pairs == {}
  {
    hide Rebuilt, Passed;
    PassedNothing(Rec(t, READ, Y, 12));
    PassedNothing(Rec(t, READ, X, 22));
    RebuiltMore(es, Load(1, Y, 0, 12), t);
    RebuiltMore(es + [Load(1, Y, 0, 12)], Load(2, X, 0, 22), t);
  }

  lemma PassedNothing(r: Rec)
    ensures Passed([], r) == {}
  {
  }

  /** Both threads store, neither sees the other's store. */
  function StoreBuffering(): seq<Event> {
    BothMiss(BothStore())
  }

  function BothStore(): seq<Event> {
    [Store(1, X, 1, 11), Store(2, Y, 1, 21)]
  }

  lemma BothStoreBuffered()
    ensures BothBuffer(BothStore())
  {
    var es := BothStore();
    Prefixes(es);
    hide TsoRun, TsoState, ProgramOf;
    Start();
    TsoOne(es[..0], es[0]);
    TsoOne(es[..1], es[1]);
  }

  /** TSO is weaker than no buffers. */
  lemma BuffersShow()
    ensures TsoRun(map[], StoreBuffering()) && !SequentiallyConsistent(map[], StoreBuffering())
    ensures Scheduled(StoreBuffering())
  {
    StoreBufferingScheduled();
    hide BothBuffer, BothMiss, TsoRun, Scheduled;
    BothStoreBuffered();
    BothMissIsARun(BothStore());
  }

  lemma StoreBufferingScheduled()
    ensures Scheduled(StoreBuffering())
  {
    forall i | 0 < i < |StoreBuffering()|
      ensures Turn(StoreBuffering(), i)
    {
    }
  }

  /** The generator accepts the run and finds both bypasses. */
  lemma BypassesFound()
    ensures Receivable(RecordsOf(StoreBuffering()), 3)
    ensures {(11, 12), (21, 22)} <= AllPairs(RecordsOf(StoreBuffering()), 3)
  {
    var trace := RecordsOf(StoreBuffering());
    StoreBufferingRecorded();
    BypassFound(1);
    BypassFound(2);
    assert (11, 12) in ScanOf(TraceOf(trace, 1)).pairs && (21, 22) in ScanOf(TraceOf(trace, 2)).pairs;
    hide AllPairs, StoreBuffering, RecordsOf, TraceOf, ScanOf, Receivable;
    AllPairsHave(trace, 3, 1);
    AllPairsHave(trace, 3, 2);
  }

  lemma BypassFound(t: Thread)
    requires t == 1 || t == 2
    ensures (if t == 1 then (11, 12) else (21, 22)) in Rebuilt(StoreBuffering(), t).pairs
  {
    var es := BothStore();
    Prefixes(es);
    hide Rebuilt, Passed;
    Start();
    var store := if t == 1 then Rec(1, WRITE, X, 11) else Rec(2, WRITE, Y, 21);
    var load := if t == 1 then Rec(1, READ, Y, 12) else Rec(2, READ, X, 22);
    PassedOne(store, load);
    RebuiltMore(es[..0], es[0], t);
    RebuiltMore(es[..1], es[1], t);
    assert Rebuilt(es, t) == Scan([store], {});
    RebuiltMore(es, Load(1, Y, 0, 12), t);
    RebuiltMore(es + [Load(1, Y, 0, 12)], Load(2, X, 0, 22), t);
  }

  lemma PassedOne(b: Rec, r: Rec)
    requires b.location != r.location
    ensures (b.instr, r.instr) in Passed([b], r)
  {
    assert [b][0] == b;
  }

  lemma StoreBufferingRecorded()
    ensures Receivable(RecordsOf(StoreBuffering()), 3)
  {
    var es := StoreBuffering();
    hide RecordsOf, PsoRecordsOf, TraceOf, Accepted;
    RecordedWithin(es, 3);
    BeginsWith(es, 1, 0);
    BeginsWith(es, 2, 1);
  }

  // ----- flushes that are recorded for the wrong thread -----

  /** The third thread only loads and has nothing buffered; its buffer is flushed all the same. */
  function IdleFlushes(): seq<Event> {
    [Store(1, X, 1, 11), Flush(3, 0, 1), Load(3, Z, 0, 31), Store(2, Y, 1, 21), Flush(3, 0, 2)]
  }

  lemma IdleFlushesBuffered()
    ensures BothBuffer(IdleFlushes())
  {
    var es := IdleFlushes();
    Prefixes(es);
    hide TsoRun, TsoState, ProgramOf;
    Start();
    TsoOne(es[..0], es[0]);
    TsoOne(es[..1], es[1]);
    TsoOne(es[..2], es[2]);
    TsoOne(es[..3], es[3]);
    TsoOne(es[..4], es[4]);
  }

  lemma IdleFlushesForget(t: Thread)
    ensures Rebuilt(IdleFlushes(), t) == Scan([], {})
  {
    var es := IdleFlushes();
    Prefixes(es);
    hide Rebuilt, Passed;
    Start();
    PassedNothing(Rec(t, READ, Z, 31));
    RebuiltMore(es[..0], es[0], t);
    RebuiltMore(es[..1], es[1], t);
    RebuiltMore(es[..2], es[2], t);
    RebuiltMore(es[..3], es[3], t);
    RebuiltMore(es[..4], es[4], t);
  }

  lemma IdleFlushesRecorded()
    ensures Receivable(RecordsOf(BothMiss(IdleFlushes())), 4)
  {
    var es := BothMiss(IdleFlushes());
    hide RecordsOf, PsoRecordsOf, TraceOf, Accepted;
    RecordedWithin(es, 4);
    BeginsWith(es, 1, 0);
    BeginsWith(es, 2, 3);
    BeginsWith(es, 3, 2);
  }

  lemma IdleFlushesScheduled()
    ensures Scheduled(BothMiss(IdleFlushes())) && Labelled(BothMiss(IdleFlushes()))
  {
    var es := BothMiss(IdleFlushes());
    forall i | 0 < i < |es|
      ensures Turn(es, i)
    {
    }
  }

  /**
    The idle flushes change nothing about the run, which is still not sequentially consistent; but they
    are recorded for the two threads, and the generator, which accepts the run, finds nothing to fence.
  */
  lemma OverlookedBypass() returns (es: seq<Event>)
    ensures TsoRun(map[], es) && Scheduled(es) && Labelled(es) && !SequentiallyConsistent(map[], es)
    ensures Receivable(RecordsOf(es), 4) && forall t: Thread :: Rebuilt(es, t).pairs == {}
  {
    es := BothMiss(IdleFlushes());
    IdleFlushesScheduled();
    hide BothBuffer, BothMiss, TsoRun, Rebuilt, Receivable, Scheduled, Labelled, IdleFlushes;
    IdleFlushesBuffered();
    BothMissIsARun(IdleFlushes());
    IdleFlushesRecorded();
    forall t: Thread
      ensures Rebuilt(es, t).pairs == {}
    {
      IdleFlushesForget(t);
      NothingFoundMissing(IdleFlushes(), t);
    }
  }

  // ----- a store-store fence under TSO -----

  /** A store-store fence behind each store. */
  function StoresFenced(): seq<Event> {
    [Store(1, X, 1, 11), StoreFence(1), Load(1, Y, 0, 12), Store(2, Y, 1, 21), StoreFence(2), Load(2, X, 0, 22)]
  }

  lemma StoresFencedRun()
    ensures TsoRun(map[], StoresFenced())
  {
    var es := StoresFenced();
    Prefixes(es);
    hide TsoRun, TsoState, ProgramOf;
    Start();
    TsoOne(es[..0], es[0]);
    TsoOne(es[..1], es[1]);
    NotThere(TsoState(map[], es[..2]), 1, Y);
    hide TsoRead;
    TsoOne(es[..2], es[2]);
    TsoOne(es[..3], es[3]);
    TsoOne(es[..4], es[4]);
    NotThere(TsoState(map[], es[..5]), 2, X);
    TsoOne(es[..5], es[5]);
  }

  lemma StoresFencedUnexplained()
    ensures !SequentiallyConsistent(map[], StoresFenced())
  {
    var es := StoresFenced();
    Prefixes(es);
    hide ProgramOf;
    Start();
    ProgramMore(es[..0], es[0]);
    ProgramMore(es[..1], es[1]);
    ProgramMore(es[..2], es[2]);
    ProgramMore(es[..3], es[3]);
    ProgramMore(es[..4], es[4]);
    ProgramMore(es[..5], es[5]);
    NoOrderExplains(es, es[2], es[5]);
  }

  lemma StoresFencedForget(t: Thread)
    ensures Rebuilt(StoresFenced(), t).pairs == {}
  {
    var es := StoresFenced();
    Prefixes(es);
    hide Rebuilt, Passed;
    Start();
    PassedNothing(Rec(t, READ, Y, 12));
    PassedNothing(Rec(t, READ, X, 22));
    RebuiltMore(es[..0], es[0], t);
    RebuiltMore(es[..1], es[1], t);
    RebuiltMore(es[..2], es[2], t);
    RebuiltMore(es[..3], es[3], t);
    RebuiltMore(es[..4], es[4], t);
    RebuiltMore(es[..5], es[5], t);
  }

  lemma StoresFencedRecorded()
    ensures Receivable(RecordsOf(StoresFenced()), 3)
  {
    var es := StoresFenced();
    hide RecordsOf, PsoRecordsOf, TraceOf, Accepted;
    RecordedWithin(es, 3);
    BeginsWith(es, 1, 0);
    BeginsWith(es, 2, 3);
  }

  lemma StoresFencedScheduled()
    ensures Scheduled(StoresFenced()) && Labelled(StoresFenced())
  {
    forall i | 0 < i < |StoresFenced()|
      ensures Turn(StoresFenced(), i)
    {
    }
  }

  /** A store-store fence flushes nothing under TSO, but the generator forgets the buffered stores. */
  lemma OverlookedByStoreFence()
    ensures TsoRun(map[], StoresFenced()) && Scheduled(StoresFenced()) && Labelled(StoresFenced())
    ensures !SequentiallyConsistent(map[], StoresFenced())
    ensures forall i :: 0 <= i < |StoresFenced()| ==> !StoresFenced()[i].Flush?
    ensures Receivable(RecordsOf(StoresFenced()), 3) && forall t: Thread :: Rebuilt(StoresFenced(), t).pairs == {}
  {
    StoresFencedScheduled();
    StoresFencedRun();
    StoresFencedUnexplained();
    StoresFencedRecorded();
    assert forall i :: 0 <= i < |StoresFenced()| ==> !StoresFenced()[i].Flush?;
    hide TsoRun, Rebuilt, Receivable, Scheduled, Labelled, StoresFenced;
    forall t: Thread
      ensures Rebuilt(StoresFenced(), t).pairs == {}
    {
      StoresFencedForget(t);
    }
  }

  // ----- a compare-and-swap that fails under PSO -----

  /** Both threads store, and neither's compare-and-swap finds the other's store. */
  function FailedSwaps(): seq<Event> {
    [Store(1, X, 1, 11), Store(2, Y, 1, 21), Cas(2, X, 1, 1, false, 22), Cas(1, Y, 1, 1, false, 12)]
  }

  /**
    A failed compare-and-swap drains the buffer of its own address only, so it may pass a store to
    another; it is not recorded, and the generator finds nothing.
  */
  lemma OverlookedFailure()
    ensures PsoRun(map[], FailedSwaps()) && !SequentiallyConsistent(map[], FailedSwaps())
    ensures Scheduled(FailedSwaps()) && AllLabelled(FailedSwaps()) && AllPsoAttributed(map[], FailedSwaps())
    ensures Receivable(PsoRecordsOf(FailedSwaps()), 3) && NothingFound(FailedSwaps())
  {
    FailedSwapsRun();
    FailedSwapsRecorded();
    FailedSwapsScheduled();
    hide PsoRun, PsoRebuilt, Receivable, AllPsoAttributed, AllLabelled, Scheduled, FailedSwaps;
    forall t: Thread
      ensures PsoRebuilt(FailedSwaps(), t).loads == {} && PsoRebuilt(FailedSwaps(), t).stores == {}
    {
      NothingFoundByPso(t);
    }
  }

  lemma FailedSwapsRun()
    ensures PsoRun(map[], FailedSwaps()) && !SequentiallyConsistent(map[], FailedSwaps())
  {
    var es := FailedSwaps();
    Prefixes(es);
    FailedSwapsPrograms();
    NoOrderExplains(es, es[3], es[2]);
    hide PsoRun, PsoState, ProgramOf;
    PsoStart();
    PsoMore(es[..0], es[0]);
    PsoMore(es[..1], es[1]);
    PsoMore(es[..2], es[2]);
    PsoMore(es[..3], es[3]);
  }

  lemma FailedSwapsPrograms()
    ensures ProgramOf(FailedSwaps(), 1) == First(FailedSwaps()[3])
    ensures ProgramOf(FailedSwaps(), 2) == Second(FailedSwaps()[2])
    ensures forall t: Thread :: t != 1 && t != 2 ==> ProgramOf(FailedSwaps(), t) == []
  {
    var es := FailedSwaps();
    Prefixes(es);
    hide ProgramOf;
    PsoStart();
    ProgramMore(es[..0], es[0]);
    ProgramMore(es[..1], es[1]);
    ProgramMore(es[..2], es[2]);
    ProgramMore(es[..3], es[3]);
  }

  lemma FailedSwapsScheduled()
    ensures Scheduled(FailedSwaps()) && AllLabelled(FailedSwaps()) && AllPsoAttributed(map[], FailedSwaps())
  {
    hide AllPsoAttributed;
    NoFlushes(FailedSwaps());
    forall i | 0 < i < |FailedSwaps()|
      ensures Turn(FailedSwaps(), i)
    {
    }
  }

  lemma {:induction false} NoFlushes(es: seq<Event>)
    requires forall i :: 0 <= i < |es| ==> !es[i].Flush?
    ensures AllPsoAttributed(map[], es)
    decreases |es|
  {
    if es != [] {
      NoFlushes(Front(es));
    }
  }

  lemma FailedSwapsRecorded()
    ensures Receivable(PsoRecordsOf(FailedSwaps()), 3)
  {
    var es := FailedSwaps();
    hide RecordsOf, PsoRecordsOf, TraceOf, Accepted;
    RecordedWithin(es, 3);
    BeginsWith(es, 1, 0);
    BeginsWith(es, 2, 1);
  }

  lemma NothingFoundByPso(t: Thread)
    ensures PsoRebuilt(FailedSwaps(), t).loads == {} && PsoRebuilt(FailedSwaps(), t).stores == {}
  {
    var es := FailedSwaps();
    Prefixes(es);
    hide PsoRebuilt, PassedIn;
    PsoStart();
    ScanStep(es, 0, t);
    ScanStep(es, 1, t);
    ScanStep(es, 2, t);
    ScanStep(es, 3, t);
  }

  /** Every rebuilt buffer is empty. */
  ghost predicate AllFlushed(s: PsoScan) {
    forall a: Address :: a in s.buffers ==> s.buffers[a] == []
  }

  /** An access finds nothing if nothing is buffered, and neither does a compare-and-swap that fails. */
  lemma NothingFoundIn(s: PsoScan, e: Event, t: Thread)
    requires HasLabel(e) && s.loads == {} && s.stores == {}
    requires (e.Store? || e.Load? || (e.Cas? && e.succeeded)) && e.t == t ==> AllFlushed(s)
    ensures PsoScanAfter(s, e, t).loads == {} && PsoScanAfter(s, e, t).stores == {}
    ensures t != e.t && !e.Flush? ==> PsoScanAfter(s, e, t) == s
  {
    OthersFindNothing(s, e, t);
    FoundBy(s, e);
    if (e.Store? || e.Load? || e.Cas?) && e.t == t && AllFlushed(s) {
      NothingPassed(s, Rec(t, if e.Load? then READ else WRITE, e.addr, e.instr));
    }
  }

  lemma NothingPassed(s: PsoScan, r: Rec)
    requires AllFlushed(s)
    ensures PassedIn(s, r) == {}
  {
  }

  lemma ScanStep(es: seq<Event>, i: nat, t: Thread)
    requires i < |es| && HasLabel(es[i])
    requires PsoRebuilt(es[..i], t).loads == {} && PsoRebuilt(es[..i], t).stores == {}
    requires (es[i].Store? || es[i].Load? || (es[i].Cas? && es[i].succeeded)) && es[i].t == t ==>
               AllFlushed(PsoRebuilt(es[..i], t))
    ensures PsoRebuilt(es[..i + 1], t) == PsoScanAfter(PsoRebuilt(es[..i], t), es[i], t)
    ensures PsoRebuilt(es[..i + 1], t).loads == {} && PsoRebuilt(es[..i + 1], t).stores == {}
  {
    hide PsoRebuilt, PsoScanAfter, PassedIn;
    assert es[..i + 1] == es[..i] + [es[i]];
    PsoRebuiltMore(es[..i], es[i], t);
    NothingFoundIn(PsoRebuilt(es[..i], t), es[i], t);
  }

  // ----- flushes that are recorded for the wrong thread, under PSO -----

  /**
    The third thread's store waits until the second thread has seen the first thread's; but the flush of
    the first thread's is recorded for the third thread.
  */
  function LateStore(): seq<Event> {
    [Store(1, X, 2, 11), Store(3, X, 1, 31), Flush(1, X, 3), Load(3, Y, 0, 32),
     Store(2, Y, 1, 21), Fence(2), Load(2, X, 2, 22), Flush(3, X, 2), Load(2, X, 1, 23)]
  }

  function LateProgram(t: Thread): seq<Event> {
    match t
    case 1 => [Store(1, X, 2, 11)]
    case 2 => [Store(2, Y, 1, 21), Load(2, X, 2, 22), Load(2, X, 1, 23)]
    case 3 => [Store(3, X, 1, 31), Load(3, Y, 0, 32)]
    case _ => []
  }

  /** Once the third thread has loaded and the second stored, both stores to X are over when a 2 is loaded. */
  ghost predicate LateSeen(m: Memory, n2: nat, n3: nat) {
    && Read(m, Y) == (if n2 > 0 then 1 else 0)
    && (n3 == 2 && n2 >= 2 ==> Read(m, X) == 2)
    && !(n3 == 2 && n2 == 3)
  }

  lemma LateNext(m: Memory, e: Event, n2: nat, n3: nat, n: nat)
    requires LateSeen(m, n2, n3) && ScEnabled(m, e)
    requires Visible(e) ==> n < |LateProgram(e.t)| && e == LateProgram(e.t)[n]
    requires (Visible(e) && e.t == 2 ==> n == n2) && (Visible(e) && e.t == 3 ==> n == n3)
    ensures LateSeen(ScNext(m, e), CountOwn(n2, e, 2), CountOwn(n3, e, 3))
  {
  }

  lemma {:induction false} LateBeginning(sc: seq<Event>)
    requires ScRun(map[], sc) && forall t: Thread :: ProgramOf(sc, t) <= LateProgram(t)
    ensures LateSeen(ScMemory(map[], sc), |ProgramOf(sc, 2)|, |ProgramOf(sc, 3)|)
    decreases |sc|
  {
    hide LateSeen, LateProgram, ScNext, ScEnabled;
    if sc == [] {
      NothingLate();
    } else {
      var front, e := Front(sc), Last(sc);
      assert sc == front + [e];
      ScConcat(map[], front, [e]);
      ScOne(ScMemory(map[], front), e);
      forall t: Thread
        ensures ProgramOf(front, t) <= LateProgram(t)
      {
        assert ProgramOf(front, t) <= ProgramOf(sc, t) <= LateProgram(t);
      }
      LateBeginning(front);
      if Visible(e) {
        assert ProgramOf(sc, e.t) == ProgramOf(front, e.t) + [e] && ProgramOf(sc, e.t) <= LateProgram(e.t);
        assert e == LateProgram(e.t)[|ProgramOf(front, e.t)|];
      }
      LateNext(ScMemory(map[], front), e, |ProgramOf(front, 2)|, |ProgramOf(front, 3)|, |ProgramOf(front, e.t)|);
    }
  }

  lemma NothingLate()
    ensures LateSeen(map[], 0, 0)
  {
  }

  lemma LateStoreRun()
    ensures PsoRun(map[], LateStore()) && FlushesHit(LateStore())
  {
    var es := LateStore();
    Prefixes(es);
    hide PsoRun, PsoState, FlushesHit;
    PsoStart();
    PsoMore(es[..0], es[0]);
    PsoMore(es[..1], es[1]);
    PsoMore(es[..2], es[2]);
    PsoMore(es[..3], es[3]);
    PsoMore(es[..4], es[4]);
    PsoMore(es[..5], es[5]);
    PsoMore(es[..6], es[6]);
    PsoMore(es[..7], es[7]);
    PsoMore(es[..8], es[8]);
  }

  lemma LateStorePrograms(t: Thread)
    ensures ProgramOf(LateStore(), t) == LateProgram(t)
  {
    var es := LateStore();
    Prefixes(es);
    hide ProgramOf;
    PsoStart();
    ProgramMore(es[..0], es[0]);
    ProgramMore(es[..1], es[1]);
    ProgramMore(es[..2], es[2]);
    ProgramMore(es[..3], es[3]);
    ProgramMore(es[..4], es[4]);
    ProgramMore(es[..5], es[5]);
    ProgramMore(es[..6], es[6]);
    ProgramMore(es[..7], es[7]);
    ProgramMore(es[..8], es[8]);
  }

  lemma LateImpossible(sc: seq<Event>)
    requires forall t: Thread :: ProgramOf(sc, t) == LateProgram(t)
    ensures !ScRun(map[], sc)
  {
    if ScRun(map[], sc) {
      assert |ProgramOf(sc, 2)| == 3 && |ProgramOf(sc, 3)| == 2;
      LateBeginning(sc);
      assert false;
    }
  }

  lemma NoOrderExplainsLateStore()
    ensures !SequentiallyConsistent(map[], LateStore())
  {
    hide LateStore, LateProgram, ProgramOf, ScRun;
    if SequentiallyConsistent(map[], LateStore()) {
      var sc: seq<Event> :| ScRun(map[], sc) && SamePrograms(sc, LateStore());
      forall t: Thread
        ensures ProgramOf(sc, t) == LateProgram(t)
      {
        LateStorePrograms(t);
      }
      LateImpossible(sc);
    }
  }

  lemma LateStoreRecorded()
    ensures Receivable(PsoRecordsOf(LateStore()), 4)
  {
    var es := LateStore();
    hide RecordsOf, PsoRecordsOf, TraceOf, Accepted;
    RecordedWithin(es, 4);
    BeginsWith(es, 1, 0);
    BeginsWith(es, 2, 4);
    BeginsWith(es, 3, 1);
  }

  /** The third thread's store is taken for flushed, and the second thread has not begun. */
  lemma LateFirstHalf(t: Thread)
    ensures var s := PsoRebuilt(LateStore()[..4], t);
            s.loads == {} && s.stores == {} && (t == 2 ==> s.buffers == map[])
  {
    var es := LateStore();
    Prefixes(es);
    hide PsoRebuilt, PassedIn;
    PsoStart();
    ScanStep(es, 0, t);
    ScanStep(es, 1, t);
    ScanStep(es, 2, t);
    ScanStep(es, 3, t);
  }

  lemma NothingFoundLate(t: Thread)
    ensures PsoRebuilt(LateStore(), t).loads == {} && PsoRebuilt(LateStore(), t).stores == {}
  {
    var es := LateStore();
    Prefixes(es);
    LateFirstHalf(t);
    hide PsoRebuilt, PassedIn;
    ScanStep(es, 4, t);
    ScanStep(es, 5, t);
    ScanStep(es, 6, t);
    ScanStep(es, 7, t);
    ScanStep(es, 8, t);
  }

  /** Under PSO too a misplaced flush hides a load that passes a store, and nothing is found to fence. */
  lemma OverlookedByPso()
    ensures PsoRun(map[], LateStore()) && Scheduled(LateStore()) && FlushesHit(LateStore()) && AllLabelled(LateStore())
    ensures !SequentiallyConsistent(map[], LateStore()) && FailuresPassNothing(map[], LateStore())
    ensures Receivable(PsoRecordsOf(LateStore()), 4) && NothingFound(LateStore())
  {
    LateStoreScheduled();
    LateStoreRun();
    NoOrderExplainsLateStore();
    LateStoreRecorded();
    hide PsoRun, FlushesHit, PsoRebuilt, Receivable, FailuresPassNothing, Scheduled, AllLabelled, LateStore;
    forall t: Thread
      ensures PsoRebuilt(LateStore(), t).loads == {} && PsoRebuilt(LateStore(), t).stores == {}
    {
      NothingFoundLate(t);
    }
  }

  lemma LateStoreScheduled()
    ensures Scheduled(LateStore()) && AllLabelled(LateStore()) && FailuresPassNothing(map[], LateStore())
  {
    hide FailuresPassNothing;
    NoSwaps(LateStore());
    var es := LateStore();
    assert Accesses(es, 0) && Accesses(es, 1) && Accesses(es, 3) && Accesses(es, 6);
    assert Turn(es, 1) && Turn(es, 2) && Turn(es, 3) && Turn(es, 4);
    assert Turn(es, 5) && Turn(es, 6) && Turn(es, 7) && Turn(es, 8);
  }

  lemma {:induction false} NoSwaps(es: seq<Event>)
    requires forall i :: 0 <= i < |es| ==> !es[i].Cas?
    ensures FailuresPassNothing(map[], es)
    decreases |es|
  {
    if es != [] {
      NoSwaps(Front(es));
    }
  }
}
