/**
  From a recorded trace to the pairs of instructions that a fence should keep apart. The generator
  rebuilds the store buffer of each thread from what the interpreter recorded, and notes a pair whenever
  a load passes a buffered store to another address. Its pairs are the bypasses of the run exactly as
  long as the rebuilt buffers are the real ones.
*/
module FenceConstraints {
  import opened Common
  import opened StoreBuffers
  import opened SequentialConsistency

  // ----- what the interpreter records under TSO -----

  datatype Kind =
    | READ | WRITE | FLUSH_FENCE
    | FLUSH_CAS_TSO | FLUSH_CAS_PSO | FLUSH_RANDOM_TSO | FLUSH_RANDOM_PSO

  datatype Rec = Rec(thr: Thread, kind: Kind, location: Address, instr: int)

  /** A flush by the scheduler is recorded for the thread that ran last, whichever buffer was flushed. */
  function Records(e: Event): seq<Rec> {
    match e
    case Store(t, a, _, l) => [Rec(t, WRITE, a, l)]
    case Load(t, a, _, l) => [Rec(t, READ, a, l)]
    case Fence(t) => [Rec(t, FLUSH_FENCE, 0, 0)]
    case StoreFence(t) => [Rec(t, FLUSH_FENCE, 0, 0)]
    case Cas(t, a, _, _, ok, _) =>
      (if ok then [Rec(t, WRITE, a, 0)] else []) + [Rec(t, FLUSH_CAS_TSO, 0, 0)]
    case Flush(_, _, current) => [Rec(current, FLUSH_RANDOM_TSO, 0, -1)]
  }

  function RecordsOf(es: seq<Event>): seq<Rec> {
    if es == [] then [] else RecordsOf(Front(es)) + Records(Last(es))
  }

  /** The records of one thread, in order. */
  function TraceOf(trace: seq<Rec>, t: Thread): seq<Rec> {
    if trace == [] then [] else TraceOf(Front(trace), t) + (if Last(trace).thr == t then [Last(trace)] else [])
  }

  lemma {:induction false} TraceConcat(a: seq<Rec>, b: seq<Rec>, t: Thread)
    ensures TraceOf(a + b, t) == TraceOf(a, t) + TraceOf(b, t)
    decreases |b|
  {
    if b == [] {
      assert a + b == a;
    } else {
      assert Front(a + b) == a + Front(b) && Last(a + b) == Last(b);
      TraceConcat(a, Front(b), t);
    }
  }

  // ----- the generator -----

  /** The rebuilt store buffer, and the pairs so far. */
  datatype Scan = Scan(buffer: seq<Rec>, pairs: set<(int, int)>)

  /** The buffered stores to other addresses, paired with `r`. */
  function Passed(buffer: seq<Rec>, r: Rec): set<(int, int)> {
    set i | 0 <= i < |buffer| && buffer[i].location != r.location :: (buffer[i].instr, r.instr)
  }

  /** Instructions have labels other than 0; a record with label 0 ends a segment, and the buffer is forgotten. */
  function ScanNext(s: Scan, r: Rec): Scan {
    if r.instr == 0 then Scan([], s.pairs)
    else
      match r.kind
      case READ => Scan(s.buffer, s.pairs + Passed(s.buffer, r))
      case WRITE => Scan(s.buffer + [r], s.pairs)
      case FLUSH_RANDOM_TSO => if s.buffer == [] then s else Scan(s.buffer[1..], s.pairs)
      case _ => s
  }

  function ScanOf(trace: seq<Rec>): Scan {
    if trace == [] then Scan([], {}) else ScanNext(ScanOf(Front(trace)), Last(trace))
  }

  /** What is asserted of the records of a thread: there are some, and the first has a label. */
  predicate Accepted(trace: seq<Rec>) {
    trace != [] && trace[0].instr != 0
  }

  /** And of a whole trace of the threads from 1, which is the main thread, to n - 1. */
  ghost predicate Receivable(trace: seq<Rec>, n: nat) {
    && (forall i :: 0 <= i < |trace| ==> 1 <= trace[i].thr < n)
    && (forall t: Thread :: 1 <= t < n ==> Accepted(TraceOf(trace, t)))
  }

  /** The pairs of the threads from 1 to n - 1. */
  function AllPairs(trace: seq<Rec>, n: nat): set<(int, int)>
    requires n > 0
  {
    if n == 1 then {} else AllPairs(trace, n - 1) + ScanOf(TraceOf(trace, n - 1)).pairs
  }

  lemma {:induction false} AllPairsHave(trace: seq<Rec>, n: nat, t: Thread)
    requires 1 <= t < n
    ensures ScanOf(TraceOf(trace, t)).pairs <= AllPairs(trace, n)
    decreases n
  {
    if t < n - 1 {
      AllPairsHave(trace, n - 1, t);
    }
  }

  // ----- rebuilt and real buffers -----

  /** The records of buffered stores. */
  function Recs(t: Thread, b: seq<Entry>): (r: seq<Rec>)
    ensures |r| == |b| && forall i :: 0 <= i < |b| ==> r[i] == Rec(t, WRITE, b[i].addr, b[i].instr)
  {
    seq(|b|, i requires 0 <= i < |b| => Rec(t, WRITE, b[i].addr, b[i].instr))
  }

  /** What the generator makes of the records of thread `t`. */
  function Rebuilt(es: seq<Event>, t: Thread): Scan {
    ScanOf(TraceOf(RecordsOf(es), t))
  }

  /** Loads and stores have labels other than 0. */
  ghost predicate Labelled(es: seq<Event>) {
    forall i :: 0 <= i < |es| && (es[i].Store? || es[i].Load?) ==> es[i].instr != 0
  }

  function ScanAfter(s: Scan, e: Event, t: Thread): Scan {
    match e
    case Flush(_, _, current) => if current == t && s.buffer != [] then Scan(s.buffer[1..], s.pairs) else s
    case Store(u, a, _, l) => if u == t then Scan(s.buffer + [Rec(t, WRITE, a, l)], s.pairs) else s
    case Load(u, a, _, l) => if u == t then Scan(s.buffer, s.pairs + Passed(s.buffer, Rec(t, READ, a, l))) else s
    case _ => if e.t == t then Scan([], s.pairs) else s
  }

  lemma RecordMore(trace: seq<Rec>, r: Rec, t: Thread)
    ensures ScanOf(TraceOf(trace + [r], t)) ==
            if r.thr == t then ScanNext(ScanOf(TraceOf(trace, t)), r) else ScanOf(TraceOf(trace, t))
  {
    assert Front(trace + [r]) == trace && Last(trace + [r]) == r;
    if r.thr == t {
      assert Front(TraceOf(trace, t) + [r]) == TraceOf(trace, t);
    } else {
      assert TraceOf(trace, t) + [] == TraceOf(trace, t);
    }
  }

  function ScanMaybe(s: Scan, r: Rec, t: Thread): Scan {
    if r.thr == t then ScanNext(s, r) else s
  }

  lemma RecordTwice(trace: seq<Rec>, r: Rec, r': Rec, t: Thread)
    ensures ScanOf(TraceOf(trace + [r, r'], t)) == ScanMaybe(ScanMaybe(ScanOf(TraceOf(trace, t)), r, t), r', t)
  {
    hide ScanNext, ScanOf, TraceOf;
    RecordMore(trace, r, t);
    RecordMore(trace + [r], r', t);
    assert trace + [r, r'] == trace + [r] + [r'];
  }

  lemma OneRecord(es: seq<Event>, e: Event, r: Rec, t: Thread)
    requires Records(e) == [r]
    ensures Rebuilt(es + [e], t) == ScanMaybe(Rebuilt(es, t), r, t)
  {
    assert Front(es + [e]) == es && Last(es + [e]) == e;
    hide Records, ScanNext, ScanOf, TraceOf;
    RecordMore(RecordsOf(es), r, t);
  }

  lemma TwoRecords(es: seq<Event>, e: Event, r: Rec, r': Rec, t: Thread)
    requires Records(e) == [r, r']
    ensures Rebuilt(es + [e], t) == ScanMaybe(ScanMaybe(Rebuilt(es, t), r, t), r', t)
  {
    assert Front(es + [e]) == es && Last(es + [e]) == e;
    hide Records, ScanMaybe, ScanOf, TraceOf;
    RecordTwice(RecordsOf(es), r, r', t);
  }

  lemma RebuiltMore(es: seq<Event>, e: Event, t: Thread)
    requires e.Store? || e.Load? ==> e.instr != 0
    ensures Rebuilt(es + [e], t) == ScanAfter(Rebuilt(es, t), e, t)
  {
    hide Rebuilt, Passed;
    match e
    case Store(u, a, _, l) => OneRecord(es, e, Rec(u, WRITE, a, l), t);
    case Load(u, a, _, l) => OneRecord(es, e, Rec(u, READ, a, l), t);
    case Fence(u) => OneRecord(es, e, Rec(u, FLUSH_FENCE, 0, 0), t);
    case StoreFence(u) => OneRecord(es, e, Rec(u, FLUSH_FENCE, 0, 0), t);
    case Flush(_, _, current) => OneRecord(es, e, Rec(current, FLUSH_RANDOM_TSO, 0, -1), t);
    case Cas(u, a, _, _, ok, _) =>
      if ok {
        TwoRecords(es, e, Rec(u, WRITE, a, 0), Rec(u, FLUSH_CAS_TSO, 0, 0), t);
      } else {
        OneRecord(es, e, Rec(u, FLUSH_CAS_TSO, 0, 0), t);
      }
  }

  /** The generator has rebuilt the buffers of all threads. */
  ghost predicate Mirrors(m: Memory, es: seq<Event>) {
    forall t: Thread :: Rebuilt(es, t).buffer == Recs(t, TsoState(m, es).Buffer(t))
  }

  ghost predicate AlwaysMirrors(m: Memory, es: seq<Event>) {
    Mirrors(m, es) && (es == [] || AlwaysMirrors(m, Front(es)))
  }

  /** A flush is recorded for the thread whose buffer was flushed, or both buffers were empty; and a
      store-store fence, which flushes nothing but is recorded as if it did, finds an empty buffer. */
  ghost predicate Attributed(s: Tso, e: Event) {
    match e
    case Flush(t, _, current) => t == current || (s.Buffer(t) == [] && s.Buffer(current) == [])
    case StoreFence(t) => s.Buffer(t) == []
    case _ => true
  }

  ghost predicate AllAttributed(m: Memory, es: seq<Event>) {
    es == [] || (AllAttributed(m, Front(es)) && Attributed(TsoState(m, Front(es)), Last(es)))
  }

  lemma MirrorKept(scan: Scan, s: Tso, e: Event, t: Thread)
    requires scan.buffer == Recs(t, s.Buffer(t)) && Attributed(s, e)
    ensures ScanAfter(scan, e, t).buffer == Recs(t, TsoNext(s, e).Buffer(t))
  {
    hide Passed, Drain;
  }

  /** Of the flushed buffer and the one the flush is recorded for, only one gets shorter. */
  lemma MirrorLost(s: Tso, e: Event, flushed: Scan, current: Scan)
    requires e.Flush? && !Attributed(s, e)
    requires flushed.buffer == Recs(e.t, s.Buffer(e.t)) && current.buffer == Recs(e.current, s.Buffer(e.current))
    ensures || ScanAfter(flushed, e, e.t).buffer != Recs(e.t, TsoNext(s, e).Buffer(e.t))
            || ScanAfter(current, e, e.current).buffer != Recs(e.current, TsoNext(s, e).Buffer(e.current))
  {
    assert |flushed.buffer| == |s.Buffer(e.t)| && |current.buffer| == |s.Buffer(e.current)|;
    if s.Buffer(e.t) != [] {
      assert |TsoNext(s, e).Buffer(e.t)| == |s.Buffer(e.t)| - 1;
    } else {
      assert |TsoNext(s, e).Buffer(e.current)| == |s.Buffer(e.current)|;
    }
  }

  /** The store-store fence makes the generator forget a buffer that is still there. */
  lemma MirrorForgotten(s: Tso, e: Event, scan: Scan)
    requires e.StoreFence? && !Attributed(s, e)
    ensures ScanAfter(scan, e, e.t).buffer != Recs(e.t, TsoNext(s, e).Buffer(e.t))
  {
    assert |Recs(e.t, TsoNext(s, e).Buffer(e.t))| == |s.Buffer(e.t)|;
  }

  lemma MirrorStep(m: Memory, es: seq<Event>, e: Event)
    requires Mirrors(m, es) && (e.Store? || e.Load? ==> e.instr != 0)
    ensures Mirrors(m, es + [e]) <==> Attributed(TsoState(m, es), e)
  {
    hide Rebuilt, ScanAfter, TsoNext, Attributed;
    var s := TsoState(m, es);
    assert Front(es + [e]) == es && TsoState(m, es + [e]) == TsoNext(s, e);
    if Attributed(s, e) {
      forall t: Thread
        ensures Rebuilt(es + [e], t).buffer == Recs(t, TsoNext(s, e).Buffer(t))
      {
        RebuiltMore(es, e, t);
        assert Rebuilt(es, t).buffer == Recs(t, s.Buffer(t));
        MirrorKept(Rebuilt(es, t), s, e, t);
      }
    } else if e.StoreFence? {
      RebuiltMore(es, e, e.t);
      MirrorForgotten(s, e, Rebuilt(es, e.t));
    } else {
      OnlyFlushes(s, e);
      RebuiltMore(es, e, e.t);
      RebuiltMore(es, e, e.current);
      assert Rebuilt(es, e.t).buffer == Recs(e.t, s.Buffer(e.t));
      assert Rebuilt(es, e.current).buffer == Recs(e.current, s.Buffer(e.current));
      MirrorLost(s, e, Rebuilt(es, e.t), Rebuilt(es, e.current));
      assert Rebuilt(es + [e], e.t).buffer != Recs(e.t, TsoNext(s, e).Buffer(e.t))
          || Rebuilt(es + [e], e.current).buffer != Recs(e.current, TsoNext(s, e).Buffer(e.current));
    }
  }

  lemma OnlyFlushes(s: Tso, e: Event)
    requires !Attributed(s, e)
    ensures e.Flush? || e.StoreFence?
  {
  }

  /** The rebuilt buffers are the real ones throughout the run if and only if every flush is recorded for
      the thread that it flushes; all others, and all store-store fences, must hit empty buffers. */
  lemma {:induction false} RebuiltIsReal(m: Memory, es: seq<Event>)
    requires Labelled(es)
    ensures AlwaysMirrors(m, es) <==> AllAttributed(m, es)
    decreases |es|
  {
    hide Mirrors, Attributed;
    if es == [] {
      NothingMirrors(m);
    } else {
      RebuiltIsReal(m, Front(es));
      assert es == Front(es) + [Last(es)];
      if AllAttributed(m, Front(es)) {
        assert Mirrors(m, Front(es));
        MirrorStep(m, Front(es), Last(es));
      }
    }
  }

  lemma NothingMirrors(m: Memory)
    ensures Mirrors(m, [])
  {
  }

  /** The bypasses of thread `t`: a store that waits in the buffer, and the load that passes it. */
  function Bypasses(m: Memory, es: seq<Event>, t: Thread): set<(int, int)> {
    if es == [] then {}
    else
      var b, e := TsoState(m, Front(es)).Buffer(t), Last(es);
      Bypasses(m, Front(es), t)
      + (if e.Load? && e.t == t then PassedBy(b, e.addr, e.instr) else {})
  }

  function PassedBy(b: seq<Entry>, a: Address, l: int): set<(int, int)> {
    set i | 0 <= i < |b| && b[i].addr != a :: (b[i].instr, l)
  }

  lemma PassedNone(b: seq<Entry>, a: Address, l: int)
    ensures PassedBy(b, a, l) == {} <==> AllAt(b, a)
  {
    if i :| 0 <= i < |b| && b[i].addr != a {
      assert (b[i].instr, l) in PassedBy(b, a, l);
    }
  }

  /** Then the generator's pairs are exactly the bypasses of the run. */
  lemma {:induction false} PairsAreBypasses(m: Memory, es: seq<Event>, t: Thread)
    requires Labelled(es) && AllAttributed(m, es)
    ensures Rebuilt(es, t).pairs == Bypasses(m, es, t)
    decreases |es|
  {
    hide Rebuilt, AlwaysMirrors, AllAttributed;
    if es == [] {
      NothingRebuilt(t);
    } else {
      var front, e := Front(es), Last(es);
      AttributedFront(m, es);
      PairsAreBypasses(m, front, t);
      RebuiltIsReal(m, front);
      assert es == front + [e];
      RebuiltMore(front, e, t);
      MirrorsNow(m, front);
      assert Rebuilt(front, t).buffer == Recs(t, TsoState(m, front).Buffer(t));
    }
  }

  lemma NothingRebuilt(t: Thread)
    ensures Rebuilt([], t) == Scan([], {})
  {
  }

  lemma AttributedFront(m: Memory, es: seq<Event>)
    requires es != [] && AllAttributed(m, es)
    ensures AllAttributed(m, Front(es))
  {
  }

  lemma MirrorsNow(m: Memory, es: seq<Event>)
    requires AlwaysMirrors(m, es)
    ensures Mirrors(m, es)
  {
  }

  lemma BypassesStep(m: Memory, es: seq<Event>, t: Thread)
    requires es != []
    ensures var front, e := Front(es), Last(es);
            Bypasses(m, es, t) == {} <==>
              Bypasses(m, front, t) == {} && (t == e.t ==> NoBypassBy(TsoState(m, front), e))
  {
    var e := Last(es);
    if e.Load? {
      PassedNone(TsoState(m, Front(es)).Buffer(e.t), e.addr, e.instr);
    }
    hide PassedBy, AllAt, TsoState;
  }

  lemma {:induction false} NoPairNoBypass(m: Memory, es: seq<Event>)
    ensures NoBypass(m, es) <==> forall t: Thread :: Bypasses(m, es, t) == {}
    decreases |es|
  {
    hide Bypasses, NoBypassBy, TsoState;
    if es == [] {
      forall t: Thread
        ensures Bypasses(m, es, t) == {}
      {
        NothingBypasses(m, t);
      }
    } else {
      NoPairNoBypass(m, Front(es));
      BypassesStep(m, es, Last(es).t);
      if NoBypass(m, es) {
        forall t: Thread
          ensures Bypasses(m, es, t) == {}
        {
          assert Bypasses(m, Front(es), t) == {};
          BypassesStep(m, es, t);
        }
      } else if !NoBypass(m, Front(es)) {
        var t: Thread :| Bypasses(m, Front(es), t) != {};
        BypassesStep(m, es, t);
      }
    }
  }

  lemma NothingBypasses(m: Memory, t: Thread)
    ensures Bypasses(m, [], t) == {}
  {
  }

  /**
    What the synthesis rests on: with flushes recorded for the right thread, a run for which the
    generator finds nothing to fence is sequentially consistent.
  */
  lemma NothingToFence(m: Memory, es: seq<Event>, n: nat)
    requires TsoRun(m, es) && Labelled(es) && AllAttributed(m, es) && ThreadsBelow(es, n)
    requires forall t: Thread :: Rebuilt(es, t).pairs == {}
    ensures SequentiallyConsistent(m, es)
  {
    hide Rebuilt, Bypasses, AllAttributed, NoBypass, SequentiallyConsistent;
    forall t: Thread
      ensures Bypasses(m, es, t) == {}
    {
      PairsAreBypasses(m, es, t);
    }
    NoPairNoBypass(m, es);
    NoBypassIsSequentiallyConsistent(m, es, n);
  }

  lemma {:induction false} NoTrace(trace: seq<Rec>, t: Thread)
    requires forall i :: 0 <= i < |trace| ==> trace[i].thr != t
    ensures TraceOf(trace, t) == []
    decreases |trace|
  {
    if trace != [] {
      NoTrace(Front(trace), t);
    }
  }

  /** In terms of the pairs of all threads: an empty clause is right about such a run. */
  lemma EmptyClauseIsRight(m: Memory, es: seq<Event>, n: nat)
    requires TsoRun(m, es) && Labelled(es) && AllAttributed(m, es) && ThreadsBelow(es, n)
    requires n > 0 && Receivable(RecordsOf(es), n) && AllPairs(RecordsOf(es), n) == {}
    ensures SequentiallyConsistent(m, es)
  {
    forall t: Thread
      ensures Rebuilt(es, t).pairs == {}
    {
      if 1 <= t < n {
        AllPairsHave(RecordsOf(es), n, t);
      } else {
        NoTrace(RecordsOf(es), t);
      }
    }
    NothingToFence(m, es, n);
  }

  /** A fence, or a compare-and-swap, follows every store labelled `st` before a load labelled `ld` of the thread. */
  ghost predicate Separated(es: seq<Event>, t: Thread, st: int, ld: int) {
    forall i, j :: 0 <= i < j < |es| && es[i].Store? && es[j].Load? && es[i].t == es[j].t == t
                   && es[i].instr == st && es[j].instr == ld ==>
      exists k :: i < k < j && Drains(es[k], t)
  }

  lemma SeparatedFront(es: seq<Event>, t: Thread, st: int, ld: int)
    requires es != [] && Separated(es, t, st, ld)
    ensures Separated(Front(es), t, st, ld)
  {
    var front := Front(es);
    forall i, j | 0 <= i < j < |front| && front[i].Store? && front[j].Load? && front[i].t == front[j].t == t
                  && front[i].instr == st && front[j].instr == ld
      ensures exists k :: i < k < j && Drains(front[k], t)
    {
      assert es[i] == front[i] && es[j] == front[j];
      var k :| i < k < j && Drains(es[k], t);
      assert front[k] == es[k];
    }
  }

  lemma PendingIsNotSeparated(es: seq<Event>, x: Entry, i: nat)
    requires es != [] && Last(es).Load? && Pending(Front(es), Last(es).t, x, i)
    ensures !Separated(es, Last(es).t, x.instr, Last(es).instr)
  {
    var front, j := Front(es), |es| - 1;
    assert es[i] == front[i] && es[j] == Last(es);
    forall k | i < k < j
      ensures !Drains(es[k], es[i].t)
    {
      assert es[k] == front[k];
    }
  }

  /** A solution separates at least one pair of each failing run; a separated pair is no bypass of any run. */
  lemma {:induction false} SeparatedIsNoBypass(m: Memory, es: seq<Event>, t: Thread, st: int, ld: int)
    requires Separated(es, t, st, ld)
    ensures (st, ld) !in Bypasses(m, es, t)
    decreases |es|
  {
    hide TsoState;
    if es != [] {
      var front, e := Front(es), Last(es);
      var b := TsoState(m, front).Buffer(t);
      SeparatedFront(es, t, st, ld);
      SeparatedIsNoBypass(m, front, t, st, ld);
      if e.Load? && e.t == t && (st, ld) in PassedBy(b, e.addr, e.instr) {
        var x :| 0 <= x < |b| && b[x].addr != e.addr && (st, ld) == (b[x].instr, e.instr);
        var i := BufferedIsPending(m, front, t, x);
        PendingIsNotSeparated(es, b[x], i);
      }
    }
  }

  /** Whatever the flushes: what is in a rebuilt buffer was stored by the thread and not drained since. */
  lemma {:induction false} RebuiltIsPending(es: seq<Event>, t: Thread, j: nat) returns (i: nat)
    requires Labelled(es) && j < |Rebuilt(es, t).buffer|
    ensures i < |es| && es[i].Store? && Pending(es, t, EntryOf(es[i]), i)
      && es[i].instr == Rebuilt(es, t).buffer[j].instr
    decreases |es|
  {
    hide Rebuilt, Passed;
    if es == [] {
      NothingRebuilt(t);
    }
    var front, e := Front(es), Last(es);
    assert es == front + [e];
    RebuiltMore(front, e, t);
    var b := Rebuilt(front, t).buffer;
    if e.Store? && e.t == t && j == |b| {
      i := |es| - 1;
    } else {
      i := RebuiltIsPending(front, t, if e.Flush? && e.current == t && b != [] then j + 1 else j);
      assert es[i] == front[i];
    }
  }

  /** So a separated pair is found in no run, whichever threads its flushes are recorded for. */
  lemma {:induction false} SeparatedIsNotFound(es: seq<Event>, t: Thread, st: int, ld: int)
    requires Labelled(es) && Separated(es, t, st, ld)
    ensures (st, ld) !in Rebuilt(es, t).pairs
    decreases |es|
  {
    hide Rebuilt;
    if es == [] {
      NothingRebuilt(t);
    } else {
      var front, e := Front(es), Last(es);
      assert es == front + [e];
      SeparatedFront(es, t, st, ld);
      SeparatedIsNotFound(front, t, st, ld);
      RebuiltMore(front, e, t);
      var b := Rebuilt(front, t).buffer;
      if e.Load? && e.t == t && (st, ld) in Passed(b, Rec(t, READ, e.addr, e.instr)) {
        var j :| 0 <= j < |b| && b[j].location != e.addr && (st, ld) == (b[j].instr, e.instr);
        var i := RebuiltIsPending(front, t, j);
        PendingIsNotSeparated(es, EntryOf(front[i]), i);
      }
    }
  }

  /**
    So a run that failed because of the pairs it shows, and whose flushes were recorded for the right
    thread, showed a real bypass that no later run has or shows.
  */
  lemma ClauseExcludesRun(m: Memory, failed: seq<Event>, es: seq<Event>, t: Thread, st: int, ld: int)
    requires Labelled(failed) && AllAttributed(m, failed) && (st, ld) in Rebuilt(failed, t).pairs
    requires Labelled(es) && Separated(es, t, st, ld)
    ensures (st, ld) in Bypasses(m, failed, t) && (st, ld) !in Bypasses(m, es, t)
    ensures (st, ld) !in Rebuilt(es, t).pairs && Rebuilt(es, t).pairs != Rebuilt(failed, t).pairs
  {
    hide Rebuilt, Bypasses, AllAttributed, Labelled, Separated;
    PairsAreBypasses(m, failed, t);
    SeparatedIsNoBypass(m, es, t, st, ld);
    SeparatedIsNotFound(es, t, st, ld);
  }
}
