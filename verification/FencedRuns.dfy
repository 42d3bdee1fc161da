/**
  The runs of the program that a round of the synthesis has fenced. Under TSO no run shows again what a failed
  run showed. Under PSO this is so exactly if merging has left a fence for one of the pairs; whichever threads
  the flushes are recorded for.
*/
module FencedRuns {
  import opened Common
  import opened StoreBuffers
  import opened SequentialConsistency
  import opened PartialStoreOrder
  import opened FenceConstraints
  import opened PsoConstraints
  import opened ConstraintGenerator
  import opened FenceInsertion

  // ----- TSO -----

  /** Behind every store with this label comes a store-load fence, before any access of its thread. */
  ghost predicate FencedBehind(es: seq<Event>, st: int) {
    forall i, j :: 0 <= i < j < |es| && es[i].Store? && es[i].instr == st && es[j].t == es[i].t && Visible(es[j]) ==>
      exists k :: i < k < j && Drains(es[k], es[i].t)
  }

  lemma FencedSeparates(es: seq<Event>, t: Thread, st: int, ld: int)
    requires FencedBehind(es, st)
    ensures Separated(es, t, st, ld)
  {
    forall i, j | 0 <= i < j < |es| && es[i].Store? && es[j].Load? && es[i].t == es[j].t == t
                  && es[i].instr == st && es[j].instr == ld
      ensures exists k :: i < k < j && Drains(es[k], t)
    {
      assert Visible(es[j]);
    }
  }

  lemma {:induction false} NotInAllPairs(trace: seq<Rec>, n: nat, p: Pair)
    requires n > 0 && forall t: Thread :: p !in ScanOf(TraceOf(trace, t)).pairs
    ensures p !in AllPairs(trace, n)
    decreases n
  {
    hide ScanOf, TraceOf;
    if n > 1 {
      NotInAllPairs(trace, n - 1, p);
    }
  }

  lemma FencedIsNotShown(es: seq<Event>, n: nat, p: Pair)
    requires Labelled(es) && n > 0 && FencedBehind(es, p.0)
    ensures p !in AllPairs(RecordsOf(es), n)
  {
    hide Rebuilt, Labelled, FencedBehind, Separated;
    forall t: Thread
      ensures p !in ScanOf(TraceOf(RecordsOf(es), t)).pairs
    {
      FencedSeparates(es, t, p.0, p.1);
      SeparatedIsNotFound(es, t, p.0, p.1);
      RebuiltIs(es, t);
    }
    NotInAllPairs(RecordsOf(es), n, p);
  }

  lemma RebuiltIs(es: seq<Event>, t: Thread)
    ensures Rebuilt(es, t) == ScanOf(TraceOf(RecordsOf(es), t))
  {
  }

  /**
    What a round of the synthesis achieves under TSO. `clause` are the pairs that a failed run showed; the
    solution has the literal of one of them. After merging and inserting, no run shows all these pairs
    again; so the failed run has been excluded.
  */
  lemma RoundExcludesFailure(es: seq<Event>, n: nat, ls: Literals, lits: seq<int>, solved: set<int>,
                             fenced: set<int>, clause: set<Pair>, p: Pair)
    requires Numbered(ls) && forall k :: k in solved ==> k in fenced || k == 0
    requires p in clause && p in ls.loads && ls.loads[p] in lits
    requires forall st :: st in fenced + LoadStores(ls, Kept(ls, lits, solved)) ==> FencedBehind(es, st)
    requires Labelled(es) && n > 0
    ensures p !in AllPairs(RecordsOf(es), n) && !(clause <= AllPairs(RecordsOf(es), n))
  {
    var lit := ls.loads[p];
    assert IsLiteral(ls.loads, lit) && PairOf(ls.loads, lit) == p;
    assert FenceAt(ls, lit) == p.0;
    hide FencedBehind, Labelled, AllPairs, FenceAt;
    LoadIsFenced(ls, lits, lit);
    LoadFencesAfter(ls, lits, solved, fenced, p.0);
    FencedIsNotShown(es, n, p);
  }

  /** The same for what `Synthesis.Round` leaves: all failed runs of the round are excluded. */
  lemma FailuresAreExcluded(failed: seq<Failure>, slFenced: set<int>, es: seq<Event>, n: nat)
    requires Usable(failed) && Labelled(es) && n > 0
    requires forall k :: 0 <= k < |failed| ==>
               OneIsFenced(AllPairs(failed[k].trace, failed[k].nextThread), slFenced)
    requires forall st :: st in slFenced ==> FencedBehind(es, st)
    ensures forall k :: 0 <= k < |failed| ==>
              !(AllPairs(failed[k].trace, failed[k].nextThread) <= AllPairs(RecordsOf(es), n))
  {
    hide FencedBehind, Labelled, AllPairs, Receivable;
    forall k | 0 <= k < |failed|
      ensures !(AllPairs(failed[k].trace, failed[k].nextThread) <= AllPairs(RecordsOf(es), n))
    {
      var pairs := AllPairs(failed[k].trace, failed[k].nextThread);
      assert OneIsFenced(pairs, slFenced);
      var p :| p in pairs && p.0 in slFenced;
      FencedIsNotShown(es, n, p);
    }
  }

  // ----- PSO -----

  /** Behind every store with this label comes a fence of either kind, before any access of its thread. */
  ghost predicate PsoFencedBehind(es: seq<Event>, st: int) {
    forall i, j :: 0 <= i < j < |es| && es[i].Store? && es[i].instr == st && es[j].t == es[i].t && Visible(es[j]) ==>
      exists k :: i < k < j && es[k].t == es[i].t && (es[k].Fence? || es[k].StoreFence?)
  }

  lemma PsoFencedSeparates(es: seq<Event>, t: Thread, st: int, l: int)
    requires PsoFencedBehind(es, st)
    ensures PsoSeparated(es, t, st, l)
  {
    forall i, j | 0 <= i < j < |es| && es[i].Store? && Visible(es[j]) && es[i].t == es[j].t == t
                  && es[i].instr == st && es[j].instr == l && es[i].addr != es[j].addr
      ensures exists k :: i < k < j && PsoDrains(es[k], t, es[i].addr)
    {
      var k :| i < k < j && es[k].t == es[i].t && (es[k].Fence? || es[k].StoreFence?);
      assert PsoDrains(es[k], t, es[i].addr);
    }
  }

  lemma {:induction false} NotInAllFound(trace: seq<Rec>, n: nat, p: Pair)
    requires n > 0
    requires forall t: Thread :: p !in PsoScanOf(TraceOf(trace, t)).loads && p !in PsoScanOf(TraceOf(trace, t)).stores
    ensures p !in AllFound(PSO, trace, n).loads && p !in AllFound(PSO, trace, n).stores
    decreases n
  {
    hide PsoScanOf, TraceOf;
    if n > 1 {
      NotInAllFound(trace, n - 1, p);
    }
  }

  lemma PsoFencedIsNotShown(es: seq<Event>, n: nat, p: Pair)
    requires AllLabelled(es) && n > 0 && PsoFencedBehind(es, p.0)
    ensures var all := AllFound(PSO, PsoRecordsOf(es), n); p !in all.loads && p !in all.stores
  {
    hide PsoRebuilt, AllLabelled, PsoFencedBehind, PsoSeparated;
    forall t: Thread
      ensures p !in PsoScanOf(TraceOf(PsoRecordsOf(es), t)).loads
      ensures p !in PsoScanOf(TraceOf(PsoRecordsOf(es), t)).stores
    {
      PsoFencedSeparates(es, t, p.0, p.1);
      PsoSeparatedIsNotFound(es, t, p.0, p.1);
      PsoRebuiltIs(es, t);
    }
    NotInAllFound(PsoRecordsOf(es), n, p);
  }

  lemma PsoRebuiltIs(es: seq<Event>, t: Thread)
    ensures PsoRebuilt(es, t) == PsoScanOf(TraceOf(PsoRecordsOf(es), t))
  {
  }

  /** The run shows all these pairs. */
  ghost predicate Shows(es: seq<Event>, n: nat, f: Found)
    requires n > 0
  {
    var all := AllFound(PSO, PsoRecordsOf(es), n);
    f.loads <= all.loads && f.stores <= all.stores
  }

  ghost predicate AllFencedBehind(es: seq<Event>, fenced: set<int>) {
    forall st :: st in fenced ==> PsoFencedBehind(es, st)
  }

  /** No run of the fenced program that the generator accepts shows all these pairs. */
  ghost predicate Excluded(f: Found, fenced: set<int>) {
    forall m: Memory, es: seq<Event>, n: nat ::
      (n > 0 && PsoRun(m, es) && AllLabelled(es) && AllFencedBehind(es, fenced) && Receivable(PsoRecordsOf(es), n))
      ==> !Shows(es, n, f)
  }

  /** A covered literal of the solution excludes the failed run whose clause it is in, under PSO too. */
  lemma PsoRoundExcludesFailure(es: seq<Event>, n: nat, ls: Literals, lits: seq<int>, solved: set<int>,
                                fenced: set<int>, clause: set<int>, f: Found, lit: int)
    requires Numbered(ls) && forall k :: k in solved ==> k in fenced || k == 0
    requires StandsFor(ls, clause, f) && lit in clause && lit in lits && Covered(ls, lits, solved, fenced, lit)
    requires AllFencedBehind(es, FencedAfter(ls, lits, solved, fenced)) && AllLabelled(es) && n > 0
    ensures !Shows(es, n, f)
  {
    hide PsoFencedBehind, AllLabelled, AllFound, Covered, FencedAfter;
    CoveredIsFenced(ls, lits, solved, fenced, lit);
    var p := PairOfLiteral(ls, clause, f, lit);
    PsoFencedIsNotShown(es, n, p);
  }

  /** In terms of what `Synthesis.Round` leaves: a clause with a fenced store excludes its failed run. */
  lemma KeptFenceExcludes(ls: Literals, clause: set<int>, f: Found, lits: seq<int>, fenced: set<int>)
    requires StandsFor(ls, clause, f) && HasFence(ls, clause, lits, fenced)
    ensures Excluded(f, fenced)
  {
    hide PsoFencedBehind, PsoRun, AllLabelled, AllFound, FenceAt, StandsFor, Receivable;
    var lit :| lit in clause && lit in lits && FenceAt(ls, lit) in fenced;
    var p := PairOfLiteral(ls, clause, f, lit);
    forall m: Memory, es: seq<Event>, n: nat
      | n > 0 && PsoRun(m, es) && AllLabelled(es) && AllFencedBehind(es, fenced)
      ensures !Shows(es, n, f)
    {
      PsoFencedIsNotShown(es, n, p);
    }
  }

  lemma PairOfLiteral(ls: Literals, clause: set<int>, f: Found, lit: int) returns (p: Pair)
    requires StandsFor(ls, clause, f) && lit in clause
    ensures (p in f.loads || p in f.stores) && FenceAt(ls, lit) == p.0
  {
    if IsLiteral(ls.loads, lit) {
      p := PairOf(ls.loads, lit);
    } else {
      p := PairOf(ls.stores, lit);
    }
  }

  // ----- runs that show pairs again -----

  /** A run of the main thread that stores, loads and fences; stores with a fence behind them go straight to memory. */
  ghost predicate Plain(es: seq<Event>, fenced: set<int>) {
    && es != [] && es[0].Load?
    && (forall i :: 0 <= i < |es| ==> es[i].t == 1 && (es[i].Store? || es[i].Load? || es[i] == Fence(1)))
    && (forall i :: 0 <= i < |es| && es[i].Store? && es[i].instr in fenced ==> i + 1 < |es| && es[i + 1] == Fence(1))
  }

  lemma PlainIsFenced(es: seq<Event>, fenced: set<int>)
    requires Plain(es, fenced)
    ensures AllFencedBehind(es, fenced)
  {
    forall st, i, j | st in fenced && 0 <= i < j < |es| && es[i].Store? && es[i].instr == st && es[j].t == es[i].t
                      && Visible(es[j])
      ensures exists k :: i < k < j && es[k].t == es[i].t && (es[k].Fence? || es[k].StoreFence?)
    {
      assert es[i + 1] == Fence(1);
    }
  }

  lemma {:induction false} PlainRecords(es: seq<Event>)
    requires forall i :: 0 <= i < |es| ==> es[i].t == 1 && (es[i].Store? || es[i].Load? || es[i] == Fence(1))
    ensures var trace := PsoRecordsOf(es);
            |trace| == |es| && forall i :: 0 <= i < |es| ==> trace[i] == PsoRecords(es[i])[0]
    decreases |es|
  {
    if es != [] {
      PlainRecords(Front(es));
    }
  }

  lemma {:induction false} OneTrace(trace: seq<Rec>, t: Thread)
    requires forall i :: 0 <= i < |trace| ==> trace[i].thr == t
    ensures TraceOf(trace, t) == trace
    decreases |trace|
  {
    if trace != [] {
      OneTrace(Front(trace), t);
    }
  }

  lemma OneThreadReceivable(trace: seq<Rec>)
    requires trace != [] && trace[0].instr != 0 && forall i :: 0 <= i < |trace| ==> trace[i].thr == 1
    ensures Receivable(trace, 2)
  {
    OneTrace(trace, 1);
    hide TraceOf;
  }

  lemma PlainIsReceivable(es: seq<Event>, fenced: set<int>)
    requires Plain(es, fenced) && AllLabelled(es)
    ensures Receivable(PsoRecordsOf(es), 2)
  {
    hide Receivable, PsoRecordsOf;
    var trace := PsoRecordsOf(es);
    PlainRecords(es);
    forall i | 0 <= i < |trace|
      ensures trace[i].thr == 1
    {
      assert trace[i] == PsoRecords(es[i])[0] && es[i].t == 1;
    }
    assert HasLabel(es[0]) && trace[0] == PsoRecords(es[0])[0];
    OneThreadReceivable(trace);
  }

  /** The store of a pair, its other access, which passes it, and a fence. */
  function Segment(m: Memory, es: seq<Event>, p: Pair, load: bool): seq<Event> {
    var st := Store(1, 0, 0, p.0);
    [st, if load then Load(1, 1, PsoRead(PsoState(m, es + [st]), 1, 1), p.1) else Store(1, 1, 0, p.1), Fence(1)]
  }

  lemma SegmentRuns(m: Memory, es: seq<Event>, p: Pair, load: bool, fenced: set<int>)
    requires PsoRun(m, es) && AllLabelled(es) && Plain(es, fenced) && p.0 != 0 && p.1 != 0 && p.0 !in fenced
    ensures var es' := es + Segment(m, es, p, load); PsoRun(m, es') && AllLabelled(es') && Plain(es', fenced)
  {
    var es' := es + Segment(m, es, p, load);
    var st, e := es'[|es|], es'[|es| + 1];
    PsoOne(m, es, st);
    PsoOne(m, es + [st], e);
    PsoOne(m, es + [st] + [e], Fence(1));
    assert es' == es + [st] + [e] + [Fence(1)];
    hide PsoState, PsoRun, PsoNext, PsoRead;
    forall i | 0 <= i < |es'|
      ensures HasLabel(es'[i]) && es'[i].t == 1 && (es'[i].Store? || es'[i].Load? || es'[i] == Fence(1))
      ensures es'[i].Store? && es'[i].instr in fenced ==> i + 1 < |es'| && es'[i + 1] == Fence(1)
    {
      if i < |es| {
        assert es'[i] == es[i] && HasLabel(es[i]);
      }
    }
    assert es'[0] == es[0];
  }

  lemma SegmentShows(m: Memory, es: seq<Event>, p: Pair, load: bool)
    requires p.0 != 0 && p.1 != 0
    ensures var s, s' := PsoRebuilt(es, 1), PsoRebuilt(es + Segment(m, es, p, load), 1);
            && s.loads <= s'.loads && s.stores <= s'.stores
            && (if load then p in s'.loads else p in s'.stores)
  {
    hide PsoRebuilt, PsoScanAfter, PassedIn, PsoRead;
    var es' := es + Segment(m, es, p, load);
    var st, e := es'[|es|], es'[|es| + 1];
    assert es' == es + [st] + [e] + [Fence(1)];
    var s, s1, s2 := PsoRebuilt(es, 1), PsoRebuilt(es + [st], 1), PsoRebuilt(es + [st] + [e], 1);
    PsoRebuiltMore(es, st, 1);
    PsoRebuiltMore(es + [st], e, 1);
    PsoRebuiltMore(es + [st] + [e], Fence(1), 1);
    FoundGrows(s, st, 1);
    FoundGrows(s1, e, 1);
    FoundGrows(s2, Fence(1), 1);
    RebuiltBufferAfter(s, st, 1, 0);
    LastIsPassed(s1, p, if load then READ else WRITE);
    FoundMore(s1, e, 1, p);
  }

  lemma LastIsPassed(s: PsoScan, p: Pair, kind: Kind)
    requires s.Buffer(0) != [] && Last(s.Buffer(0)) == Rec(1, WRITE, 0, p.0)
    ensures p in PassedIn(s, Rec(1, kind, 1, p.1))
  {
    var i := |s.buffers[0]| - 1;
    assert 0 in s.buffers && s.buffers[0][i].location != 1 && p == (s.buffers[0][i].instr, p.1);
  }

  /** The pairs with a fence behind none of their stores are shown by some run, one after the other. */
  lemma {:induction false} UnfencedIsShown(f: Found, fenced: set<int>) returns (es: seq<Event>)
    requires forall p :: p in f.loads || p in f.stores ==> p.0 != 0 && p.1 != 0 && p.0 !in fenced
    ensures PsoRun(map[], es) && AllLabelled(es) && Plain(es, fenced)
    ensures f.loads <= PsoRebuilt(es, 1).loads && f.stores <= PsoRebuilt(es, 1).stores
    decreases |f.loads| + |f.stores|
  {
    hide PsoRebuilt, PsoRun, AllLabelled, Plain;
    if |f.loads| > 0 {
      var p := SomeElement(f.loads);
      var es' := UnfencedIsShown(f.(loads := f.loads - {p}), fenced);
      SegmentRuns(map[], es', p, true, fenced);
      SegmentShows(map[], es', p, true);
      es := es' + Segment(map[], es', p, true);
    } else if |f.stores| > 0 {
      var p := SomeElement(f.stores);
      var es' := UnfencedIsShown(f.(stores := f.stores - {p}), fenced);
      SegmentRuns(map[], es', p, false, fenced);
      SegmentShows(map[], es', p, false);
      es := es' + Segment(map[], es', p, false);
    } else {
      es := [Load(1, 1, 0, 1)];
      OneLoad(fenced);
    }
  }

  lemma OneLoad(fenced: set<int>)
    ensures var es := [Load(1, 1, 0, 1)]; PsoRun(map[], es) && AllLabelled(es) && Plain(es, fenced)
  {
    PsoOne(map[], [], Load(1, 1, 0, 1));
    assert [] + [Load(1, 1, 0, 1)] == [Load(1, 1, 0, 1)];
  }

  /** Pairs are excluded exactly if one of their stores is fenced. */
  lemma ExcludedExactly(f: Found, fenced: set<int>)
    requires forall p :: p in f.loads || p in f.stores ==> p.0 != 0 && p.1 != 0
    ensures Excluded(f, fenced) <==> OneIsFenced(f.loads + f.stores, fenced)
  {
    hide PsoRun, AllLabelled, Plain, PsoFencedBehind, Receivable, AllFound, PsoRebuilt;
    if OneIsFenced(f.loads + f.stores, fenced) {
      var p :| p in f.loads + f.stores && p.0 in fenced;
      forall m: Memory, es: seq<Event>, n: nat
        | n > 0 && PsoRun(m, es) && AllLabelled(es) && AllFencedBehind(es, fenced)
        ensures !Shows(es, n, f)
      {
        PsoFencedIsNotShown(es, n, p);
      }
    } else {
      forall p | p in f.loads + f.stores
        ensures p.0 !in fenced
      {
      }
      var es := UnfencedIsShown(f, fenced);
      PlainIsFenced(es, fenced);
      PlainIsReceivable(es, fenced);
      AllFoundHas(PSO, PsoRecordsOf(es), 2, 1);
      PsoIsFound(es);
      assert Shows(es, 2, f);
    }
  }

  lemma PsoIsFound(es: seq<Event>)
    ensures var f := FoundIn(PSO, TraceOf(PsoRecordsOf(es), 1));
            f.loads == PsoRebuilt(es, 1).loads && f.stores == PsoRebuilt(es, 1).stores
  {
  }

  /**
    What a round achieves under PSO, exactly: the failed run with this clause is excluded if and only if one
    of the pairs that it showed has a store that was fenced before, or that of a chosen pair with a load, or
    of the first pair of two stores.
  */
  lemma PsoRoundExcludesExactly(ls: Literals, lits: seq<int>, solved: set<int>, fenced: set<int>, clause: set<int>,
                                f: Found)
    requires Numbered(ls) && forall k :: k in solved ==> k in fenced || k == 0
    requires StandsFor(ls, clause, f) && forall p :: p in f.loads || p in f.stores ==> p.1 != 0
    ensures Excluded(f, FencedAfter(ls, lits, solved, fenced))
       <==> exists lit ::
              lit in clause && FenceAt(ls, lit) in fenced + LoadStores(ls, lits) + OtherStores(ls, lits, solved)
  {
    var after := FencedAfter(ls, lits, solved, fenced);
    ExcludedExactly(f, after);
    hide Excluded, FencedAfter, LoadStores, OtherStores;
    if OneIsFenced(f.loads + f.stores, after) {
      var p :| p in f.loads + f.stores && p.0 in after;
      var lit := LiteralOfPair(ls, clause, f, p);
      FencedAfterMerging(ls, lits, solved, fenced, p.0);
      assert lit in clause && FenceAt(ls, lit) == p.0;
    }
    hide FenceAt, Numbered;
    if lit :| lit in clause && FenceAt(ls, lit) in fenced + LoadStores(ls, lits) + OtherStores(ls, lits, solved) {
      var p := PairOfLiteral(ls, clause, f, lit);
      FencedAfterMerging(ls, lits, solved, fenced, p.0);
      assert p in f.loads + f.stores && p.0 in after;
    }
  }

  lemma LiteralOfPair(ls: Literals, clause: set<int>, f: Found, p: Pair) returns (lit: int)
    requires Numbered(ls) && StandsFor(ls, clause, f) && (p in f.loads || p in f.stores)
    ensures lit in clause && FenceAt(ls, lit) == p.0
  {
    if p in f.loads {
      lit := ls.loads[p];
    } else {
      lit := ls.stores[p];
    }
  }
}
