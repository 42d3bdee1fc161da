/**
  The generator of clauses, as it works: one clause for each failed run, with a literal for each pair of
  accesses of which one has passed the other. The literals of pairs of a store and a load and of pairs of two
  stores come from one counter. The clauses go to a solver, and keep their meaning while new pairs get literals.
*/
module ConstraintGenerator {
  import opened Common
  import opened StoreBuffers
  import opened SequentialConsistency
  import opened PartialStoreOrder
  import opened FenceConstraints
  import opened PsoConstraints

  type Pair = (int, int)

  datatype MemoryModel = TSO | PSO

  // ----- what a trace gives -----

  /** The pairs of a store and a load, and those of two stores. */
  datatype Found = Found(loads: set<Pair>, stores: set<Pair>) {
    function Plus(f: Found): Found {
      Found(loads + f.loads, stores + f.stores)
    }
  }

  function FoundIn(wmm: MemoryModel, trace: seq<Rec>): Found {
    match wmm
    case TSO => Found(ScanOf(trace).pairs, {})
    case PSO => Found(PsoScanOf(trace).loads, PsoScanOf(trace).stores)
  }

  /** Nothing is buffered behind the trace. */
  predicate Forgotten(wmm: MemoryModel, trace: seq<Rec>) {
    match wmm
    case TSO => ScanOf(trace).buffer == []
    case PSO => PsoScanOf(trace).buffers == map[]
  }

  /** What the threads from 1 to n - 1 give. */
  function AllFound(wmm: MemoryModel, trace: seq<Rec>, n: nat): Found
    requires n > 0
  {
    if n == 1 then Found({}, {}) else AllFound(wmm, trace, n - 1).Plus(FoundIn(wmm, TraceOf(trace, n - 1)))
  }

  lemma {:induction false} AllFoundTso(trace: seq<Rec>, n: nat)
    requires n > 0
    ensures AllFound(TSO, trace, n) == Found(AllPairs(trace, n), {})
    decreases n
  {
    hide ScanOf, TraceOf;
    if n > 1 {
      AllFoundTso(trace, n - 1);
    }
  }

  lemma {:induction false} AllFoundHas(wmm: MemoryModel, trace: seq<Rec>, n: nat, t: Thread)
    requires 1 <= t < n
    ensures var f, all := FoundIn(wmm, TraceOf(trace, t)), AllFound(wmm, trace, n);
            f.loads <= all.loads && f.stores <= all.stores
    decreases n
  {
    hide FoundIn, TraceOf;
    if t < n - 1 {
      AllFoundHas(wmm, trace, n - 1, t);
    }
  }

  lemma AllFoundMore(wmm: MemoryModel, trace: seq<Rec>, t: Thread)
    ensures AllFound(wmm, trace, 1) == Found({}, {})
    ensures t > 0 ==> AllFound(wmm, trace, t + 1) == AllFound(wmm, trace, t).Plus(FoundIn(wmm, TraceOf(trace, t)))
  {
  }

  lemma {:induction false} ScanConcat(a: seq<Rec>, b: seq<Rec>)
    requires ScanOf(a).buffer == []
    ensures ScanOf(a + b) == Scan(ScanOf(b).buffer, ScanOf(a).pairs + ScanOf(b).pairs)
    decreases |b|
  {
    if b == [] {
      assert a + b == a;
    } else {
      assert Front(a + b) == a + Front(b) && Last(a + b) == Last(b);
      ScanConcat(a, Front(b));
    }
  }

  lemma {:induction false} ScanZeros(a: seq<Rec>, b: seq<Rec>)
    requires forall i :: 0 <= i < |b| ==> b[i].instr == 0
    ensures ScanOf(a + b).pairs == ScanOf(a).pairs && (b != [] ==> ScanOf(a + b).buffer == [])
    decreases |b|
  {
    if b == [] {
      assert a + b == a;
    } else {
      assert Front(a + b) == a + Front(b) && Last(a + b) == Last(b);
      ScanZeros(a, Front(b));
    }
  }

  lemma ScanMore(trace: seq<Rec>, begin: nat, i: nat)
    requires begin <= i < |trace|
    ensures ScanOf(trace[begin..i + 1]) == ScanNext(ScanOf(trace[begin..i]), trace[i])
  {
    assert Front(trace[begin..i + 1]) == trace[begin..i] && Last(trace[begin..i + 1]) == trace[i];
  }

  lemma {:induction false} PsoScanConcat(a: seq<Rec>, b: seq<Rec>)
    requires PsoScanOf(a).buffers == map[]
    ensures var s, s' := PsoScanOf(a), PsoScanOf(b);
            PsoScanOf(a + b) == PsoScan(s'.buffers, s.loads + s'.loads, s.stores + s'.stores)
    decreases |b|
  {
    if b == [] {
      assert a + b == a;
    } else {
      assert Front(a + b) == a + Front(b) && Last(a + b) == Last(b);
      PsoScanConcat(a, Front(b));
      hide PsoScanNext;
      PsoScanMoreFound(PsoScanOf(Front(b)), PsoScanOf(a), Last(b));
    }
  }

  /** What was found before does not matter. */
  lemma PsoScanMoreFound(s: PsoScan, before: PsoScan, r: Rec)
    ensures var all, s' := PsoScan(s.buffers, before.loads + s.loads, before.stores + s.stores), PsoScanNext(s, r);
            PsoScanNext(all, r) == PsoScan(s'.buffers, before.loads + s'.loads, before.stores + s'.stores)
  {
    hide PassedIn;
    SameBuffersPass(PsoScan(s.buffers, before.loads + s.loads, before.stores + s.stores), s, r);
  }

  lemma SameBuffersPass(s: PsoScan, s': PsoScan, r: Rec)
    requires s.buffers == s'.buffers
    ensures PassedIn(s, r) == PassedIn(s', r)
  {
  }

  lemma {:induction false} PsoScanZeros(a: seq<Rec>, b: seq<Rec>)
    requires forall i :: 0 <= i < |b| ==> b[i].instr == 0
    ensures PsoScanOf(a + b).loads == PsoScanOf(a).loads && PsoScanOf(a + b).stores == PsoScanOf(a).stores
    ensures b != [] ==> PsoScanOf(a + b).buffers == map[]
    decreases |b|
  {
    hide PassedIn;
    if b == [] {
      assert a + b == a;
    } else {
      assert Front(a + b) == a + Front(b) && Last(a + b) == Last(b);
      PsoScanZeros(a, Front(b));
    }
  }

  lemma PsoScanMore(trace: seq<Rec>, begin: nat, i: nat)
    requires begin <= i < |trace|
    ensures PsoScanOf(trace[begin..i + 1]) == PsoScanNext(PsoScanOf(trace[begin..i]), trace[i])
  {
    assert Front(trace[begin..i + 1]) == trace[begin..i] && Last(trace[begin..i + 1]) == trace[i];
  }

  /** Segment by segment: behind a record with label 0 nothing is buffered. */
  lemma FoundConcat(wmm: MemoryModel, a: seq<Rec>, b: seq<Rec>)
    requires Forgotten(wmm, a)
    ensures FoundIn(wmm, a + b) == FoundIn(wmm, a).Plus(FoundIn(wmm, b))
  {
    hide ScanOf, PsoScanOf;
    match wmm
    case TSO => ScanConcat(a, b);
    case PSO => PsoScanConcat(a, b);
  }

  lemma FoundZeros(wmm: MemoryModel, a: seq<Rec>, b: seq<Rec>)
    requires forall i :: 0 <= i < |b| ==> b[i].instr == 0
    ensures FoundIn(wmm, a + b) == FoundIn(wmm, a) && (b != [] ==> Forgotten(wmm, a + b))
  {
    hide ScanOf, PsoScanOf;
    match wmm
    case TSO => ScanZeros(a, b);
    case PSO => PsoScanZeros(a, b);
  }

  lemma NothingFoundYet(wmm: MemoryModel)
    ensures FoundIn(wmm, []) == Found({}, {}) && Forgotten(wmm, [])
    ensures ScanOf([]) == Scan([], {}) && PsoScanOf([]) == PsoScan(map[], {}, {})
  {
  }

  /** What is buffered has a label. */
  lemma {:induction false} BufferedHasLabel(trace: seq<Rec>)
    ensures forall i :: 0 <= i < |ScanOf(trace).buffer| ==> ScanOf(trace).buffer[i].instr != 0
    ensures forall a :: a in PsoScanOf(trace).buffers ==> AllHaveLabels(PsoScanOf(trace).buffers[a])
    decreases |trace|
  {
    hide Passed, PassedIn;
    if trace != [] {
      BufferedHasLabel(Front(trace));
    }
  }

  predicate AllHaveLabels(b: seq<Rec>) {
    forall i :: 0 <= i < |b| ==> b[i].instr != 0
  }

  // ----- the pairs of one access -----

  /** Pairs with a load or with a store. */
  function PairsWith(r: Rec, pairs: set<Pair>): Found {
    if r.kind.READ? then Found(pairs, {}) else Found({}, pairs)
  }

  function PassedAmong(buffers: map<Address, seq<Rec>>, r: Rec): set<Pair> {
    PassedIn(PsoScan(buffers, {}, {}), r)
  }

  function PassedUpTo(buffers: map<Address, seq<Rec>>, keys: seq<Address>, r: Rec): set<Pair>
    requires forall i :: 0 <= i < |keys| ==> keys[i] in buffers
  {
    if keys == [] then {} else PassedUpTo(buffers, Front(keys), r) + Passed(buffers[Last(keys)], r)
  }

  lemma NothingPassedYet(buffers: map<Address, seq<Rec>>, keys: seq<Address>, r: Rec)
    ensures PassedUpTo(buffers, keys[..0], r) == {}
  {
  }

  lemma PassedOneMore(buffers: map<Address, seq<Rec>>, keys: seq<Address>, i: nat, r: Rec)
    requires i < |keys| && forall j :: 0 <= j < |keys| ==> keys[j] in buffers
    ensures PassedUpTo(buffers, keys[..i + 1], r) == PassedUpTo(buffers, keys[..i], r) + Passed(buffers[keys[i]], r)
  {
    assert Front(keys[..i + 1]) == keys[..i] && Last(keys[..i + 1]) == keys[i];
  }

  lemma {:induction false} PassedUpToHas(buffers: map<Address, seq<Rec>>, keys: seq<Address>, r: Rec, p: Pair)
    requires forall i :: 0 <= i < |keys| ==> keys[i] in buffers
    ensures p in PassedUpTo(buffers, keys, r) <==> exists i :: 0 <= i < |keys| && p in Passed(buffers[keys[i]], r)
    decreases |keys|
  {
    hide Passed;
    if keys != [] {
      PassedUpToHas(buffers, Front(keys), r, p);
      assert keys[|keys| - 1] == Last(keys);
    }
  }

  lemma AllPassed(buffers: map<Address, seq<Rec>>, keys: seq<Address>, r: Rec)
    requires (forall i :: 0 <= i < |keys| ==> keys[i] in buffers) && forall a :: a in buffers ==> a in keys
    ensures PassedUpTo(buffers, keys[..|keys|], r) == PassedAmong(buffers, r)
  {
    assert keys[..|keys|] == keys;
    var x, y := PassedUpTo(buffers, keys, r), PassedAmong(buffers, r);
    forall p: Pair
      ensures p in x <==> p in y
    {
      SamePassed(buffers, keys, r, p);
    }
  }

  lemma SamePassed(buffers: map<Address, seq<Rec>>, keys: seq<Address>, r: Rec, p: Pair)
    requires (forall i :: 0 <= i < |keys| ==> keys[i] in buffers) && forall a :: a in buffers ==> a in keys
    ensures p in PassedUpTo(buffers, keys, r) <==> p in PassedAmong(buffers, r)
  {
    hide PassedUpTo, PassedAmong, Passed;
    PassedUpToHas(buffers, keys, r, p);
    PassedAmongHas(buffers, r, p);
    if p in PassedAmong(buffers, r) {
      var a :| a in buffers && p in Passed(buffers[a], r);
      var j :| 0 <= j < |keys| && keys[j] == a;
    }
    if p in PassedUpTo(buffers, keys, r) {
      var i :| 0 <= i < |keys| && p in Passed(buffers[keys[i]], r);
      var a := keys[i];
      assert a in buffers && p in Passed(buffers[a], r);
    }
  }

  lemma PassedAmongHas(buffers: map<Address, seq<Rec>>, r: Rec, p: Pair)
    ensures p in PassedAmong(buffers, r) <==> exists a :: a in buffers && p in Passed(buffers[a], r)
  {
    if p in PassedAmong(buffers, r) {
      var a, i :| a in buffers && 0 <= i < |buffers[a]| && buffers[a][i].location != r.location
                  && p == (buffers[a][i].instr, r.instr);
      assert p in Passed(buffers[a], r);
    }
    if a :| a in buffers && p in Passed(buffers[a], r) {
      var i :| 0 <= i < |buffers[a]| && buffers[a][i].location != r.location && p == (buffers[a][i].instr, r.instr);
    }
  }

  lemma PassedMore(b: seq<Rec>, j: nat, r: Rec)
    requires j < |b|
    ensures Passed(b[..j + 1], r)
         == Passed(b[..j], r) + (if b[j].location != r.location then {(b[j].instr, r.instr)} else {})
  {
    var x, y := Passed(b[..j], r), Passed(b[..j + 1], r);
    forall p | p in y
      ensures p in x || (b[j].location != r.location && p == (b[j].instr, r.instr))
    {
      var i :| 0 <= i < j + 1 && b[..j + 1][i].location != r.location && p == (b[..j + 1][i].instr, r.instr);
      assert i < j ==> b[..j][i] == b[..j + 1][i];
    }
    forall p | p in x
      ensures p in y
    {
      var i :| 0 <= i < j && b[..j][i].location != r.location && p == (b[..j][i].instr, r.instr);
      assert b[..j + 1][i] == b[..j][i];
    }
    assert b[..j + 1][j] == b[j];
  }

  method FindNextBegin(from: nat, trace: seq<Rec>) returns (k: nat)
    requires from <= |trace|
    ensures from <= k <= |trace| && (k < |trace| ==> trace[k].instr != 0)
    ensures forall i :: from <= i < k ==> trace[i].instr == 0
  {
    k := from;
    while k != |trace| && trace[k].instr == 0
      invariant from <= k <= |trace| && forall i :: from <= i < k ==> trace[i].instr == 0
      decreases |trace| - k
    {
      k := k + 1;
    }
  }

  method FindNextEnd(from: nat, trace: seq<Rec>) returns (k: nat)
    requires from <= |trace|
    ensures from <= k <= |trace| && (k < |trace| ==> trace[k].instr == 0)
    ensures forall i :: from <= i < k ==> trace[i].instr != 0
  {
    k := from;
    while k != |trace| && trace[k].instr != 0
      invariant from <= k <= |trace| && forall i :: from <= i < k ==> trace[i].instr != 0
      decreases |trace| - k
    {
      k := k + 1;
    }
  }

  /** From the order of all records to that of each thread. */
  method Split(trace: seq<Rec>, n: nat) returns (allTrace: map<Thread, seq<Rec>>)
    requires forall i :: 0 <= i < |trace| ==> 1 <= trace[i].thr < n
    ensures forall t: Thread :: 1 <= t < n ==> t in allTrace && allTrace[t] == TraceOf(trace, t)
  {
    allTrace := map[];
    var i := 1;
    while i < n
      invariant forall t: Thread :: 1 <= t < i && t < n ==> t in allTrace && allTrace[t] == TraceOf(trace[..0], t)
    {
      allTrace := allTrace[i := []];
      i := i + 1;
    }
    i := 0;
    while i < |trace|
      invariant 0 <= i <= |trace|
      invariant forall t: Thread :: 1 <= t < n ==> t in allTrace && allTrace[t] == TraceOf(trace[..i], t)
    {
      var r := trace[i];
      assert Front(trace[..i + 1]) == trace[..i] && Last(trace[..i + 1]) == r;
      allTrace := allTrace[r.thr := allTrace[r.thr] + [r]];
      i := i + 1;
    }
    assert trace[..i] == trace;
  }

  // ----- literals -----

  /** The literals of the pairs of a store and a load, and of two stores. */
  datatype Literals = Literals(loads: map<Pair, int>, stores: map<Pair, int>)

  ghost predicate OneToOne(m: map<Pair, int>) {
    forall p, q :: p in m && q in m && m[p] == m[q] ==> p == q
  }

  ghost predicate IsLiteral(m: map<Pair, int>, lit: int) {
    exists p :: p in m && m[p] == lit
  }

  /** No two pairs have the same literal, and the stores have labels. */
  ghost predicate Numbered(ls: Literals) {
    && OneToOne(ls.loads) && OneToOne(ls.stores)
    && (forall p, q :: p in ls.loads && q in ls.stores ==> ls.loads[p] != ls.stores[q])
    && (forall p :: p in ls.loads || p in ls.stores ==> p.0 != 0)
  }

  /** The counter is ahead of all literals, and the clause has literals of pairs only. */
  ghost predicate Consistent(ls: Literals, clauses: set<int>, index: int) {
    && Numbered(ls)
    && (forall p :: p in ls.loads ==> ls.loads[p] < index)
    && (forall p :: p in ls.stores ==> ls.stores[p] < index)
    && (forall c :: c in clauses ==> IsLiteral(ls.loads, c) || IsLiteral(ls.stores, c))
  }

  /** The pairs whose literals are in the clause. */
  function PairsIn(m: map<Pair, int>, clauses: set<int>): set<Pair> {
    set p | p in m && m[p] in clauses
  }

  /** The clause has the literals of these pairs and no others. */
  ghost predicate StandsFor(ls: Literals, clause: set<int>, f: Found) {
    && (forall c :: c in clause ==> IsLiteral(ls.loads, c) || IsLiteral(ls.stores, c))
    && f.loads == PairsIn(ls.loads, clause) && f.stores == PairsIn(ls.stores, clause)
  }

  /** The map when pair `p` has been looked up. */
  function WithPair(m: map<Pair, int>, index: int, p: Pair): map<Pair, int> {
    if p in m then m else m[p := index]
  }

  lemma ConsistentTurned(ls: Literals, clauses: set<int>, index: int)
    requires Consistent(ls, clauses, index)
    ensures Consistent(Literals(ls.stores, ls.loads), clauses, index)
  {
  }

  lemma NewLiteral(ls: Literals, clauses: set<int>, index: int, p: Pair)
    requires Consistent(ls, clauses, index) && p.0 != 0
    ensures var m := WithPair(ls.loads, index, p);
            Consistent(Literals(m, ls.stores), clauses + {m[p]}, if p in ls.loads then index else index + 1)
  {
    var m := WithPair(ls.loads, index, p);
    forall c | c in clauses + {m[p]}
      ensures IsLiteral(m, c) || IsLiteral(ls.stores, c)
    {
      if c in clauses && IsLiteral(ls.loads, c) {
        var q :| q in ls.loads && ls.loads[q] == c;
        assert q in m && m[q] == c;
      }
    }
  }

  lemma OnePairMore(ls: Literals, clauses: set<int>, index: int, p: Pair)
    requires Consistent(ls, clauses, index) && p.0 != 0
    ensures var m := WithPair(ls.loads, index, p);
            && PairsIn(m, clauses + {m[p]}) == PairsIn(ls.loads, clauses) + {p}
            && PairsIn(ls.stores, clauses + {m[p]}) == PairsIn(ls.stores, clauses)
  {
    var m := WithPair(ls.loads, index, p);
    LiteralsBelow(ls, clauses, index);
    var x, y := PairsIn(m, clauses + {m[p]}), PairsIn(ls.loads, clauses) + {p};
    forall q: Pair
      ensures q in x <==> q in y
    {
    }
    var x', y' := PairsIn(ls.stores, clauses + {m[p]}), PairsIn(ls.stores, clauses);
    forall q: Pair
      ensures q in x' <==> q in y'
    {
    }
  }

  lemma StandsForTurned(ls: Literals, clause: set<int>, f: Found)
    requires StandsFor(ls, clause, f)
    ensures StandsFor(Literals(ls.stores, ls.loads), clause, Found(f.stores, f.loads))
  {
  }

  /** A clause of the solver keeps its meaning. */
  lemma StillStandsFor(ls: Literals, clauses: set<int>, index: int, p: Pair, clause: set<int>, f: Found)
    requires Consistent(ls, clauses, index) && StandsFor(ls, clause, f)
    ensures StandsFor(Literals(WithPair(ls.loads, index, p), ls.stores), clause, f)
  {
    var m := WithPair(ls.loads, index, p);
    forall c | c in clause
      ensures (IsLiteral(m, c) || IsLiteral(ls.stores, c)) && c < index
    {
      if IsLiteral(ls.loads, c) {
        var q :| q in ls.loads && ls.loads[q] == c;
        assert q in m && m[q] == c;
      }
    }
    var x, y := PairsIn(m, clause), PairsIn(ls.loads, clause);
    forall q: Pair
      ensures q in x <==> q in y
    {
    }
  }

  lemma LiteralsBelow(ls: Literals, clauses: set<int>, index: int)
    requires Consistent(ls, clauses, index)
    ensures forall c :: c in clauses ==> c < index
  {
  }

  lemma SomeElement<T>(s: set<T>) returns (x: T)
    requires |s| > 0
    ensures x in s
  {
    x :| x in s;
  }

  lemma EmptyClause(ls: Literals, clauses: set<int>, index: int)
    requires Consistent(ls, clauses, index)
    ensures |clauses| == 0 <==> PairsIn(ls.loads, clauses) == {} && PairsIn(ls.stores, clauses) == {}
  {
    if |clauses| > 0 {
      var c := SomeElement(clauses);
      if IsLiteral(ls.loads, c) {
        var p :| p in ls.loads && ls.loads[p] == c;
        assert p in PairsIn(ls.loads, clauses);
      } else {
        var p :| p in ls.stores && ls.stores[p] == c;
        assert p in PairsIn(ls.stores, clauses);
      }
    }
  }

  class Constraints {
    const wmm: MemoryModel
    var clauses: set<int>
    var clauseIndex: int
    var mapToLit: map<Pair, int>
    var mapToLit_ss: map<Pair, int>
    /** The clauses in the solver. */
    var S: seq<set<int>>
    /** The pairs that each of them stands for. */
    ghost var failures: seq<Found>

    ghost function Lits(): Literals
      reads this
    {
      Literals(mapToLit, mapToLit_ss)
    }

    /** Every clause in the solver stands for the pairs of its failure; under TSO no two stores have a literal. */
    ghost predicate Valid()
      reads this
    {
      && Consistent(Lits(), clauses, clauseIndex)
      && |S| == |failures| && (forall k :: 0 <= k < |S| ==> StandsFor(Lits(), S[k], failures[k]))
      && (wmm.TSO? ==> mapToLit_ss == map[])
    }

    /** The pairs whose literals are in the clause. */
    ghost function Pairs(): Found
      reads this
    {
      Found(PairsIn(mapToLit, clauses), PairsIn(mapToLit_ss, clauses))
    }

    lemma Meaning(k: nat)
      requires Valid() && k < |S|
      ensures Numbered(Lits()) && StandsFor(Lits(), S[k], failures[k]) && (wmm.TSO? ==> mapToLit_ss == map[])
    {
    }

    constructor (wmm: MemoryModel)
      ensures Valid() && Pairs() == Found({}, {}) && this.wmm == wmm && S == [] && failures == []
    {
      this.wmm, clauses, clauseIndex, mapToLit, mapToLit_ss, S, failures := wmm, {}, 1, map[], map[], [], [];
    }

    /** Adds the literal of a pair of a store and a load, which gets one when it is seen first. */
    method AddPair(p: Pair)
      requires Valid() && p.0 != 0
      modifies `clauses, `clauseIndex, `mapToLit
      ensures Valid() && Pairs() == old(Pairs()).Plus(Found({p}, {}))
    {
      hide Consistent, PairsIn, StandsFor;
      NewLiteral(Lits(), clauses, clauseIndex, p);
      OnePairMore(Lits(), clauses, clauseIndex, p);
      forall k | 0 <= k < |S|
        ensures StandsFor(Literals(WithPair(mapToLit, clauseIndex, p), mapToLit_ss), S[k], failures[k])
      {
        StillStandsFor(Lits(), clauses, clauseIndex, p, S[k], failures[k]);
      }
      var lit;
      if p in mapToLit {
        lit := mapToLit[p];
      } else {
        lit := clauseIndex;
        mapToLit := mapToLit[p := lit];
        clauseIndex := clauseIndex + 1;
      }
      clauses := clauses + {lit};
    }

    /** The same for a pair of two stores. */
    method AddStorePair(p: Pair)
      requires Valid() && p.0 != 0 && wmm.PSO?
      modifies `clauses, `clauseIndex, `mapToLit_ss
      ensures Valid() && Pairs() == old(Pairs()).Plus(Found({}, {p}))
    {
      hide Consistent, PairsIn, StandsFor;
      ghost var turned := Literals(mapToLit_ss, mapToLit);
      ConsistentTurned(Lits(), clauses, clauseIndex);
      NewLiteral(turned, clauses, clauseIndex, p);
      OnePairMore(turned, clauses, clauseIndex, p);
      forall k | 0 <= k < |S|
        ensures StandsFor(Literals(mapToLit, WithPair(mapToLit_ss, clauseIndex, p)), S[k], failures[k])
      {
        var f := Found(failures[k].stores, failures[k].loads);
        StandsForTurned(Lits(), S[k], failures[k]);
        StillStandsFor(turned, clauses, clauseIndex, p, S[k], f);
        StandsForTurned(Literals(WithPair(mapToLit_ss, clauseIndex, p), mapToLit), S[k], f);
      }
      var lit;
      if p in mapToLit_ss {
        lit := mapToLit_ss[p];
      } else {
        lit := clauseIndex;
        mapToLit_ss := mapToLit_ss[p := lit];
        clauseIndex := clauseIndex + 1;
      }
      clauses := clauses + {lit};
      ConsistentTurned(Literals(mapToLit_ss, mapToLit), clauses, clauseIndex);
    }

    /** An access against the stores of one buffer. */
    method AddPassed(storeBuffer: seq<Rec>, r: Rec)
      requires Valid() && AllHaveLabels(storeBuffer) && (wmm.TSO? ==> r.kind.READ?)
      modifies `clauses, `clauseIndex, `mapToLit, `mapToLit_ss
      ensures Valid() && Pairs() == old(Pairs()).Plus(PairsWith(r, Passed(storeBuffer, r)))
    {
      hide Valid, Pairs;
      var j := 0;
      while j < |storeBuffer|
        invariant 0 <= j <= |storeBuffer| && Valid()
        invariant Pairs() == old(Pairs()).Plus(PairsWith(r, Passed(storeBuffer[..j], r)))
      {
        PassedMore(storeBuffer, j, r);
        if r.location != storeBuffer[j].location {
          if r.kind.READ? {
            AddPair((storeBuffer[j].instr, r.instr));
          } else {
            AddStorePair((storeBuffer[j].instr, r.instr));
          }
        }
        j := j + 1;
      }
      assert storeBuffer[..j] == storeBuffer;
    }

    /** An access against the stores of all buffers of its thread. */
    method AddPassedIn(varStoreBuffer: map<Address, seq<Rec>>, r: Rec)
      requires Valid() && wmm.PSO? && forall a :: a in varStoreBuffer ==> AllHaveLabels(varStoreBuffer[a])
      modifies `clauses, `clauseIndex, `mapToLit, `mapToLit_ss
      ensures Valid() && Pairs() == old(Pairs()).Plus(PairsWith(r, PassedAmong(varStoreBuffer, r)))
    {
      hide Valid, Pairs, AllHaveLabels, PassedAmong, PassedUpTo, Passed;
      var keys := Elements(varStoreBuffer.Keys);
      NothingPassedYet(varStoreBuffer, keys, r);
      var i := 0;
      while i < |keys|
        invariant 0 <= i <= |keys| && Valid()
        invariant Pairs() == old(Pairs()).Plus(PairsWith(r, PassedUpTo(varStoreBuffer, keys[..i], r)))
      {
        var location := keys[i];
        assert location in varStoreBuffer.Keys && AllHaveLabels(varStoreBuffer[location]);
        PassedOneMore(varStoreBuffer, keys, i, r);
        AddPassed(varStoreBuffer[location], r);
        i := i + 1;
      }
      AllPassed(varStoreBuffer, keys, r);
    }

    /** A segment under TSO: one buffer. */
    method GenerateTsoClauses(begin: nat, end: nat, trace: seq<Rec>)
      requires Valid() && begin <= end <= |trace| && forall i :: begin <= i < end ==> trace[i].instr != 0
      modifies `clauses, `clauseIndex, `mapToLit, `mapToLit_ss
      ensures Valid() && Pairs() == old(Pairs()).Plus(FoundIn(TSO, trace[begin..end]))
    {
      hide Valid, Pairs, ScanOf, PsoScanOf, Passed;
      var storeBuffer: seq<Rec> := [];
      var i := begin;
      assert trace[begin..begin] == [];
      NothingFoundYet(TSO);
      while i < end
        invariant begin <= i <= end && Valid()
        invariant storeBuffer == ScanOf(trace[begin..i]).buffer
        invariant Pairs() == old(Pairs()).Plus(FoundIn(TSO, trace[begin..i]))
      {
        var r := trace[i];
        ScanMore(trace, begin, i);
        BufferedHasLabel(trace[begin..i]);
        match r.kind {
          case READ => AddPassed(storeBuffer, r);
          case WRITE => storeBuffer := storeBuffer + [r];
          case FLUSH_RANDOM_TSO =>
            if storeBuffer != [] {
              storeBuffer := storeBuffer[1..];
            }
          case _ =>
        }
        i := i + 1;
      }
    }

    /** A segment under PSO: a buffer for each address; one that is missing is empty. */
    method GeneratePsoClauses(begin: nat, end: nat, trace: seq<Rec>)
      requires Valid() && wmm.PSO? && begin <= end <= |trace| && forall i :: begin <= i < end ==> trace[i].instr != 0
      modifies `clauses, `clauseIndex, `mapToLit, `mapToLit_ss
      ensures Valid() && Pairs() == old(Pairs()).Plus(FoundIn(PSO, trace[begin..end]))
    {
      hide Valid, Pairs, ScanOf, PsoScanOf, PassedIn, AllHaveLabels;
      var varStoreBuffer: map<Address, seq<Rec>> := map[];
      var i := begin;
      assert trace[begin..begin] == [];
      NothingFoundYet(PSO);
      while i < end
        invariant begin <= i <= end && Valid()
        invariant varStoreBuffer == PsoScanOf(trace[begin..i]).buffers
        invariant Pairs() == old(Pairs()).Plus(FoundIn(PSO, trace[begin..i]))
      {
        var r := trace[i];
        PsoScanMore(trace, begin, i);
        BufferedHasLabel(trace[begin..i]);
        SameBuffersPass(PsoScanOf(trace[begin..i]), PsoScan(varStoreBuffer, {}, {}), r);
        match r.kind {
          case READ => AddPassedIn(varStoreBuffer, r);
          case WRITE =>
            AddPassedIn(varStoreBuffer, r);
            var location := if r.location in varStoreBuffer then varStoreBuffer[r.location] else [];
            varStoreBuffer := varStoreBuffer[r.location := location + [r]];
          case FLUSH_RANDOM_PSO =>
            if r.location in varStoreBuffer && varStoreBuffer[r.location] != [] {
              varStoreBuffer := varStoreBuffer[r.location := varStoreBuffer[r.location][1..]];
            }
          case FLUSH_CAS_PSO => varStoreBuffer := varStoreBuffer[r.location := []];
          case _ =>
        }
        i := i + 1;
      }
    }

    method GenerateClauses(begin: nat, end: nat, trace: seq<Rec>)
      requires Valid() && begin <= end <= |trace| && forall i :: begin <= i < end ==> trace[i].instr != 0
      modifies `clauses, `clauseIndex, `mapToLit, `mapToLit_ss
      ensures Valid() && Pairs() == old(Pairs()).Plus(FoundIn(wmm, trace[begin..end]))
    {
      match wmm {
        case TSO => GenerateTsoClauses(begin, end, trace);
        case PSO => GeneratePsoClauses(begin, end, trace);
      }
    }

    /** One thread: segment by segment. */
    method CalculateThread(trace: seq<Rec>)
      requires Valid() && Accepted(trace)
      modifies `clauses, `clauseIndex, `mapToLit, `mapToLit_ss
      ensures Valid() && Pairs() == old(Pairs()).Plus(FoundIn(wmm, trace))
    {
      hide Valid, Pairs, FoundIn, Forgotten;
      var front: nat := 0;
      var back := FindNextEnd(front, trace);
      NothingFoundYet(wmm);
      assert trace[..0] == [];
      while front != back
        invariant front <= back <= |trace| && Valid()
        invariant front == back ==> back == |trace|
        invariant back < |trace| ==> trace[back].instr == 0
        invariant forall i :: front <= i < back ==> trace[i].instr != 0
        invariant Pairs() == old(Pairs()).Plus(FoundIn(wmm, trace[..front]))
        invariant front < |trace| ==> Forgotten(wmm, trace[..front])
        decreases |trace| - front
      {
        GenerateClauses(front, back, trace);
        FoundConcat(wmm, trace[..front], trace[front..back]);
        assert trace[..front] + trace[front..back] == trace[..back];
        var next := FindNextBegin(back, trace);
        FoundZeros(wmm, trace[..back], trace[back..next]);
        assert trace[..back] + trace[back..next] == trace[..next];
        front := next;
        back := FindNextEnd(front, trace);
      }
      assert trace[..front] == trace;
    }

    method ClearClauses()
      requires Valid()
      modifies `clauses
      ensures Valid() && Pairs() == Found({}, {})
    {
      clauses := {};
    }

    /** A new clause for a failed run: the trace is split by threads, and each adds its pairs. */
    method Calculate(trace: seq<Rec>, n: nat)
      requires Valid() && n > 0 && Receivable(trace, n)
      modifies `clauses, `clauseIndex, `mapToLit, `mapToLit_ss
      ensures Valid() && Pairs() == AllFound(wmm, trace, n)
    {
      hide TraceOf, Valid, Pairs, FoundIn, AllFound, Accepted, Found.Plus;
      ClearClauses();
      var allTrace := Split(trace, n);
      AllFoundMore(wmm, trace, 0);
      var t := 1;
      while t < n
        invariant 1 <= t <= n && Valid()
        invariant Pairs() == AllFound(wmm, trace, t)
      {
        AllFoundMore(wmm, trace, t);
        CalculateThread(allTrace[t]);
        t := t + 1;
      }
    }

    /** How many literals the clause has; with none the tool gives up on the run. */
    method GetLitSingleNumber() returns (n: nat)
      requires Valid()
      ensures n == |clauses| && (n == 0 <==> Pairs() == Found({}, {}))
    {
      EmptyClause(Lits(), clauses, clauseIndex);
      n := |clauses|;
    }

    /** The solver must satisfy the clause. */
    method AddToSolver()
      requires Valid()
      modifies `S, `failures
      ensures Valid() && Pairs() == old(Pairs())
      ensures S == old(S) + [clauses] && failures == old(failures) + [Pairs()]
    {
      S := S + [clauses];
      failures := failures + [Pairs()];
    }

    /** After a round everything begins anew. */
    method Flush()
      modifies this
      ensures Valid() && Pairs() == Found({}, {}) && S == [] && failures == []
    {
      clauses, clauseIndex, mapToLit, mapToLit_ss := {}, 1, map[], map[];
      S, failures := [], [];
    }
  }

  /** Under TSO: no literals, and flushes recorded for the right threads, mean a sequentially consistent run. */
  lemma NoLiteralsIsRight(m: Memory, es: seq<Event>, n: nat)
    requires TsoRun(m, es) && Labelled(es) && AllAttributed(m, es) && ThreadsBelow(es, n)
    requires n > 0 && Receivable(RecordsOf(es), n) && AllFound(TSO, RecordsOf(es), n) == Found({}, {})
    ensures SequentiallyConsistent(m, es)
  {
    AllFoundTso(RecordsOf(es), n);
    EmptyClauseIsRight(m, es, n);
  }

  /** Under PSO: the same, for a run whose failed compare-and-swaps pass nothing. */
  lemma NoPsoLiteralsIsRight(m: Memory, es: seq<Event>, n: nat)
    requires PsoRun(m, es) && AllLabelled(es) && AllPsoAttributed(m, es) && ThreadsBelow(es, n)
    requires FailuresPassNothing(m, es)
    requires n > 0 && Receivable(PsoRecordsOf(es), n) && AllFound(PSO, PsoRecordsOf(es), n) == Found({}, {})
    ensures SequentiallyConsistent(m, es)
  {
    hide AllLabelled, AllPsoAttributed, FailuresPassNothing, PsoRun, SequentiallyConsistent;
    var trace := PsoRecordsOf(es);
    forall t: Thread
      ensures PsoRebuilt(es, t).loads == {} && PsoRebuilt(es, t).stores == {}
    {
      if 1 <= t < n {
        AllFoundHas(PSO, trace, n, t);
      } else {
        NoTrace(trace, t);
      }
    }
    PsoNothingToFence(m, es, n);
  }
}
