/**
  From a solution to the fences. The solver chooses literals that satisfy every clause; merging drops the
  literals whose store is fenced already, and a fence goes behind the store of each literal that is left.
  The merging looks for pairs of a store and a load only: to it all pairs of two stores have the same store.
*/
module FenceInsertion {
  import opened Common
  import opened StoreBuffers
  import opened FenceConstraints
  import opened ConstraintGenerator

  /** What a search of the map finds: the pair of the literal, else the pair it started with. */
  ghost function PairOf(m: map<Pair, int>, lit: int): (p: Pair)
    ensures IsLiteral(m, lit) ==> p in m && m[p] == lit
    ensures !IsLiteral(m, lit) ==> p == (0, 0)
  {
    if IsLiteral(m, lit) then
      var p :| p in m && m[p] == lit;
      p
    else (0, 0)
  }

  method FindPair(m: map<Pair, int>, lit: int) returns (found: bool, pair: Pair)
    requires OneToOne(m)
    ensures found == IsLiteral(m, lit) && pair == PairOf(m, lit)
  {
    found, pair := false, (0, 0);
    var pairs := Elements(m.Keys);
    var i := 0;
    while i < |pairs| && !found
      invariant 0 <= i <= |pairs|
      invariant found ==> pair in m && m[pair] == lit
      invariant !found ==> pair == (0, 0) && forall j :: 0 <= j < i ==> m[pairs[j]] != lit
    {
      assert pairs[i] in m.Keys;
      if m[pairs[i]] == lit {
        found, pair := true, pairs[i];
      }
      i := i + 1;
    }
    if !found {
      forall p | p in m
        ensures m[p] != lit
      {
        assert p in m.Keys && p in pairs;
      }
    }
  }

  /** The store that merging sees, by its label; 0 is that of no instruction. */
  ghost function MergeKey(ls: Literals, lit: int): int {
    PairOf(ls.loads, lit).0
  }

  /** The store behind which the fence of a literal goes. */
  ghost function FenceAt(ls: Literals, lit: int): int {
    if IsLiteral(ls.loads, lit) then PairOf(ls.loads, lit).0 else PairOf(ls.stores, lit).0
  }

  ghost function MergeKeys(ls: Literals, lits: seq<int>): set<int> {
    if lits == [] then {} else MergeKeys(ls, Front(lits)) + {MergeKey(ls, Last(lits))}
  }

  /** The literals that merging keeps; `solved` are the stores that it takes to be fenced. */
  ghost function Kept(ls: Literals, lits: seq<int>, solved: set<int>): seq<int> {
    if lits == [] then []
    else
      var kept := Kept(ls, Front(lits), solved);
      if MergeKey(ls, Last(lits)) in solved + MergeKeys(ls, Front(lits)) then kept else kept + [Last(lits)]
  }

  ghost function FencedStores(ls: Literals, lits: seq<int>): set<int> {
    if lits == [] then {} else FencedStores(ls, Front(lits)) + {FenceAt(ls, Last(lits))}
  }

  lemma KeyIs(ls: Literals, lit: int)
    ensures MergeKey(ls, lit) == PairOf(ls.loads, lit).0
  {
  }

  lemma IsOneToOne(ls: Literals)
    requires Numbered(ls)
    ensures OneToOne(ls.loads) && OneToOne(ls.stores)
  {
  }

  lemma NothingMerged(ls: Literals, lits: seq<int>, solved: set<int>)
    ensures Kept(ls, lits[..0], solved) == [] && MergeKeys(ls, lits[..0]) == {}
  {
  }

  lemma MergeOne(ls: Literals, lits: seq<int>, n: nat, solved: set<int>)
    requires n < |lits|
    ensures MergeKeys(ls, lits[..n + 1]) == MergeKeys(ls, lits[..n]) + {MergeKey(ls, lits[n])}
    ensures var kept := Kept(ls, lits[..n], solved);
            Kept(ls, lits[..n + 1], solved) ==
              if MergeKey(ls, lits[n]) in solved + MergeKeys(ls, lits[..n]) then kept else kept + [lits[n]]
  {
    hide MergeKey;
    assert Front(lits[..n + 1]) == lits[..n] && Last(lits[..n + 1]) == lits[n];
  }

  lemma Erase(a: seq<int>, b: seq<int>)
    ensures b != [] ==> (a + b)[|a|] == b[0] && (a + b)[..|a|] + (a + b)[|a| + 1..] == a + b[1..]
    ensures b != [] ==> a + b == a + [b[0]] + b[1..]
  {
  }

  // ----- what is fenced in the end -----

  /** The stores that are fenced after a round, if `fenced` were before. */
  ghost function FencedAfter(ls: Literals, lits: seq<int>, solved: set<int>, fenced: set<int>): set<int> {
    fenced + FencedStores(ls, Kept(ls, lits, solved))
  }

  /** The first literal of a pair of two stores. */
  ghost function FirstOther(ls: Literals, lits: seq<int>): Option<int> {
    if lits == [] then None
    else if FirstOther(ls, Front(lits)).Some? then FirstOther(ls, Front(lits))
    else if IsLiteral(ls.loads, Last(lits)) then None
    else Some(Last(lits))
  }

  /** The stores of the pairs of a store and a load. */
  ghost function LoadStores(ls: Literals, lits: seq<int>): set<int> {
    if lits == [] then {}
    else LoadStores(ls, Front(lits)) + (if IsLiteral(ls.loads, Last(lits)) then {FenceAt(ls, Last(lits))} else {})
  }

  /** The stores of all other literals. */
  ghost function SecondStores(ls: Literals, lits: seq<int>): set<int> {
    if lits == [] then {}
    else SecondStores(ls, Front(lits)) + (if IsLiteral(ls.loads, Last(lits)) then {} else {FenceAt(ls, Last(lits))})
  }

  lemma {:induction false} TwoKinds(ls: Literals, lits: seq<int>, st: int)
    ensures st in FencedStores(ls, lits) <==> st in LoadStores(ls, lits) || st in SecondStores(ls, lits)
    decreases |lits|
  {
    hide FenceAt, IsLiteral;
    if lits != [] {
      TwoKinds(ls, Front(lits), st);
    }
  }

  /** Of the pairs of two stores only the first one gets a fence, and only in the first round that has one. */
  ghost function OtherStores(ls: Literals, lits: seq<int>, solved: set<int>): set<int> {
    var first := FirstOther(ls, lits);
    if 0 in solved || first.None? then {} else {FenceAt(ls, first.value)}
  }

  lemma Keys(ls: Literals, lit: int)
    requires Numbered(ls)
    ensures IsLiteral(ls.loads, lit) ==> MergeKey(ls, lit) == FenceAt(ls, lit) != 0
    ensures !IsLiteral(ls.loads, lit) ==> MergeKey(ls, lit) == 0
  {
  }

  /** What merging has seen: the stores of the pairs with loads, and 0 once there was a pair of two stores. */
  lemma {:induction false} SeenKeys(ls: Literals, lits: seq<int>, st: int)
    requires Numbered(ls)
    ensures st in MergeKeys(ls, lits) <==> st in LoadStores(ls, lits) || (st == 0 && FirstOther(ls, lits).Some?)
    ensures st in LoadStores(ls, lits) ==> st != 0
    decreases |lits|
  {
    hide MergeKey, FenceAt, Numbered, IsLiteral;
    if lits != [] {
      SeenKeys(ls, Front(lits), st);
      Keys(ls, Last(lits));
    }
  }

  /**
    What is fenced after a round, exactly. `fenced` are the stores that were fenced before, and merging has
    seen no others but 0. A fence follows every store of a pair with a load, and that of the first pair of
    two stores of all rounds.
  */
  lemma {:induction false} FencedAfterMerging(ls: Literals, lits: seq<int>, solved: set<int>, fenced: set<int>, st: int)
    requires Numbered(ls) && forall k :: k in solved ==> k in fenced || k == 0
    ensures st in FencedAfter(ls, lits, solved, fenced)
       <==> st in fenced + LoadStores(ls, lits) + OtherStores(ls, lits, solved)
    decreases |lits|
  {
    hide MergeKey, FenceAt, Numbered, IsLiteral, MergeKeys;
    if lits != [] {
      var front, lit := Front(lits), Last(lits);
      FencedAfterMerging(ls, front, solved, fenced, st);
      Keys(ls, lit);
      SeenKeys(ls, front, MergeKey(ls, lit));
      FencedMore(ls, Kept(ls, front, solved), lit, st);
      if MergeKey(ls, lit) in solved + MergeKeys(ls, front) {
        assert Kept(ls, lits, solved) == Kept(ls, front, solved);
      } else {
        assert Kept(ls, lits, solved) == Kept(ls, front, solved) + [lit];
      }
    }
  }

  lemma FencedMore(ls: Literals, lits: seq<int>, lit: int, st: int)
    ensures st in FencedStores(ls, lits + [lit]) <==> st in FencedStores(ls, lits) || st == FenceAt(ls, lit)
  {
    assert Front(lits + [lit]) == lits && Last(lits + [lit]) == lit;
  }

  /** The store-load fences alone: merging loses none of them. */
  lemma {:induction false} LoadFencesAfter(ls: Literals, lits: seq<int>, solved: set<int>, fenced: set<int>, st: int)
    requires Numbered(ls) && forall k :: k in solved ==> k in fenced || k == 0
    ensures st in fenced + LoadStores(ls, Kept(ls, lits, solved)) <==> st in fenced + LoadStores(ls, lits)
    decreases |lits|
  {
    hide MergeKey, FenceAt, Numbered, IsLiteral, MergeKeys;
    if lits != [] {
      var front, lit := Front(lits), Last(lits);
      LoadFencesAfter(ls, front, solved, fenced, st);
      Keys(ls, lit);
      SeenKeys(ls, front, MergeKey(ls, lit));
      LoadStoresMore(ls, Kept(ls, front, solved), lit, st);
      if MergeKey(ls, lit) in solved + MergeKeys(ls, front) {
        assert Kept(ls, lits, solved) == Kept(ls, front, solved);
      } else {
        assert Kept(ls, lits, solved) == Kept(ls, front, solved) + [lit];
      }
    }
  }

  lemma LoadStoresMore(ls: Literals, lits: seq<int>, lit: int, st: int)
    ensures st in LoadStores(ls, lits + [lit]) <==>
            st in LoadStores(ls, lits) || (IsLiteral(ls.loads, lit) && st == FenceAt(ls, lit))
  {
    assert Front(lits + [lit]) == lits && Last(lits + [lit]) == lit;
  }

  /** So what merging takes to be fenced in the next round has a store-load fence, apart from 0. */
  lemma SeenIsFenced(ls: Literals, lits: seq<int>, solved: set<int>, fenced: set<int>, k: int)
    requires Numbered(ls) && forall j :: j in solved ==> j in fenced || j == 0
    requires k in solved + MergeKeys(ls, lits)
    ensures k in fenced + LoadStores(ls, Kept(ls, lits, solved)) || k == 0
  {
    SeenKeys(ls, lits, k);
    LoadFencesAfter(ls, lits, solved, fenced, k);
  }

  lemma {:induction false} LoadIsFenced(ls: Literals, lits: seq<int>, lit: int)
    requires lit in lits && IsLiteral(ls.loads, lit)
    ensures FenceAt(ls, lit) in LoadStores(ls, lits)
    decreases |lits|
  {
    hide FenceAt, IsLiteral;
    if lit != Last(lits) {
      assert lit in Front(lits);
      LoadIsFenced(ls, Front(lits), lit);
    }
  }

  /** A store with a fence: from before, of a pair with a load, or of the first pair of two stores. */
  ghost predicate Covered(ls: Literals, lits: seq<int>, solved: set<int>, fenced: set<int>, lit: int) {
    IsLiteral(ls.loads, lit) || FenceAt(ls, lit) in fenced + LoadStores(ls, lits) + OtherStores(ls, lits, solved)
  }

  lemma CoveredIsFenced(ls: Literals, lits: seq<int>, solved: set<int>, fenced: set<int>, lit: int)
    requires Numbered(ls) && lit in lits && forall k :: k in solved ==> k in fenced || k == 0
    ensures FenceAt(ls, lit) in FencedAfter(ls, lits, solved, fenced) <==> Covered(ls, lits, solved, fenced, lit)
  {
    FencedAfterMerging(ls, lits, solved, fenced, FenceAt(ls, lit));
    hide FenceAt, IsLiteral;
    if IsLiteral(ls.loads, lit) {
      LoadIsFenced(ls, lits, lit);
    }
  }

  /** A literal of the clause is in the solution, and its store has a fence. */
  ghost predicate HasFence(ls: Literals, clause: set<int>, lits: seq<int>, fenced: set<int>) {
    exists lit :: lit in clause && lit in lits && FenceAt(ls, lit) in fenced
  }

  /**
    A clause that the solution satisfies still has a fenced store after merging if and only if one of its
    literals in the solution is that of a pair with a load, or has the store of such a literal, of the
    first pair of two stores, or of an earlier round.
  */
  lemma ClauseKeepsFence(ls: Literals, lits: seq<int>, solved: set<int>, fenced: set<int>, clause: set<int>)
    requires Numbered(ls) && forall k :: k in solved ==> k in fenced || k == 0
    ensures HasFence(ls, clause, lits, FencedAfter(ls, lits, solved, fenced))
       <==> exists lit :: lit in clause && lit in lits && Covered(ls, lits, solved, fenced, lit)
  {
    hide FenceAt, Covered, FencedAfter, Numbered;
    forall lit: int | lit in lits
      ensures FenceAt(ls, lit) in FencedAfter(ls, lits, solved, fenced) <==> Covered(ls, lits, solved, fenced, lit)
    {
      CoveredIsFenced(ls, lits, solved, fenced, lit);
    }
  }

  /** No store of the solution is left without a fence if and only if all pairs of two stores are covered. */
  lemma MergingLosesNothing(ls: Literals, lits: seq<int>, solved: set<int>, fenced: set<int>)
    requires Numbered(ls) && forall k :: k in solved ==> k in fenced || k == 0
    ensures (forall lit :: lit in lits ==> FenceAt(ls, lit) in FencedAfter(ls, lits, solved, fenced))
       <==> (forall lit :: lit in lits ==> Covered(ls, lits, solved, fenced, lit))
  {
    hide FenceAt, Covered, FencedAfter, Numbered;
    forall lit: int | lit in lits
      ensures FenceAt(ls, lit) in FencedAfter(ls, lits, solved, fenced) <==> Covered(ls, lits, solved, fenced, lit)
    {
      CoveredIsFenced(ls, lits, solved, fenced, lit);
    }
  }

  /** Two pairs of two stores, each the only literal of a clause: merging drops the second. */
  lemma SecondPairIsLost()
    ensures var ls := Literals(map[], map[(11, 12) := 1, (21, 22) := 2]);
            && Numbered(ls) && Kept(ls, [1, 2], {}) == [1]
            && !HasFence(ls, {2}, [1, 2], FencedStores(ls, [1]))
  {
    var ls := Literals(map[], map[(11, 12) := 1, (21, 22) := 2]);
    assert Front([1, 2]) == [1] && Front([1]) == [];
    assert ls.stores[(11, 12)] == 1 && ls.stores[(21, 22)] == 2;
    assert IsLiteral(ls.stores, 1) && IsLiteral(ls.stores, 2);
    assert PairOf(ls.stores, 1) == (11, 12) && PairOf(ls.stores, 2) == (21, 22);
    assert MergeKeys(ls, [1]) == MergeKeys(ls, []) + {0};
    assert Kept(ls, [1], {}) == Kept(ls, [], {}) + [1];
    assert FencedStores(ls, [1]) == FencedStores(ls, []) + {11};
  }

  /** In a later round nothing is inserted for pairs of two stores any more. */
  lemma {:induction false} LaterPairsAreLost(ls: Literals, lits: seq<int>, solved: set<int>)
    requires Numbered(ls) && 0 in solved && forall lit :: lit in lits ==> !IsLiteral(ls.loads, lit)
    ensures Kept(ls, lits, solved) == []
    decreases |lits|
  {
    hide MergeKey, IsLiteral, Numbered;
    if lits != [] {
      assert forall lit :: lit in Front(lits) ==> lit in lits;
      LaterPairsAreLost(ls, Front(lits), solved);
      Keys(ls, Last(lits));
    }
  }

  /** All of this for one round, with the stores of the two kinds of fences apart. */
  lemma Fences(ls: Literals, lits: seq<int>, solved: set<int>, sl: set<int>, ss: set<int>)
    requires Numbered(ls) && forall k :: k in solved ==> k in sl || k == 0
    ensures var kept := Kept(ls, lits, solved);
            var sl', ss' := sl + LoadStores(ls, kept), ss + SecondStores(ls, kept);
            && (forall k :: k in solved + MergeKeys(ls, lits) ==> k in sl' || k == 0)
            && (forall lit :: lit in lits && IsLiteral(ls.loads, lit) ==> FenceAt(ls, lit) in sl')
            && (forall lit :: lit in lits ==>
                  (FenceAt(ls, lit) in sl' + ss' <==> Covered(ls, lits, solved, sl + ss, lit)))
  {
    hide FenceAt, IsLiteral, Covered, Numbered, Kept, LoadStores, SecondStores, FencedStores, MergeKeys;
    var kept := Kept(ls, lits, solved);
    var sl', ss' := sl + LoadStores(ls, kept), ss + SecondStores(ls, kept);
    forall k: int | k in solved + MergeKeys(ls, lits)
      ensures k in sl' || k == 0
    {
      SeenIsFenced(ls, lits, solved, sl, k);
    }
    forall lit: int | lit in lits
      ensures IsLiteral(ls.loads, lit) ==> FenceAt(ls, lit) in sl'
      ensures FenceAt(ls, lit) in sl' + ss' <==> Covered(ls, lits, solved, sl + ss, lit)
    {
      CoveredIsFenced(ls, lits, solved, sl + ss, lit);
      TwoKinds(ls, kept, FenceAt(ls, lit));
      if IsLiteral(ls.loads, lit) {
        LoadIsFenced(ls, lits, lit);
        LoadFencesAfter(ls, lits, solved, sl, FenceAt(ls, lit));
      }
    }
  }

  // ----- merging and inserting, as they are done -----

  /** A failed run, as it was recorded, and the number of the next thread. */
  datatype Failure = Failure(trace: seq<Rec>, nextThread: nat)

  ghost predicate Usable(failed: seq<Failure>) {
    forall k :: 0 <= k < |failed| ==> failed[k].nextThread > 0 && Receivable(failed[k].trace, failed[k].nextThread)
  }

  function FoundFor(wmm: MemoryModel, f: Failure): Found
    requires f.nextThread > 0
  {
    AllFound(wmm, f.trace, f.nextThread)
  }

  /** Behind the store of one of the pairs there is a fence. */
  ghost predicate OneIsFenced(pairs: set<Pair>, fenced: set<int>) {
    exists p :: p in pairs && p.0 in fenced
  }

  /** Every clause has a chosen literal. */
  ghost predicate Satisfies(lits: seq<int>, clauses: seq<set<int>>) {
    forall k :: 0 <= k < |clauses| ==> exists lit :: lit in clauses[k] && lit in lits
  }

  /** Literals are not negated: clauses that are not empty can be satisfied. */
  ghost predicate IsSolver(solve: seq<set<int>> -> seq<int>) {
    forall clauses :: (forall k :: 0 <= k < |clauses| ==> |clauses[k]| > 0) ==> Satisfies(solve(clauses), clauses)
  }

  /** No run failed; or a failed run had nothing to fence; or fences were inserted. */
  datatype Outcome = Converged | GaveUp | Fixed

  lemma Solved(clauses: seq<set<int>>, solve: seq<set<int>> -> seq<int>)
    requires IsSolver(solve) && forall k :: 0 <= k < |clauses| ==> |clauses[k]| > 0
    ensures Satisfies(solve(clauses), clauses)
  {
  }

  /** A chosen literal of a clause is that of a pair; with a fence behind its store, a pair of the failure has one. */
  lemma PairFenced(ls: Literals, clause: set<int>, f: Found, lits: seq<int>, fenced: set<int>)
    requires StandsFor(ls, clause, f) && ls.stores == map[]
    requires exists lit :: lit in clause && lit in lits
    requires forall lit :: lit in lits && IsLiteral(ls.loads, lit) ==> FenceAt(ls, lit) in fenced
    ensures OneIsFenced(f.loads, fenced)
  {
    var lit :| lit in clause && lit in lits;
    assert IsLiteral(ls.loads, lit) && FenceAt(ls, lit) in fenced;
    var p := PairOf(ls.loads, lit);
    assert p in f.loads && p.0 in fenced;
  }

  lemma ClauseFenced(ls: Literals, clause: set<int>, lits: seq<int>, solved: set<int>, before: set<int>,
                     after: set<int>)
    requires forall lit :: lit in lits ==> (FenceAt(ls, lit) in after <==> Covered(ls, lits, solved, before, lit))
    ensures HasFence(ls, clause, lits, after)
       <==> exists lit :: lit in clause && lit in lits && Covered(ls, lits, solved, before, lit)
  {
    hide FenceAt, Covered;
  }

  class Synthesis {
    /** A set of literals, in the order in which it is walked. */
    var mergedSatSolution: seq<int>
    /** Shared by all rounds of the synthesis. */
    var solvedStores: set<int>
    /** The stores in the program that have a store-load or a store-store fence behind them. */
    var slFenced: set<int>
    var ssFenced: set<int>

    /** What merging takes to be fenced has a store-load fence; but not the label 0. */
    ghost predicate Valid()
      reads this
    {
      forall k :: k in solvedStores ==> k in slFenced || k == 0
    }

    constructor ()
      ensures Valid() && mergedSatSolution == [] && solvedStores == slFenced == ssFenced == {}
    {
      mergedSatSolution, solvedStores, slFenced, ssFenced := [], {}, {}, {};
    }

    /** Erases the literals whose store has been seen before, in this walk or in an earlier round. */
    method Merge(c: Constraints)
      requires c.Valid()
      modifies `mergedSatSolution, `solvedStores
      ensures mergedSatSolution == Kept(c.Lits(), old(mergedSatSolution), old(solvedStores))
      ensures solvedStores == old(solvedStores) + MergeKeys(c.Lits(), old(mergedSatSolution))
    {
      hide Kept, MergeKeys, MergeKey, Numbered, StandsFor;
      ghost var ls, lits, solved, n := c.Lits(), mergedSatSolution, solvedStores, 0;
      NothingMerged(ls, lits, solved);
      IsOneToOne(ls);
      var it := 0;
      while it < |mergedSatSolution|
        invariant 0 <= n <= |lits| && it == |Kept(ls, lits[..n], solved)|
        invariant mergedSatSolution == Kept(ls, lits[..n], solved) + lits[n..]
        invariant solvedStores == solved + MergeKeys(ls, lits[..n])
        decreases |lits| - n
      {
        MergeOne(ls, lits, n, solved);
        Erase(Kept(ls, lits[..n], solved), lits[n..]);
        var found, pair := FindPair(c.mapToLit, mergedSatSolution[it]);
        var thisStore := pair.0;
        KeyIs(ls, lits[n]);
        if thisStore in solvedStores {
          mergedSatSolution := mergedSatSolution[..it] + mergedSatSolution[it + 1..];
        } else {
          it := it + 1;
          solvedStores := solvedStores + {thisStore};
        }
        n := n + 1;
      }
      assert lits[..n] == lits;
    }

    /** Store-load fences go behind the stores of pairs with loads, store-store fences behind all others. */
    method InsertFences(c: Constraints)
      requires c.Valid()
      modifies `slFenced, `ssFenced
      ensures slFenced == old(slFenced) + LoadStores(c.Lits(), mergedSatSolution)
      ensures ssFenced == old(ssFenced) + SecondStores(c.Lits(), mergedSatSolution)
    {
      hide Numbered, StandsFor;
      ghost var ls := c.Lits();
      IsOneToOne(ls);
      var it := 0;
      while it < |mergedSatSolution|
        invariant 0 <= it <= |mergedSatSolution|
        invariant slFenced == old(slFenced) + LoadStores(ls, mergedSatSolution[..it])
        invariant ssFenced == old(ssFenced) + SecondStores(ls, mergedSatSolution[..it])
      {
        ghost var upTo := mergedSatSolution[..it + 1];
        assert Front(upTo) == mergedSatSolution[..it] && Last(upTo) == mergedSatSolution[it];
        var found, pair := FindPair(c.mapToLit, mergedSatSolution[it]);
        if found {
          slFenced := slFenced + {pair.0};
        } else {
          found, pair := FindPair(c.mapToLit_ss, mergedSatSolution[it]);
          ssFenced := ssFenced + {pair.0};
        }
        it := it + 1;
      }
      assert mergedSatSolution[..it] == mergedSatSolution;
    }

    /**
      From a solution to the fences. All stores of pairs with loads have store-load fences then; and a store
      of the solution has a fence exactly if it is covered.
    */
    method Fix(c: Constraints, solution: seq<int>)
      requires Valid() && c.Valid()
      modifies this
      ensures Valid() && slFenced == old(slFenced) + LoadStores(c.Lits(), Kept(c.Lits(), solution, old(solvedStores)))
      ensures ssFenced == old(ssFenced) + SecondStores(c.Lits(), Kept(c.Lits(), solution, old(solvedStores)))
      ensures forall lit :: lit in solution && IsLiteral(c.mapToLit, lit) ==> FenceAt(c.Lits(), lit) in slFenced
      ensures forall lit :: lit in solution ==>
                (FenceAt(c.Lits(), lit) in slFenced + ssFenced
                 <==> Covered(c.Lits(), solution, old(solvedStores), old(slFenced + ssFenced), lit))
    {
      mergedSatSolution := solution;
      Merge(c);
      InsertFences(c);
      Fences(c.Lits(), solution, old(solvedStores), old(slFenced), old(ssFenced));
    }

    /** The clause of a failed run, unless it shows no pair. */
    method AddClause(c: Constraints, f: Failure) returns (literals: nat)
      requires c.Valid() && f.nextThread > 0 && Receivable(f.trace, f.nextThread)
      modifies c
      ensures c.Valid() && (literals == 0 <==> FoundFor(c.wmm, f) == Found({}, {}))
      ensures literals > 0 ==> c.S == old(c.S) + [c.clauses] && |c.clauses| > 0
      ensures literals > 0 ==> c.failures == old(c.failures) + [FoundFor(c.wmm, f)]
    {
      hide AllFound, Receivable, Constraints.Valid, Constraints.Pairs;
      c.Calculate(f.trace, f.nextThread);
      literals := c.GetLitSingleNumber();
      if literals > 0 {
        c.AddToSolver();
      }
    }

    /** A clause for each failed run, unless one shows no pair. */
    method AddClauses(c: Constraints, failed: seq<Failure>) returns (ok: bool)
      requires c.Valid() && c.S == [] && Usable(failed)
      modifies c
      ensures c.Valid() && (ok <==> forall k :: 0 <= k < |failed| ==> FoundFor(c.wmm, failed[k]) != Found({}, {}))
      ensures ok ==> |c.S| == |c.failures| == |failed| && forall k :: 0 <= k < |failed| ==>
                |c.S[k]| > 0 && c.failures[k] == FoundFor(c.wmm, failed[k])
    {
      assert c.failures == [];
      hide FoundFor, Receivable, Constraints.Valid;
      var i := 0;
      while i < |failed|
        invariant 0 <= i <= |failed| && c.Valid() && |c.S| == |c.failures| == i
        invariant forall k :: 0 <= k < i ==> c.failures[k] == FoundFor(c.wmm, failed[k])
        invariant forall k :: 0 <= k < i ==> FoundFor(c.wmm, failed[k]) != Found({}, {}) && |c.S[k]| > 0
      {
        var literals := AddClause(c, failed[i]);
        if literals == 0 {
          return false;
        }
        i := i + 1;
      }
      ok := true;
    }

    /**
      One round: clauses, a solution, merging and inserting. The tool gives up if a run failed that shows no
      pair. Otherwise, under TSO, every failed run has shown a pair whose store has a store-load fence now;
      and under either model the clause of a failed run keeps a fenced store exactly if one of its chosen
      literals is covered.
    */
    method Round(c: Constraints, failed: seq<Failure>, solve: seq<set<int>> -> seq<int>) returns (outcome: Outcome)
      requires Valid() && c.Valid() && c.S == [] && Usable(failed) && IsSolver(solve)
      modifies this, c
      ensures Valid() && c.Valid() && (outcome.Converged? <==> failed == [])
      ensures outcome.GaveUp? <==> exists k :: 0 <= k < |failed| && FoundFor(c.wmm, failed[k]) == Found({}, {})
      ensures !outcome.Fixed? ==> slFenced == old(slFenced) && ssFenced == old(ssFenced)
      ensures outcome.Fixed? && c.wmm.TSO? ==> forall k :: 0 <= k < |failed| ==>
                OneIsFenced(AllPairs(failed[k].trace, failed[k].nextThread), slFenced)
      ensures outcome.Fixed? ==>
                |c.S| == |c.failures| == |failed| && forall k :: 0 <= k < |failed| ==>
                  && c.failures[k] == FoundFor(c.wmm, failed[k])
                  && (HasFence(c.Lits(), c.S[k], solve(c.S), slFenced + ssFenced) <==>
                      exists lit :: lit in c.S[k] && lit in solve(c.S) &&
                        Covered(c.Lits(), solve(c.S), old(solvedStores), old(slFenced + ssFenced), lit))
    {
      hide AllFound, Receivable, Covered, FenceAt, IsLiteral, Kept, LoadStores, SecondStores, HasFence;
      hide Constraints.Valid, Constraints.Pairs, IsSolver, Numbered, StandsFor, AllPairs, OneIsFenced;
      if failed == [] {
        return Converged;
      }
      var ok := AddClauses(c, failed);
      if !ok {
        assert exists k :: 0 <= k < |failed| && FoundFor(c.wmm, failed[k]) == Found({}, {});
        return GaveUp;
      }
      var solution := solve(c.S);
      Solved(c.S, solve);
      Fix(c, solution);
      forall k | 0 <= k < |failed|
        ensures c.wmm.TSO? ==> OneIsFenced(AllPairs(failed[k].trace, failed[k].nextThread), slFenced)
        ensures HasFence(c.Lits(), c.S[k], solution, slFenced + ssFenced) <==>
                exists lit :: lit in c.S[k] && lit in solution &&
                  Covered(c.Lits(), solution, old(solvedStores), old(slFenced + ssFenced), lit)
      {
        ClauseFenced(c.Lits(), c.S[k], solution, old(solvedStores), old(slFenced + ssFenced), slFenced + ssFenced);
        if c.wmm.TSO? {
          AllFoundTso(failed[k].trace, failed[k].nextThread);
          c.Meaning(k);
          PairFenced(c.Lits(), c.S[k], c.failures[k], solution, slFenced);
        }
      }
      outcome := Fixed;
    }
  }
}
