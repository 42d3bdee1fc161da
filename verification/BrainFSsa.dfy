/**
  Code generation keeps the function well formed at every moment, up to the terminators that are
  still missing: one lemma for each way in which the compiler changes the blocks.
*/
module BrainFSsa {
  import opened Common
  import opened BrainFSyntax
  import opened BrainFIr
  import opened BrainFCodegen
  import opened BrainFLayout
  import opened BrainFWellFormed

  ghost predicate DefsBelow(code: seq<Block>, n: nat) {
    forall b: nat, k: nat, r: nat :: DefAt(code, b, k, r) ==> r < n
  }

  /** Well formed, as far as the function goes. */
  ghost predicate Ok(code: seq<Block>, avail: seq<set<nat>>, nextReg: nat) {
    && TargetsOk(code) && PhisOk(code) && DefinedOnce(code) && DefsBelow(code, nextReg)
    && AvailOk(code, avail)
  }

  ghost predicate NoPhi(b: Block) {
    forall k :: 0 <= k < |b.instrs| ==> !b.instrs[k].Phi?
  }

  function DefSet(i: Instr): set<nat> {
    if Def(i).Some? then {Def(i).value} else {}
  }

  lemma DefsAppend(b: Block, i: Instr)
    ensures var b' := b.(instrs := b.instrs + [i]);
            && (forall k :: 0 <= k <= |b.instrs| ==> Defs(b', k) == Defs(b, k))
            && Defs(b', |b'.instrs|) == Defs(b, |b.instrs|) + DefSet(i)
  {
    var b' := b.(instrs := b.instrs + [i]);
    forall k | 0 <= k <= |b.instrs|
      ensures Defs(b', k) == Defs(b, k)
    {
      assert forall l :: 0 <= l < k ==> b'.instrs[l] == b.instrs[l];
    }
    forall r | r in Defs(b, |b.instrs|) + DefSet(i)
      ensures r in Defs(b', |b'.instrs|)
    {
      if r in Defs(b, |b.instrs|) {
        var l :| 0 <= l < |b.instrs| && Def(b.instrs[l]) == Some(r);
        assert b'.instrs[l] == b.instrs[l];
      } else {
        assert b'.instrs[|b.instrs|] == i;
      }
    }
  }

  /** Branches do not care about instructions. */
  lemma EdgesKept(code: seq<Block>, code': seq<Block>)
    requires |code| == |code'| && forall b :: 0 <= b < |code| ==> code'[b].term == code[b].term
    ensures forall p: nat, b: nat :: IsEdge(code', p, b) == IsEdge(code, p, b)
  {
  }

  /** Appending an instruction that uses what is available, and defines a fresh register if any. */
  lemma AppendOk(code: seq<Block>, avail: seq<set<nat>>, n: nat, b: nat, i: Instr, n': nat)
    requires Ok(code, avail, n) && b < |code| && !i.Phi?
    requires Uses(i) <= Out(code, avail, b)
    requires n <= n' && (Def(i).Some? ==> n <= Def(i).value < n')
    ensures Ok(AppendTo(code, b, i), avail, n')
    ensures Out(AppendTo(code, b, i), avail, b) == Out(code, avail, b) + DefSet(i)
    ensures forall c :: 0 <= c < |code| && c != b ==> Out(AppendTo(code, b, i), avail, c) == Out(code, avail, c)
  {
    var code' := AppendTo(code, b, i);
    DefsAppend(code[b], i);
    EdgesKept(code, code');
    AppendDefs(code, n, b, i, n');
    AppendPhis(code, b, i);
    AppendAvail(code, avail, b, i);
  }

  lemma AppendDefs(code: seq<Block>, n: nat, b: nat, i: Instr, n': nat)
    requires DefinedOnce(code) && DefsBelow(code, n) && b < |code|
    requires n <= n' && (Def(i).Some? ==> n <= Def(i).value < n')
    ensures DefinedOnce(AppendTo(code, b, i)) && DefsBelow(AppendTo(code, b, i), n')
  {
    var code' := AppendTo(code, b, i);
    forall c: nat, k: nat, r: nat | DefAt(code', c, k, r)
      ensures DefAt(code, c, k, r) || (c == b && k == |code[b].instrs| && Def(i) == Some(r))
    {
    }
  }

  lemma AppendPhis(code: seq<Block>, b: nat, i: Instr)
    requires PhisOk(code) && b < |code| && !i.Phi?
    ensures PhisOk(AppendTo(code, b, i))
  {
    var code' := AppendTo(code, b, i);
    EdgesKept(code, code');
    forall c | 0 <= c < |code'|
      ensures PhisOkAt(code', c)
    {
      assert PhisOkAt(code, c);
      forall k | 0 <= k < |code'[c].instrs| && code'[c].instrs[k].Phi?
        ensures k == 0 && PhiMatches(code', c, code'[c].instrs[0].incoming)
      {
        assert code'[c].instrs[k] == code[c].instrs[k];
      }
    }
  }

  lemma AppendAvail(code: seq<Block>, avail: seq<set<nat>>, b: nat, i: Instr)
    requires AvailOk(code, avail) && b < |code| && !i.Phi?
    requires Uses(i) <= Out(code, avail, b)
    ensures AvailOk(AppendTo(code, b, i), avail)
  {
    var code' := AppendTo(code, b, i);
    DefsAppend(code[b], i);
    EdgesKept(code, code');
    forall c: nat | c < |code|
      ensures Out(code, avail, c) <= Out(code', avail, c)
    {
    }
    forall c: nat, k: nat, e: Incoming | c < |code'| && PhiReads(code', c, k, e)
      ensures e.pred < |code'| && e.value in Out(code', avail, e.pred)
    {
      assert PhiReads(code, c, k, e);
    }
  }

  /** A new block, with a promise of what will be available in it. */
  lemma NewBlockOk(code: seq<Block>, avail: seq<set<nat>>, n: nat, a: set<nat>)
    requires Ok(code, avail, n)
    ensures Ok(NewBlock(code), avail + [a], n)
    ensures Out(NewBlock(code), avail + [a], |code|) == a
    ensures forall c :: 0 <= c < |code| ==> Out(NewBlock(code), avail + [a], c) == Out(code, avail, c)
  {
    var code', avail' := NewBlock(code), avail + [a];
    forall p: nat, b: nat
      ensures IsEdge(code', p, b) == IsEdge(code, p, b)
    {
    }
    forall c | 0 <= c < |code'|
      ensures PhisOkAt(code', c)
    {
      if c < |code| {
        assert PhisOkAt(code, c);
      }
    }
    forall c: nat, k: nat, r: nat
      ensures DefAt(code', c, k, r) == DefAt(code, c, k, r)
    {
    }
    forall c: nat, k: nat, e: Incoming | c < |code'| && PhiReads(code', c, k, e)
      ensures e.pred < |code'| && e.value in Out(code', avail', e.pred)
    {
      assert PhiReads(code, c, k, e);
    }
  }

  /** Ending a block: what the targets expect is available, and they have no PHI to tell. */
  lemma TermOk(code: seq<Block>, avail: seq<set<nat>>, n: nat, b: nat, t: Terminator)
    requires Ok(code, avail, n) && b < |code| && code[b].term.None?
    requires TermUses(t) <= Out(code, avail, b)
    requires forall c :: c in Succs(t) ==> 0 < c < |code| && avail[c] <= Out(code, avail, b) && NoPhi(code[c])
    ensures Ok(SetTerm(code, b, t), avail, n)
    ensures forall c :: 0 <= c < |code| ==> Out(SetTerm(code, b, t), avail, c) == Out(code, avail, c)
  {
    var code' := SetTerm(code, b, t);
    forall c: nat | c < |code|
      ensures code'[c].instrs == code[c].instrs && Out(code', avail, c) == Out(code, avail, c)
    {
    }
    forall p: nat, c: nat
      ensures IsEdge(code', p, c) == (IsEdge(code, p, c) || (p == b && c in Succs(t)))
    {
    }
    forall c | 0 <= c < |code'|
      ensures PhisOkAt(code', c)
    {
      assert PhisOkAt(code, c);
    }
    forall c: nat, k: nat, r: nat
      ensures DefAt(code', c, k, r) == DefAt(code, c, k, r)
    {
    }
    forall c: nat, k: nat, e: Incoming | c < |code'| && PhiReads(code', c, k, e)
      ensures e.pred < |code'| && e.value in Out(code', avail, e.pred)
    {
      assert PhiReads(code, c, k, e);
    }
  }

  /** The first instruction of a block is a PHI that lists the edges into it. */
  lemma FirstPhiOk(code: seq<Block>, avail: seq<set<nat>>, n: nat, b: nat, phi: Instr)
    requires Ok(code, avail, n) && b < |code| && code[b].instrs == []
    requires phi.Phi? && phi.dst == n && PhiMatches(code, b, phi.incoming)
    requires forall e :: e in phi.incoming ==> e.pred < |code| && e.value in Out(code, avail, e.pred)
    ensures Ok(AppendTo(code, b, phi), avail, n + 1)
    ensures Out(AppendTo(code, b, phi), avail, b) == Out(code, avail, b) + {n}
    ensures forall c :: 0 <= c < |code| && c != b ==> Out(AppendTo(code, b, phi), avail, c) == Out(code, avail, c)
  {
    var code' := AppendTo(code, b, phi);
    DefsAppend(code[b], phi);
    EdgesKept(code, code');
    AppendDefs(code, n, b, phi, n + 1);
    forall c | 0 <= c < |code'|
      ensures PhisOkAt(code', c)
    {
      assert PhisOkAt(code, c);
      if c == b {
        assert PhiMatches(code', b, phi.incoming);
      }
    }
    forall c: nat, k: nat, e: Incoming | c < |code'| && PhiReads(code', c, k, e)
      ensures e.pred < |code'| && e.value in Out(code', avail, e.pred)
    {
      if c != b {
        assert PhiReads(code, c, k, e);
      }
    }
  }

  /** The back edge of a loop: a branch to the header, and a second incoming edge of its PHI. */
  lemma BackEdgeOk(code: seq<Block>, avail: seq<set<nat>>, n: nat, b: nat, f: Frame, v: nat)
    requires Ok(code, avail, n) && b < |code| && code[b].term.None?
    requires IsOpenPhi(code, f) && f.testbb != b && 0 < f.testbb
    requires avail[f.testbb] <= Out(code, avail, b) && v in Out(code, avail, b)
    ensures IsOpenPhi(SetTerm(code, b, Br(f.testbb)), f)
    ensures var code' := AddIncoming(SetTerm(code, b, Br(f.testbb)), f, Incoming(v, b));
            && Ok(code', avail, n)
            && (forall c :: 0 <= c < |code| ==> Out(code', avail, c) == Out(code, avail, c))
  {
    var inc := code[f.testbb].instrs[0].incoming;
    var code' := AddIncoming(SetTerm(code, b, Br(f.testbb)), f, Incoming(v, b));
    var phi := code'[f.testbb].instrs[0];
    assert phi.incoming == inc + [Incoming(v, b)] && phi.dst == code[f.testbb].instrs[0].dst;
    forall c: nat, k: nat | c < |code| && k < |code[c].instrs|
      ensures |code'[c].instrs| == |code[c].instrs| && Def(code'[c].instrs[k]) == Def(code[c].instrs[k])
      ensures Uses(code'[c].instrs[k]) == Uses(code[c].instrs[k])
    {
    }
    forall c: nat, k: nat | c < |code| && k <= |code[c].instrs|
      ensures |code'[c].instrs| == |code[c].instrs| && Defs(code'[c], k) == Defs(code[c], k)
    {
      assert |code'[c].instrs| == |code[c].instrs|;
    }
    forall p: nat, c: nat
      ensures IsEdge(code', p, c) == (IsEdge(code, p, c) || (p == b && c == f.testbb))
    {
    }
    forall c: nat, k: nat, r: nat
      ensures DefAt(code', c, k, r) == DefAt(code, c, k, r)
    {
    }
    BackEdgePhis(code, code', b, f, v);
    forall c: nat, k: nat, e: Incoming | c < |code'| && PhiReads(code', c, k, e)
      ensures e.pred < |code'| && e.value in Out(code', avail, e.pred)
    {
      if c == f.testbb && e == Incoming(v, b) {
      } else {
        assert PhiReads(code, c, k, e);
      }
    }
  }

  lemma BackEdgePhis(code: seq<Block>, code': seq<Block>, b: nat, f: Frame, v: nat)
    requires PhisOk(code) && b < |code| && code[b].term.None? && IsOpenPhi(code, f) && f.testbb != b
    requires IsOpenPhi(SetTerm(code, b, Br(f.testbb)), f)
    requires code' == AddIncoming(SetTerm(code, b, Br(f.testbb)), f, Incoming(v, b))
    requires forall p: nat, c: nat :: IsEdge(code', p, c) == (IsEdge(code, p, c) || (p == b && c == f.testbb))
    ensures PhisOk(code')
  {
    forall c | 0 <= c < |code'|
      ensures PhisOkAt(code', c)
    {
      assert PhisOkAt(code, c);
      if c == f.testbb {
        var inc := code[c].instrs[0].incoming;
        var inc' := inc + [Incoming(v, b)];
        assert code'[c].instrs[0].incoming == inc';
        assert PhiMatches(code, c, inc);
        assert !IsEdge(code, b, c);
        forall p: nat
          ensures IsEdge(code', p, c) <==> HasPred(inc', p)
        {
          if HasPred(inc, p) {
            var i :| 0 <= i < |inc| && inc[i].pred == p;
            assert inc'[i].pred == p;
          }
          assert inc'[|inc|].pred == b;
        }
        assert forall i :: 0 <= i < |inc| ==> HasPred(inc, inc[i].pred);
        assert PhiMatches(code', c, inc');
      } else {
        assert code'[c].instrs == code[c].instrs;
      }
    }
  }

  // ----- one symbol -----

  /** What the header defines for the whole function. */
  function HeaderRegs(o: Options): set<nat> {
    if o.bounds then {ARR, ARRMAX} else {ARR}
  }

  /** The promises made for an open loop: its header needs the registers of the function's header, and
      its body those and the PHI. */
  ghost predicate FramePromise(blocks: seq<Block>, avail: seq<set<nat>>, o: Options, f: Frame) {
    && 0 < f.testbb < |blocks| == |avail| && 0 < f.oldbb < |blocks|
    && avail[f.testbb] == HeaderRegs(o) && avail[f.oldbb] == HeaderRegs(o) + {f.phi}
    && NoPhi(blocks[f.oldbb])
  }

  ghost predicate Exits(blocks: seq<Block>, avail: seq<set<nat>>, o: Options) {
    && |avail| == |blocks| > (if o.bounds then ERROR_BB else END_BB)
    && NoPhi(blocks[END_BB]) && avail[END_BB] == {ARR}
    && (o.bounds ==> NoPhi(blocks[ERROR_BB]) && avail[ERROR_BB] == {ARR})
  }

  ghost predicate GenOk(g: Gen, avail: seq<set<nat>>, o: Options) {
    && Inv(g, o) && Ok(g.blocks, avail, g.nextReg) && Exits(g.blocks, avail, o)
    && HeaderRegs(o) + {g.head} <= Out(g.blocks, avail, g.cur)
    && forall k :: 0 <= k < |g.frames| ==> FramePromise(g.blocks, avail, o, g.frames[k])
  }

  /** Blocks only gain instructions that are no PHIs, or are new: the promises stay. */
  ghost predicate Kept(code: seq<Block>, avail: seq<set<nat>>, code': seq<Block>, avail': seq<set<nat>>) {
    && |code| == |avail| <= |code'| == |avail'| && avail <= avail'
    && forall b :: 0 <= b < |code| && NoPhi(code[b]) ==> NoPhi(code'[b])
  }

  lemma PromisesKept(g: Gen, avail: seq<set<nat>>, code': seq<Block>, avail': seq<set<nat>>, o: Options)
    requires GenOk(g, avail, o) && Kept(g.blocks, avail, code', avail')
    ensures Exits(code', avail', o)
    ensures forall k :: 0 <= k < |g.frames| ==> FramePromise(code', avail', o, g.frames[k])
  {
    hide Ok, Inv, Out;
    forall k | 0 <= k < |g.frames|
      ensures FramePromise(code', avail', o, g.frames[k])
    {
      assert FramePromise(g.blocks, avail, o, g.frames[k]);
    }
  }

  lemma AppendKept(code: seq<Block>, avail: seq<set<nat>>, b: nat, i: Instr)
    requires |avail| == |code| && b < |code| && !i.Phi?
    ensures Kept(code, avail, AppendTo(code, b, i), avail)
  {
  }

  /** Three instructions in a row; each may use the registers of those before it. */
  lemma ThreeOk(code: seq<Block>, avail: seq<set<nat>>, n: nat, b: nat, i: Instr, j: Instr, k: Instr, n': nat)
    requires Ok(code, avail, n) && b < |code| && !i.Phi? && !j.Phi? && !k.Phi?
    requires Def(i) == Some(n) && Def(j) == Some(n + 1)
    requires if Def(k).Some? then Def(k).value == n + 2 && n' == n + 3 else n' == n + 2
    requires Uses(i) <= Out(code, avail, b)
    requires Uses(j) <= Out(code, avail, b) + {n}
    requires Uses(k) <= Out(code, avail, b) + {n, n + 1}
    ensures var code' := AppendTo(AppendTo(AppendTo(code, b, i), b, j), b, k);
            && Ok(code', avail, n') && Kept(code, avail, code', avail)
            && Out(code, avail, b) + DefSet(k) <= Out(code', avail, b)
  {
    hide Ok, Out, AppendTo;
    var c1 := AppendTo(code, b, i);
    var c2 := AppendTo(c1, b, j);
    OkLength(code, avail, n);
    AppendOk(code, avail, n, b, i, n + 1);
    AppendOk(c1, avail, n + 1, b, j, n + 2);
    AppendOk(c2, avail, n + 2, b, k, n');
    AppendKept(code, avail, b, i);
    AppendKept(c1, avail, b, j);
    AppendKept(c2, avail, b, k);
  }

  lemma OkLength(code: seq<Block>, avail: seq<set<nat>>, n: nat)
    requires Ok(code, avail, n)
    ensures |avail| == |code|
  {
  }

  lemma CommandOk(g: Gen, avail: seq<set<nat>>, o: Options, i: Instr, j: Instr, k: Instr)
    requires GenOk(g, avail, o) && !i.Phi? && !j.Phi? && !k.Phi?
    requires Def(i) == Some(g.nextReg) && Def(j) == Some(g.nextReg + 1) && Def(k) == None
    requires Uses(i) <= {g.head} && Uses(j) <= {g.nextReg} && Uses(k) <= {g.head, g.nextReg + 1}
    ensures var g' := g.(blocks := AppendTo(AppendTo(AppendTo(g.blocks, g.cur, i), g.cur, j), g.cur, k),
                         nextReg := g.nextReg + 2);
            Inv(g', o) ==> GenOk(g', avail, o)
  {
    hide Ok, Out, AppendTo, Inv;
    InvCur(g, o);
    ThreeOk(g.blocks, avail, g.nextReg, g.cur, i, j, k, g.nextReg + 2);
    var code' := AppendTo(AppendTo(AppendTo(g.blocks, g.cur, i), g.cur, j), g.cur, k);
    PromisesKept(g, avail, code', avail, o);
  }

  lemma KeptTrans(c1: seq<Block>, a1: seq<set<nat>>, c2: seq<Block>, a2: seq<set<nat>>, c3: seq<Block>,
      a3: seq<set<nat>>)
    requires Kept(c1, a1, c2, a2) && Kept(c2, a2, c3, a3)
    ensures Kept(c1, a1, c3, a3)
  {
    hide NoPhi;
  }

  lemma NewBlockKept(code: seq<Block>, avail: seq<set<nat>>, a: set<nat>)
    requires |avail| == |code|
    ensures Kept(code, avail, NewBlock(code), avail + [a])
  {
  }

  lemma TermKept(code: seq<Block>, avail: seq<set<nat>>, b: nat, t: Terminator)
    requires |avail| == |code| && b < |code|
    ensures Kept(code, avail, SetTerm(code, b, t), avail)
  {
  }

  /** The pointer arithmetic of a move, and its check. */
  lemma MoveOk(g: Gen, avail: seq<set<nat>>, v: int, o: Options) returns (avail': seq<set<nat>>)
    requires GenOk(g, avail, o)
    ensures GenOk(GenMove(g, v, o), avail', o)
  {
    hide Ok, Out, Inv, Kept, Exits, AppendTo;
    GenMoveKeepsInv(g, v, o);
    InvCur(g, o);
    var r := g.nextReg;
    var gep := Gep(r, g.head, Int32(v));
    var b1 := AppendTo(g.blocks, g.cur, gep);
    OkLength(g.blocks, avail, r);
    AppendOk(g.blocks, avail, r, g.cur, gep, r + 1);
    AppendKept(g.blocks, avail, g.cur, gep);
    avail' := avail;
    if o.bounds {
      var i, j, k := IcmpUGE(r + 1, r, ARRMAX), IcmpULT(r + 2, r, ARR), Or(r + 3, r + 1, r + 2);
      ThreeOk(b1, avail, r + 1, g.cur, i, j, k, r + 4);
      var b4 := AppendTo(AppendTo(AppendTo(b1, g.cur, i), g.cur, j), g.cur, k);
      var t := CondBr(r + 3, ERROR_BB, |b4|);
      KeptTrans(g.blocks, avail, b1, avail, b4, avail);
      avail' := SplitOk(g, avail, b4, r + 4, t, HeaderRegs(o) + {r}, o);
    } else {
      PromisesKept(g, avail, b1, avail, o);
    }
  }

  /** The check of a move: a conditional branch to the error block or to a new block. */
  lemma SplitOk(g: Gen, avail: seq<set<nat>>, b4: seq<Block>, n: nat, t: Terminator, a: set<nat>, o: Options)
    returns (avail': seq<set<nat>>)
    requires GenOk(g, avail, o) && o.bounds
    requires Kept(g.blocks, avail, b4, avail) && |b4| == |g.blocks| && Ok(b4, avail, n)
    requires g.cur < |b4| && b4[g.cur].term.None?
    requires t.CondBr? && t.ifTrue == ERROR_BB && t.ifFalse == |b4| && TermUses(t) <= Out(b4, avail, g.cur)
    requires {ARR} <= a <= Out(b4, avail, g.cur)
    ensures var b5 := SetTerm(NewBlock(b4), g.cur, t);
            && Ok(b5, avail', n) && Kept(g.blocks, avail, b5, avail')
            && Out(b5, avail', |b4|) == a
            && Exits(b5, avail', o)
            && forall k :: 0 <= k < |g.frames| ==> FramePromise(b5, avail', o, g.frames[k])
  {
    hide Ok, Out, Inv;
    avail' := avail + [a];
    OkLength(b4, avail, n);
    PromisesKept(g, avail, b4, avail, o);
    NewBlockOk(b4, avail, n, a);
    NewBlockKept(b4, avail, a);
    TermOk(NewBlock(b4), avail', n, g.cur, t);
    TermKept(NewBlock(b4), avail', g.cur, t);
    KeptTrans(g.blocks, avail, b4, avail, NewBlock(b4), avail');
    KeptTrans(g.blocks, avail, NewBlock(b4), avail', SetTerm(NewBlock(b4), g.cur, t), avail');
    PromisesKept(g, avail, SetTerm(NewBlock(b4), g.cur, t), avail', o);
  }

  lemma NoEdgesToNew(code: seq<Block>, avail: seq<set<nat>>, n: nat, p: nat, b: nat)
    requires Ok(code, avail, n) && b >= |code|
    ensures !IsEdge(code, p, b)
  {
  }

  /** After a branch from `b` to the new block `test`, that is the only edge into it. */
  lemma OnlyEdge(code: seq<Block>, avail: seq<set<nat>>, n: nat, b: nat, v: nat, t: Terminator)
    requires Ok(code, avail, n) && b < |code| && code[b].term.None? && |code| in Succs(t)
    ensures PhiMatches(SetTerm(NewBlock(code), b, t), |code|, [Incoming(v, b)])
  {
    var code' := SetTerm(NewBlock(code), b, t);
    var inc := [Incoming(v, b)];
    forall p: nat
      ensures IsEdge(code', p, |code|) <==> HasPred(inc, p)
    {
      assert inc[0].pred == b;
      if p != b {
        NoEdgesToNew(code, avail, n, p, |code|);
      }
    }
  }

  lemma LoopOk(g: Gen, avail: seq<set<nat>>, o: Options) returns (avail': seq<set<nat>>)
    requires GenOk(g, avail, o)
    ensures GenOk(GenLoop(g), avail', o)
  {
    hide Ok, Out, Inv, Kept, Exits, FramePromise, PhiMatches;
    GenLoopKeepsInv(g, o);
    InvCur(g, o);
    var n, test, h := g.nextReg, |g.blocks|, HeaderRegs(o);
    OkLength(g.blocks, avail, n);
    var c1, a1 := NewBlock(g.blocks), avail + [h];
    NewBlockOk(g.blocks, avail, n, h);
    NewBlockKept(g.blocks, avail, h);
    var c2 := SetTerm(c1, g.cur, Br(test));
    BlocksInUse(g, avail, o);
    TermOk(c1, a1, n, g.cur, Br(test));
    TermKept(c1, a1, g.cur, Br(test));
    var c3, a3 := NewBlock(c2), a1 + [h + {n}];
    NewBlockOk(c2, a1, n, h + {n});
    NewBlockKept(c2, a1, h + {n});
    OnlyEdge(g.blocks, avail, n, g.cur, g.head, Br(test));
    NewBlockKeepsEdges(c2, test, [Incoming(g.head, g.cur)]);
    var phi := Phi(n, [Incoming(g.head, g.cur)]);
    FirstPhiOk(c3, a3, n, test, phi);
    var c4 := AppendTo(c3, test, phi);
    KeptTrans(g.blocks, avail, c1, a1, c2, a1);
    KeptTrans(g.blocks, avail, c2, a1, c3, a3);
    PromisesKept(g, avail, c3, a3, o);
    FirstPhiPromises(c3, a3, test, phi, o, g.frames);
    avail' := a3;
    FrameMade(c4, a3, o, Frame(n, test + 1, test));
  }

  lemma BlocksInUse(g: Gen, avail: seq<set<nat>>, o: Options)
    requires GenOk(g, avail, o)
    ensures g.cur < |g.blocks| && |g.blocks| > (if o.bounds then ERROR_BB else END_BB)
    ensures forall k :: 0 <= k < |g.frames| ==> g.frames[k].oldbb < |g.blocks|
    ensures g.head in Out(g.blocks, avail, g.cur) && HeaderRegs(o) <= Out(g.blocks, avail, g.cur)
  {
  }

  lemma FrameMade(code: seq<Block>, avail: seq<set<nat>>, o: Options, f: Frame)
    requires 0 < f.testbb < |code| == |avail| && 0 < f.oldbb < |code| && code[f.oldbb].instrs == []
    requires avail[f.testbb] == HeaderRegs(o) && avail[f.oldbb] == HeaderRegs(o) + {f.phi}
    ensures FramePromise(code, avail, o, f)
  {
  }

  lemma NewBlockKeepsEdges(code: seq<Block>, b: nat, inc: seq<Incoming>)
    requires PhiMatches(code, b, inc)
    ensures PhiMatches(NewBlock(code), b, inc)
  {
    forall p: nat
      ensures IsEdge(NewBlock(code), p, b) == IsEdge(code, p, b)
    {
    }
  }

  /** A PHI that opens a block made for it breaks no promise. */
  lemma FirstPhiPromises(code: seq<Block>, avail: seq<set<nat>>, b: nat, phi: Instr, o: Options, frames: seq<Frame>)
    requires b < |code| && Exits(code, avail, o) && b != END_BB && (o.bounds ==> b != ERROR_BB)
    requires forall k :: 0 <= k < |frames| ==> FramePromise(code, avail, o, frames[k]) && frames[k].oldbb != b
    ensures Exits(AppendTo(code, b, phi), avail, o)
    ensures forall k :: 0 <= k < |frames| ==> FramePromise(AppendTo(code, b, phi), avail, o, frames[k])
  {
    forall k | 0 <= k < |frames|
      ensures FramePromise(AppendTo(code, b, phi), avail, o, frames[k])
    {
      assert FramePromise(code, avail, o, frames[k]);
    }
  }

  /** The test at the end of a loop: it reads the PHI of its own block. */
  lemma TestOk(code: seq<Block>, avail: seq<set<nat>>, n: nat, f: Frame, o: Options)
    requires Ok(code, avail, n) && IsOpenPhi(code, f) && code[f.testbb].instrs[0].dst == f.phi
    ensures var c := AppendTo(AppendTo(code, f.testbb, Load(n, f.phi)), f.testbb, IcmpEqZero(n + 1, n));
            && Ok(c, avail, n + 2) && Kept(code, avail, c, avail)
            && avail[f.testbb] + {f.phi, n + 1} <= Out(c, avail, f.testbb)
            && (forall b :: 0 <= b < |code| && b != f.testbb ==> Out(c, avail, b) == Out(code, avail, b))
  {
    hide Ok, AppendTo;
    OkLength(code, avail, n);
    assert f.phi in Out(code, avail, f.testbb) by {
      assert Def(code[f.testbb].instrs[0]) == Some(f.phi);
    }
    var i, j := Load(n, f.phi), IcmpEqZero(n + 1, n);
    AppendOk(code, avail, n, f.testbb, i, n + 1);
    AppendOk(AppendTo(code, f.testbb, i), avail, n + 1, f.testbb, j, n + 2);
    AppendKept(code, avail, f.testbb, i);
    AppendKept(AppendTo(code, f.testbb, i), avail, f.testbb, j);
  }

  lemma BackEdgeKept(code: seq<Block>, avail: seq<set<nat>>, b: nat, f: Frame, inc: Incoming)
    requires |avail| == |code| && b < |code| && IsOpenPhi(code, f) && f.testbb != b
    requires IsOpenPhi(SetTerm(code, b, Br(f.testbb)), f)
    ensures Kept(code, avail, AddIncoming(SetTerm(code, b, Br(f.testbb)), f, inc), avail)
    ensures var c := AddIncoming(SetTerm(code, b, Br(f.testbb)), f, inc);
            && IsOpenPhi(c, f) && c[f.testbb].term == code[f.testbb].term
            && c[f.testbb].instrs[0].dst == code[f.testbb].instrs[0].dst
  {
  }

  lemma EndLoopOk(g: Gen, avail: seq<set<nat>>, o: Options) returns (avail': seq<set<nat>>)
    requires GenOk(g, avail, o) && g.frames != []
    ensures GenOk(GenEndLoop(g), avail', o)
  {
    hide Ok, Out, Inv, Kept, Exits, PhiMatches, NoPhi, AppendTo;
    GenEndLoopKeepsInv(g, o);
    InvCur(g, o);
    BlocksInUse(g, avail, o);
    var n, f := g.nextReg, g.frames[0];
    FrameIsOpen(g, o);
    assert FramePromise(g.blocks, avail, o, f);
    OkLength(g.blocks, avail, n);
    BackEdgeOk(g.blocks, avail, n, g.cur, f, g.head);
    var c2 := AddIncoming(SetTerm(g.blocks, g.cur, Br(f.testbb)), f, Incoming(g.head, g.cur));
    BackEdgeKept(g.blocks, avail, g.cur, f, Incoming(g.head, g.cur));
    TestOk(c2, avail, n, f, o);
    var c4 := AppendTo(AppendTo(c2, f.testbb, Load(n, f.phi)), f.testbb, IcmpEqZero(n + 1, n));
    KeptTrans(g.blocks, avail, c2, avail, c4, avail);
    avail' := ExitOk(g, avail, c4, o);
  }

  /** The branch at the end of the test, and the block behind the loop. */
  function Exit(c4: seq<Block>, f: Frame, n: nat): (c7: seq<Block>)
    requires f.testbb < |c4|
    ensures |c7| == |c4| + 1
  {
    var c6 := SetTerm(NewBlock(c4), f.testbb, CondBr(n + 1, |c4|, f.oldbb));
    AppendTo(c6, |c4|, Phi(n + 2, [Incoming(f.phi, f.testbb)]))
  }

  lemma ExitOk(g: Gen, avail: seq<set<nat>>, c4: seq<Block>, o: Options) returns (a5: seq<set<nat>>)
    requires GenOk(g, avail, o) && g.frames != []
    requires var f, n := g.frames[0], g.nextReg;
             && |c4| == |g.blocks| && Ok(c4, avail, n + 2) && Kept(g.blocks, avail, c4, avail)
             && f.testbb < |c4| && c4[f.testbb].term.None?
             && avail[f.testbb] + {f.phi, n + 1} <= Out(c4, avail, f.testbb)
    ensures var n, c7 := g.nextReg, Exit(c4, g.frames[0], g.nextReg);
            && Ok(c7, a5, n + 3) && Exits(c7, a5, o)
            && n + 2 in Out(c7, a5, |c4|) && HeaderRegs(o) <= Out(c7, a5, |c4|)
            && forall k :: 0 <= k < |g.frames| ==> FramePromise(c7, a5, o, g.frames[k])
  {
    hide Ok, Out, Inv, Kept, Exits, PhiMatches, NoPhi, AppendTo;
    BlocksInUse(g, avail, o);
    OkLength(g.blocks, avail, g.nextReg);
    var n, h, f := g.nextReg, HeaderRegs(o), g.frames[0];
    assert FramePromise(g.blocks, avail, o, f);
    a5 := avail + [h + {f.phi}];
    var c5 := NewBlock(c4);
    NewBlockOk(c4, avail, n + 2, h + {f.phi});
    NewBlockKept(c4, avail, h + {f.phi});
    KeptTrans(g.blocks, avail, c4, avail, c5, a5);
    PromisesKept(g, avail, c5, a5, o);
    assert FramePromise(c5, a5, o, f);
    var t := CondBr(n + 1, |c4|, f.oldbb);
    NewBlockHasNoPhi(c4);
    TermOk(c5, a5, n + 2, f.testbb, t);
    TermKept(c5, a5, f.testbb, t);
    var c6 := SetTerm(c5, f.testbb, t);
    KeptTrans(g.blocks, avail, c5, a5, c6, a5);
    PromisesKept(g, avail, c6, a5, o);
    OnlyEdge(c4, avail, n + 2, f.testbb, f.phi, t);
    var phi := Phi(n + 2, [Incoming(f.phi, f.testbb)]);
    FirstPhiOk(c6, a5, n + 2, |c4|, phi);
    FirstPhiPromises(c6, a5, |c4|, phi, o, g.frames);
  }

  lemma NewBlockHasNoPhi(code: seq<Block>)
    ensures NoPhi(NewBlock(code)[|code|])
  {
  }

  lemma FrameIsOpen(g: Gen, o: Options)
    requires Inv(g, o) && g.frames != []
    ensures OpenHeader(g.blocks, g.frames[0]) && g.frames[0].testbb != g.cur
  {
  }

  lemma SymOk(g: Gen, avail: seq<set<nat>>, t: Sym, o: Options) returns (avail': seq<set<nat>>)
    requires GenOk(g, avail, o) && (t.EndLoop? ==> g.frames != [])
    ensures GenOk(GenSym(g, t, o), avail', o)
  {
    hide GenOk, Inv, AppendTo, GenMove, GenLoop, GenEndLoop;
    GenOkInv(g, avail, o);
    GenSymKeepsInv(g, t, o);
    avail' := avail;
    var r := g.nextReg;
    match t
    case Read => CommandOk(g, avail, o, Getchar(r), Trunc(r + 1, r), Store(r + 1, g.head));
    case Write => CommandOk(g, avail, o, Load(r, g.head), SExt(r + 1, r), Putchar(r + 1));
    case Change(v) => CommandOk(g, avail, o, Load(r, g.head), AddI8(r + 1, r, v % 256), Store(r + 1, g.head));
    case Move(v) => avail' := MoveOk(g, avail, v, o);
    case Loop => avail' := LoopOk(g, avail, o);
    case EndLoop => avail' := EndLoopOk(g, avail, o);
  }

  lemma GenOkInv(g: Gen, avail: seq<set<nat>>, o: Options)
    requires GenOk(g, avail, o)
    ensures Inv(g, o)
  {
  }

  // ----- the whole function -----

  lemma HeaderGenOk(o: Options) returns (avail: seq<set<nat>>)
    ensures GenOk(Header(o), avail, o)
  {
    hide AppendTo, NoPhi, Int32;
    var b0, a0 := [Block([], None)], [{}];
    var i1, i2 := Malloc(ARR, o.mem), Memset(ARR, o.mem);
    var b1 := AppendTo(b0, 0, i1);
    AppendOk(b0, a0, 0, 0, i1, 1);
    var b2 := AppendTo(b1, 0, i2);
    AppendOk(b1, a0, 1, 0, i2, 1);
    var i3 := Gep(ARRMAX, ARR, Int32(o.mem));
    if o.bounds {
      AppendOk(b2, a0, 1, 0, i3, 2);
    }
    var b3, n := if o.bounds then AppendTo(b2, 0, i3) else b2, if o.bounds then 2 else 1;
    var i4 := Gep(n, ARR, Int32(o.mem / 2));
    AppendOk(b3, a0, n, 0, i4, n + 1);
    var b4 := AppendTo(b3, 0, i4);
    assert HeaderRegs(o) + {n} <= Out(b4, a0, 0);
    avail := FooterOk(b4, a0, n + 1, o);
    HeaderInv(o);
  }

  lemma FooterOk(code: seq<Block>, avail: seq<set<nat>>, n: nat, o: Options) returns (avail': seq<set<nat>>)
    requires Ok(code, avail, n) && |code| == 1 && code[0].term.None?
    ensures var c := Footer(code, ARR, o);
            && Ok(c, avail', n) && Exits(c, avail', o) && Out(c, avail', 0) == Out(code, avail, 0)
  {
    hide Ok, Out, AppendTo;
    OkLength(code, avail, n);
    NewBlockOk(code, avail, n, {ARR});
    var c1, a1 := NewBlock(code), avail + [{ARR}];
    AppendOk(c1, a1, n, END_BB, Free(ARR), n);
    var c2 := AppendTo(c1, END_BB, Free(ARR));
    TermOk(c2, a1, n, END_BB, Ret);
    var c3 := SetTerm(c2, END_BB, Ret);
    avail' := a1;
    NewBlockHasNoPhi(code);
    AppendKept(c1, a1, END_BB, Free(ARR));
    assert NoPhi(c3[END_BB]);
    if o.bounds {
      NewBlockOk(c3, a1, n, {ARR});
      var c4, a4 := NewBlock(c3), a1 + [{ARR}];
      AppendOk(c4, a4, n, ERROR_BB, PutsError, n);
      var c5 := AppendTo(c4, ERROR_BB, PutsError);
      NewBlockHasNoPhi(c3);
      AppendKept(c4, a4, ERROR_BB, PutsError);
      TermOk(c5, a4, n, ERROR_BB, Br(END_BB));
      avail' := a4;
    }
  }

  lemma {:induction false} AfterOk(toks: seq<Sym>, o: Options, i: nat) returns (avail: seq<set<nat>>)
    requires i <= |toks| && Opens(toks, i).Some?
    ensures GenOk(After(toks, o, i), avail, o)
    decreases i
  {
    hide GenOk, GenSym, Header;
    if i == 0 {
      avail := HeaderGenOk(o);
    } else {
      avail := AfterOk(toks, o, i - 1);
      avail := SymOk(After(toks, o, i - 1), avail, toks[i - 1], o);
    }
  }

  /** The blocks still without terminator are the insertion block and the headers of open loops. */
  ghost predicate Unfinished(g: Gen) {
    forall b :: 0 <= b < |g.blocks| && g.blocks[b].term.None? ==>
      b == g.cur || exists k :: 0 <= k < |g.frames| && g.frames[k].testbb == b
  }

  lemma SymUnfinished(g: Gen, t: Sym, o: Options)
    requires Inv(g, o) && Unfinished(g) && (t.EndLoop? ==> g.frames != [])
    ensures Unfinished(GenSym(g, t, o))
  {
    match t
    case Loop => LoopUnfinished(g, o);
    case EndLoop => EndLoopUnfinished(g, o);
    case _ => CommandUnfinished(g, t, o);
  }

  lemma CommandUnfinished(g: Gen, t: Sym, o: Options)
    requires Inv(g, o) && Unfinished(g) && !t.Loop? && !t.EndLoop?
    ensures Unfinished(GenSym(g, t, o))
  {
    hide AppendTo, Int32, Inv;
    InvCur(g, o);
    var g' := GenSym(g, t, o);
    forall b | 0 <= b < |g'.blocks| && g'.blocks[b].term.None? && b != g'.cur
      ensures exists k :: 0 <= k < |g'.frames| && g'.frames[k].testbb == b
    {
      assert g'.frames == g.frames && b < |g.blocks| && g.blocks[b].term.None? && b != g.cur;
    }
  }

  lemma LoopUnfinished(g: Gen, o: Options)
    requires Inv(g, o) && Unfinished(g)
    ensures Unfinished(GenLoop(g))
  {
    hide AppendTo, Inv;
    InvCur(g, o);
    var g' := GenLoop(g);
    forall b | 0 <= b < |g'.blocks| && g'.blocks[b].term.None? && b != g'.cur
      ensures exists k :: 0 <= k < |g'.frames| && g'.frames[k].testbb == b
    {
      if b == |g.blocks| {
        assert g'.frames[0].testbb == b;
      } else {
        assert b < |g.blocks| && g.blocks[b].term.None? && b != g.cur;
        var k :| 0 <= k < |g.frames| && g.frames[k].testbb == b;
        assert g'.frames[k + 1] == g.frames[k];
      }
    }
  }

  lemma EndLoopUnfinished(g: Gen, o: Options)
    requires Inv(g, o) && Unfinished(g) && g.frames != []
    ensures Unfinished(GenEndLoop(g))
  {
    hide AppendTo;
    assert OpenHeader(g.blocks, g.frames[0]);
    var g' := GenEndLoop(g);
    forall b | 0 <= b < |g'.blocks| && g'.blocks[b].term.None? && b != g'.cur
      ensures exists k :: 0 <= k < |g'.frames| && g'.frames[k].testbb == b
    {
      assert b < |g.blocks| && g.blocks[b].term.None? && b != g.cur;
      var k :| 0 <= k < |g.frames| && g.frames[k].testbb == b;
      assert k > 0 && g'.frames[k - 1] == g.frames[k];
    }
  }

  lemma {:induction false} AfterUnfinished(toks: seq<Sym>, o: Options, i: nat)
    requires i <= |toks| && Opens(toks, i).Some?
    ensures Unfinished(After(toks, o, i))
    decreases i
  {
    hide Unfinished, GenSym, Header;
    if i == 0 {
      HeaderUnfinished(o);
    } else {
      AfterUnfinished(toks, o, i - 1);
      SymUnfinished(After(toks, o, i - 1), toks[i - 1], o);
    }
  }

  lemma HeaderUnfinished(o: Options)
    ensures Unfinished(Header(o))
  {
    hide AppendTo;
  }

  /** Every balanced source compiles to a well-formed function, with and without bounds checks. */
  lemma CompiledIsWellFormed(src: seq<char>, o: Options)
    requires Balanced(src)
    ensures Compile(src, o).Compiled? && WellFormed(Compile(src, o).blocks)
  {
    hide After, Opens, Ok, Out, GenAll, Lex;
    CompileOutcome(src, o);
    var toks := Lex(src);
    var g := After(toks, o, |toks|);
    var avail := AfterOk(toks, o, |toks|);
    AfterUnfinished(toks, o, |toks|);
    BlocksInUse(g, avail, o);
    OkLength(g.blocks, avail, g.nextReg);
    TermOk(g.blocks, avail, g.nextReg, g.cur, Br(END_BB));
    var code := SetTerm(g.blocks, g.cur, Br(END_BB));
    OkIsWellFormed(code, avail, g.nextReg);
  }

  lemma OkIsWellFormed(code: seq<Block>, avail: seq<set<nat>>, n: nat)
    requires Ok(code, avail, n) && Terminated(code)
    ensures WellFormed(code)
  {
    forall path | IsPath(code, path)
      ensures DefinedBeforeUse(code, path)
    {
      AvailIsEnough(code, avail, path);
    }
  }
}
