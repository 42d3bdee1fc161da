/**
  Every compiled function is well formed: each block ends in exactly one terminator, each PHI
  lists exactly the predecessors of its block, each register is defined once, and on every path
  from the entry a register is defined before it is used.
*/
module BrainFWellFormed {
  import opened Common
  import opened BrainFSyntax
  import opened BrainFIr
  import opened BrainFCodegen
  import opened BrainFLayout

  // ----- well-formed code -----

  ghost predicate IsEdge(code: seq<Block>, p: nat, b: nat) {
    p < |code| && code[p].term.Some? && b in Succs(code[p].term.value)
  }

  ghost predicate HasPred(inc: seq<Incoming>, p: nat) {
    exists i :: 0 <= i < |inc| && inc[i].pred == p
  }

  /** The incoming edges are exactly the edges into the block, each listed once. */
  ghost predicate PhiMatches(code: seq<Block>, b: nat, inc: seq<Incoming>) {
    && (forall p: nat :: IsEdge(code, p, b) <==> HasPred(inc, p))
    && (forall i, j :: 0 <= i < j < |inc| ==> inc[i].pred != inc[j].pred)
  }

  ghost predicate PhisOkAt(code: seq<Block>, b: nat)
    requires b < |code|
  {
    forall k :: 0 <= k < |code[b].instrs| && code[b].instrs[k].Phi? ==>
      k == 0 && PhiMatches(code, b, code[b].instrs[0].incoming)
  }

  ghost predicate PhisOk(code: seq<Block>) {
    forall b :: 0 <= b < |code| ==> PhisOkAt(code, b)
  }

  /** Branches lead to blocks of the function, never back to the entry. */
  ghost predicate TargetsOk(code: seq<Block>) {
    forall p: nat, b: nat :: IsEdge(code, p, b) ==> 0 < b < |code|
  }

  ghost predicate Terminated(code: seq<Block>) {
    forall b :: 0 <= b < |code| ==> code[b].term.Some?
  }

  ghost predicate DefAt(code: seq<Block>, b: nat, k: nat, r: nat) {
    b < |code| && k < |code[b].instrs| && Def(code[b].instrs[k]) == Some(r)
  }

  ghost predicate DefinedOnce(code: seq<Block>) {
    forall b: nat, k: nat, b': nat, k': nat, r: nat ::
      DefAt(code, b, k, r) && DefAt(code, b', k', r) ==> b == b' && k == k'
  }

  /** A path of the control flow graph, from the entry. */
  ghost predicate IsPath(code: seq<Block>, path: seq<nat>) {
    && path != [] && path[0] == 0 && |code| > 0
    && forall i :: 0 < i < |path| ==> path[i] < |code| && IsEdge(code, path[i - 1], path[i])
  }

  /** Going along `path` and then through the first `k` instructions of its last block, `r` is defined. */
  ghost predicate DefinedOn(code: seq<Block>, path: seq<nat>, k: nat, r: nat) {
    exists i: nat, l: nat :: i < |path| && DefAt(code, path[i], l, r) && (i < |path| - 1 || l < k)
  }

  /** Along `path`, everything its last block reads has been defined, and everything that a PHI
      reads on the way out of it. */
  ghost predicate DefinedBeforeUse(code: seq<Block>, path: seq<nat>)
    requires IsPath(code, path)
  {
    var b := path[|path| - 1];
    && (forall k: nat, r: nat :: k < |code[b].instrs| && r in Uses(code[b].instrs[k]) ==> DefinedOn(code, path, k, r))
    && (forall r: nat :: code[b].term.Some? && r in TermUses(code[b].term.value) ==>
          DefinedOn(code, path, |code[b].instrs|, r))
    && (forall c: nat, k: nat, e: Incoming :: c < |code| && PhiReads(code, c, k, e) && e.pred == b ==>
          DefinedOn(code, path, |code[b].instrs|, e.value))
  }

  ghost predicate PhiReads(code: seq<Block>, c: nat, k: nat, e: Incoming)
    requires c < |code|
  {
    k < |code[c].instrs| && code[c].instrs[k].Phi? && e in code[c].instrs[k].incoming
  }

  ghost predicate WellFormed(code: seq<Block>) {
    && Terminated(code) && TargetsOk(code) && PhisOk(code) && DefinedOnce(code)
    && forall path :: IsPath(code, path) ==> DefinedBeforeUse(code, path)
  }

  // ----- available registers -----

  /** The registers that the first `k` instructions of a block define. */
  function Defs(b: Block, k: nat): set<nat>
    requires k <= |b.instrs|
  {
    set l | 0 <= l < k && Def(b.instrs[l]).Some? :: Def(b.instrs[l]).value
  }

  /** The registers available at the end of block `b`, given those available at its start. */
  function Out(code: seq<Block>, avail: seq<set<nat>>, b: nat): set<nat>
    requires b < |code| == |avail|
  {
    avail[b] + Defs(code[b], |code[b].instrs|)
  }

  /** A solution of the data flow equations: what is available at the start of a block is available
      at the end of each predecessor, and nothing else is used. */
  ghost predicate AvailOk(code: seq<Block>, avail: seq<set<nat>>) {
    && |avail| == |code| && |code| > 0 && avail[0] == {}
    && (forall p: nat, b: nat :: IsEdge(code, p, b) && b < |code| ==> avail[b] <= Out(code, avail, p))
    && (forall b: nat, k: nat :: b < |code| && k < |code[b].instrs| ==>
          Uses(code[b].instrs[k]) <= avail[b] + Defs(code[b], k))
    && (forall b: nat :: b < |code| && code[b].term.Some? ==> TermUses(code[b].term.value) <= Out(code, avail, b))
    && (forall c: nat, k: nat, e: Incoming :: c < |code| && PhiReads(code, c, k, e) ==>
          e.pred < |code| && e.value in Out(code, avail, e.pred))
  }

  /** What is available has been defined on every path. */
  lemma {:induction false} AvailableIsDefined(code: seq<Block>, avail: seq<set<nat>>, path: seq<nat>, r: nat)
    requires AvailOk(code, avail) && IsPath(code, path)
    requires r in avail[path[|path| - 1]]
    ensures DefinedOn(code, path, 0, r)
    decreases |path|, 0
  {
    var n := |path| - 1;
    if n > 0 {
      var before := path[..n];
      assert IsPath(code, before);
      assert IsEdge(code, path[n - 1], path[n]);
      assert r in Out(code, avail, path[n - 1]);
      DefinedAtEnd(code, avail, before, |code[path[n - 1]].instrs|, r);
      var i: nat, l: nat :| i < |before| && DefAt(code, before[i], l, r);
      assert i < |path| - 1 && DefAt(code, path[i], l, r);
    }
  }

  lemma DefinedAtEnd(code: seq<Block>, avail: seq<set<nat>>, path: seq<nat>, k: nat, r: nat)
    requires AvailOk(code, avail) && IsPath(code, path)
    requires var b := path[|path| - 1]; k <= |code[b].instrs| && r in avail[b] + Defs(code[b], k)
    ensures DefinedOn(code, path, k, r)
    decreases |path|, 1
  {
    var n := |path| - 1;
    var b := path[n];
    if r in avail[b] {
      AvailableIsDefined(code, avail, path, r);
      var i: nat, l: nat :| i < |path| && DefAt(code, path[i], l, r) && (i < |path| - 1 || l < 0);
      assert i < |path| && DefAt(code, path[i], l, r) && (i < |path| - 1 || l < k);
    } else {
      var l: nat :| l < k && Def(code[b].instrs[l]) == Some(r);
      assert DefAt(code, path[n], l, r);
    }
  }

  lemma AvailIsEnough(code: seq<Block>, avail: seq<set<nat>>, path: seq<nat>)
    requires AvailOk(code, avail) && IsPath(code, path)
    ensures DefinedBeforeUse(code, path)
  {
    var b := path[|path| - 1];
    forall k: nat, r: nat | k < |code[b].instrs| && r in Uses(code[b].instrs[k])
      ensures DefinedOn(code, path, k, r)
    {
      DefinedAtEnd(code, avail, path, k, r);
    }
    forall r: nat | code[b].term.Some? && r in TermUses(code[b].term.value)
      ensures DefinedOn(code, path, |code[b].instrs|, r)
    {
      DefinedAtEnd(code, avail, path, |code[b].instrs|, r);
    }
    forall c: nat, k: nat, e: Incoming | c < |code| && PhiReads(code, c, k, e) && e.pred == b
      ensures DefinedOn(code, path, |code[b].instrs|, e.value)
    {
      DefinedAtEnd(code, avail, path, |code[b].instrs|, e.value);
    }
  }
}
