/**
  The check of a recorded history: is there an order of its operations that keeps the order of every
  thread, for linearizability also the order in real time, and that the sequential specification accepts?
  The check goes through arrangements of thread numbers and turns each into an order of operations.
*/
module TraceCheck {
  import opened Common

  /** A call or a return, as the interpreter records them. */
  datatype TraceElem =
    | Call(thread: Thread, func: string, args: seq<int>)
    | Return(thread: Thread, func: string, value: int)

  /** A finished operation, with the positions of its call and its return in the trace. */
  datatype Op = Op(call: nat, ret: nat, thread: Thread, func: string, args: seq<int>, value: int)

  // ----- the operations of a trace -----

  /** The last thing thread `t` did before position `i` was the call at the returned position. */
  function OpenCall(trace: seq<TraceElem>, i: nat, t: Thread): (c: Option<nat>)
    requires i <= |trace|
    ensures c.Some? ==> c.value < i && trace[c.value].Call? && trace[c.value].thread == t
  {
    if i == 0 then None
    else if trace[i - 1].thread != t then OpenCall(trace, i - 1, t)
    else if trace[i - 1].Call? then Some(i - 1)
    else None
  }

  /** Every return answers a call. */
  ghost predicate WellFormed(trace: seq<TraceElem>) {
    forall i :: 0 <= i < |trace| && trace[i].Return? ==> OpenCall(trace, i, trace[i].thread).Some?
  }

  function OpAt(trace: seq<TraceElem>, i: nat): Op
    requires i < |trace| && trace[i].Return? && OpenCall(trace, i, trace[i].thread).Some?
  {
    var c := OpenCall(trace, i, trace[i].thread).value;
    Op(c, i, trace[i].thread, trace[i].func, trace[c].args, trace[i].value)
  }

  /** The operations in the order of their returns; calls that have not returned are left out. */
  ghost function Ops(trace: seq<TraceElem>, i: nat): seq<Op>
    requires i <= |trace| && WellFormed(trace)
  {
    if i == 0 then []
    else Ops(trace, i - 1) + (if trace[i - 1].Return? then [OpAt(trace, i - 1)] else [])
  }

  /** Calls come before returns, and no position is both. */
  ghost predicate Timed(ops: seq<Op>) {
    && (forall k :: 0 <= k < |ops| ==> ops[k].call < ops[k].ret)
    && (forall k, l :: 0 <= k < |ops| && 0 <= l < |ops| ==> ops[k].call != ops[l].ret)
  }

  lemma {:induction false} OpsAreTimed(trace: seq<TraceElem>, i: nat)
    requires i <= |trace| && WellFormed(trace)
    ensures Timed(Ops(trace, i))
    ensures forall k :: 0 <= k < |Ops(trace, i)| ==>
              var o := Ops(trace, i)[k]; o.ret < i && trace[o.ret].Return? && o.call < i && trace[o.call].Call?
    decreases i
  {
    if i > 0 {
      OpsAreTimed(trace, i - 1);
    }
  }

  /**
    What the operations of a trace are: one for each return before position `i`, in order; with the thread, the
    function and the value of the return, and the arguments of the call that is the last thing the thread did
    before it.
  */
  ghost predicate OpsOf(trace: seq<TraceElem>, i: nat, ops: seq<Op>)
    requires i <= |trace|
  {
    && (forall k :: 0 <= k < |ops| ==> ops[k].ret < i && IsOp(trace, ops[k]))
    && (forall j :: 0 <= j < i && trace[j].Return? ==> exists k :: 0 <= k < |ops| && ops[k].ret == j)
    && (forall k, l :: 0 <= k < l < |ops| ==> ops[k].ret < ops[l].ret)
  }

  ghost predicate IsOp(trace: seq<TraceElem>, o: Op) {
    && o.call < o.ret < |trace| && trace[o.call].Call? && trace[o.ret].Return?
    && trace[o.call].thread == trace[o.ret].thread == o.thread
    && (forall j :: o.call < j < o.ret ==> trace[j].thread != o.thread)
    && trace[o.ret].func == o.func && trace[o.ret].value == o.value && trace[o.call].args == o.args
  }

  lemma {:induction false} OpenCallIsLast(trace: seq<TraceElem>, i: nat, t: Thread)
    requires i <= |trace| && OpenCall(trace, i, t).Some?
    ensures forall j :: OpenCall(trace, i, t).value < j < i ==> trace[j].thread != t
    decreases i
  {
    if trace[i - 1].thread != t {
      OpenCallIsLast(trace, i - 1, t);
    }
  }

  lemma {:induction false} OpsAreOfTrace(trace: seq<TraceElem>, i: nat)
    requires i <= |trace| && WellFormed(trace)
    ensures OpsOf(trace, i, Ops(trace, i))
    decreases i
  {
    hide OpsOf;
    if i == 0 {
      NoOps(trace);
    } else {
      OpsAreOfTrace(trace, i - 1);
      hide Ops, OpAt;
      OpsMore(trace, i);
      if trace[i - 1].Return? {
        OpIsOp(trace, i - 1);
        OneOpMore(trace, i - 1, Ops(trace, i - 1), OpAt(trace, i - 1));
      } else {
        NoOpMore(trace, i - 1, Ops(trace, i - 1));
      }
    }
  }

  lemma OpsMore(trace: seq<TraceElem>, i: nat)
    requires 0 < i <= |trace| && WellFormed(trace)
    ensures Ops(trace, i) ==
            if trace[i - 1].Return? then Ops(trace, i - 1) + [OpAt(trace, i - 1)] else Ops(trace, i - 1)
  {
  }

  lemma NoOps(trace: seq<TraceElem>)
    ensures OpsOf(trace, 0, [])
  {
  }

  lemma NoOpMore(trace: seq<TraceElem>, i: nat, ops: seq<Op>)
    requires i < |trace| && OpsOf(trace, i, ops) && !trace[i].Return?
    ensures OpsOf(trace, i + 1, ops)
  {
    hide IsOp;
  }

  lemma OneOpMore(trace: seq<TraceElem>, i: nat, ops: seq<Op>, o: Op)
    requires i < |trace| && OpsOf(trace, i, ops) && trace[i].Return? && IsOp(trace, o) && o.ret == i
    ensures OpsOf(trace, i + 1, ops + [o])
  {
    hide IsOp;
    var more := ops + [o];
    forall j | 0 <= j < i + 1 && trace[j].Return?
      ensures exists k :: 0 <= k < |more| && more[k].ret == j
    {
      if j < i {
        var k :| 0 <= k < |ops| && ops[k].ret == j;
        assert more[k] == ops[k];
      } else {
        assert more[|ops|] == o;
      }
    }
  }

  lemma OpIsOp(trace: seq<TraceElem>, i: nat)
    requires i < |trace| && trace[i].Return? && OpenCall(trace, i, trace[i].thread).Some?
    ensures IsOp(trace, OpAt(trace, i)) && OpAt(trace, i).ret == i
  {
    OpenCallIsLast(trace, i, trace[i].thread);
  }

  /** Pairs every return with the call that its thread has open. */
  method GenInit(trace: seq<TraceElem>) returns (ops: seq<Op>)
    requires WellFormed(trace)
    ensures ops == Ops(trace, |trace|)
  {
    var calls: map<Thread, nat> := map[];
    ops := [];
    var i := 0;
    while i < |trace|
      invariant 0 <= i <= |trace| && ops == Ops(trace, i)
      invariant forall t: Thread :: OpenCall(trace, i, t) == if t in calls then Some(calls[t]) else None
    {
      var e := trace[i];
      match e {
        case Call(t, _, _) => calls := calls[t := i];
        case Return(t, f, v) =>
          assert OpenCall(trace, i, t).Some?;
          ops := ops + [Op(calls[t], i, t, f, trace[calls[t]].args, v)];
          calls := map u | u in calls && u != t :: calls[u];
      }
      i := i + 1;
    }
  }

  // ----- orders of operations -----

  function Threads(ops: seq<Op>): (r: seq<Thread>)
    ensures |r| == |ops| && forall k :: 0 <= k < |ops| ==> r[k] == ops[k].thread
  {
    seq(|ops|, k requires 0 <= k < |ops| => ops[k].thread)
  }

  /** An order of all operations, each once, that keeps the order of every thread. */
  ghost predicate Interleaving(ops: seq<Op>, pi: seq<nat>) {
    && |pi| == |ops|
    && (forall i :: 0 <= i < |pi| ==> pi[i] < |ops|)
    && (forall k :: 0 <= k < |ops| ==> k in pi)
    && (forall i, j :: 0 <= i < j < |pi| ==> pi[i] != pi[j])
    && (forall i, j :: 0 <= i < j < |pi| && ops[pi[i]].thread == ops[pi[j]].thread ==> pi[i] < pi[j])
  }

  /** The order of threads that an order of operations shows. */
  ghost predicate Shows(ops: seq<Op>, pi: seq<nat>, p: seq<Thread>) {
    && |p| == |pi| && (forall i :: 0 <= i < |pi| ==> pi[i] < |ops|)
    && forall i :: 0 <= i < |pi| ==> ops[pi[i]].thread == p[i]
  }

  /** `p` has every thread as often as `threads` has. */
  ghost predicate Arrangement(p: seq<Thread>, threads: seq<Thread>) {
    |p| == |threads| && forall t: Thread :: Count(p, t) == Count(threads, t)
  }

  lemma CountMore(s: seq<Thread>, i: nat, t: Thread)
    requires i < |s|
    ensures Count(s[..i + 1], t) == Count(s[..i], t) + (if s[i] == t then 1 else 0)
  {
    assert s[..i + 1][..i] == s[..i];
  }

  lemma {:induction false} CountGrows(s: seq<Thread>, i: nat, j: nat, t: Thread)
    requires i <= j <= |s|
    ensures Count(s[..i], t) <= Count(s[..j], t)
    ensures Count(s[..i], t) == Count(s[..j], t) <==> forall k :: i <= k < j ==> s[k] != t
    decreases j - i
  {
    if i < j {
      CountGrows(s, i, j - 1, t);
      CountMore(s, j - 1, t);
    }
  }

  /** An interleaving is known by its order of threads. */
  lemma {:induction false} OneInterleaving(ops: seq<Op>, pi: seq<nat>, qi: seq<nat>, p: seq<Thread>, i: nat)
    requires Interleaving(ops, pi) && Interleaving(ops, qi) && Shows(ops, pi, p) && Shows(ops, qi, p)
    requires i <= |pi|
    ensures pi[..i] == qi[..i]
    decreases i
  {
    if i > 0 {
      OneInterleaving(ops, pi, qi, p, i - 1);
      NotBefore(ops, pi, qi, p, i - 1);
      NotBefore(ops, qi, pi, p, i - 1);
      assert pi[..i] == pi[..i - 1] + [pi[i - 1]] && qi[..i] == qi[..i - 1] + [qi[i - 1]];
    }
  }

  lemma NotBefore(ops: seq<Op>, pi: seq<nat>, qi: seq<nat>, p: seq<Thread>, i: nat)
    requires Interleaving(ops, pi) && Interleaving(ops, qi) && Shows(ops, pi, p) && Shows(ops, qi, p)
    requires i < |pi| && pi[..i] == qi[..i]
    ensures qi[i] <= pi[i]
  {
    assert forall k :: 0 <= k < i ==> pi[k] == pi[..i][k] && qi[k] == qi[..i][k];
    assert pi[i] in qi;
    var j :| 0 <= j < |qi| && qi[j] == pi[i];
    assert j >= i;
  }

  // ----- an order of operations shows an arrangement -----

  /** How many marked positions of `s` hold `t`. */
  function Marked(s: seq<Thread>, marks: seq<bool>, t: Thread): nat
    requires |marks| == |s|
    decreases |s|
  {
    if s == [] then 0
    else
      var k := |s| - 1;
      Marked(s[..k], marks[..k], t) + (if marks[k] && s[k] == t then 1 else 0)
  }

  lemma {:induction false} MarkOne(s: seq<Thread>, marks: seq<bool>, k: nat, t: Thread)
    requires |marks| == |s| && k < |s| && !marks[k]
    ensures Marked(s, marks[k := true], t) == Marked(s, marks, t) + (if s[k] == t then 1 else 0)
    decreases |s|
  {
    var l := |s| - 1;
    if k < l {
      assert marks[k := true][..l] == marks[..l][k := true];
      MarkOne(s[..l], marks[..l], k, t);
    } else {
      assert marks[k := true][..l] == marks[..l];
    }
  }

  lemma {:induction false} AllOrNone(s: seq<Thread>, marks: seq<bool>, t: Thread)
    requires |marks| == |s|
    ensures (forall k :: 0 <= k < |s| ==> marks[k]) ==> Marked(s, marks, t) == Count(s, t)
    ensures (forall k :: 0 <= k < |s| ==> !marks[k]) ==> Marked(s, marks, t) == 0
    decreases |s|
  {
    if s != [] {
      AllOrNone(s[..|s| - 1], marks[..|s| - 1], t);
    }
  }

  /** The positions among the first `i` of `pi`. */
  function MarksOf(pi: seq<nat>, i: nat, n: nat): (marks: seq<bool>)
    requires i <= |pi|
    ensures |marks| == n && forall k :: 0 <= k < n ==> marks[k] == (k in pi[..i])
  {
    seq(n, k requires 0 <= k < n => k in pi[..i])
  }

  lemma {:induction false} CountsMarked(ops: seq<Op>, pi: seq<nat>, p: seq<Thread>, i: nat, t: Thread)
    requires Interleaving(ops, pi) && Shows(ops, pi, p) && i <= |pi|
    ensures Count(p[..i], t) == Marked(Threads(ops), MarksOf(pi, i, |ops|), t)
    decreases i
  {
    var ts := Threads(ops);
    if i == 0 {
      AllOrNone(ts, MarksOf(pi, 0, |ops|), t);
    } else {
      CountsMarked(ops, pi, p, i - 1, t);
      CountMore(p, i - 1, t);
      hide Count, Marked;
      var k, marks := pi[i - 1], MarksOf(pi, i - 1, |ops|);
      assert pi[..i] == pi[..i - 1] + [k];
      assert k !in pi[..i - 1] && MarksOf(pi, i, |ops|) == marks[k := true];
      MarkOne(ts, marks, k, t);
    }
  }

  lemma ShowsArrangement(ops: seq<Op>, pi: seq<nat>, p: seq<Thread>)
    requires Interleaving(ops, pi) && Shows(ops, pi, p)
    ensures Arrangement(p, Threads(ops))
  {
    forall t: Thread
      ensures Count(p, t) == Count(Threads(ops), t)
    {
      CountsMarked(ops, pi, p, |pi|, t);
      assert p[..|pi|] == p && pi[..|pi|] == pi;
      AllOrNone(Threads(ops), MarksOf(pi, |pi|, |ops|), t);
    }
  }

  // ----- an arrangement makes an order of operations -----

  lemma ThreadOccurs(p: seq<Thread>, ops: seq<Op>, i: nat, n: nat)
    requires Arrangement(p, Threads(ops)) && i < |p| && forall k :: 0 <= k < |ops| ==> ops[k].thread < n
    ensures p[i] < n
  {
    var t, ts := p[i], Threads(ops);
    assert p[..|p|] == p && ts[..|ts|] == ts;
    CountGrows(p, 0, |p|, t);
    CountGrows(ts, 0, |ts|, t);
  }

  /** There is another operation of the thread that comes next. */
  lemma NextExists(p: seq<Thread>, ops: seq<Op>, i: nat, from: nat)
    requires Arrangement(p, Threads(ops)) && i < |p| && from <= |ops|
    requires Count(Threads(ops)[..from], p[i]) == Count(p[..i], p[i])
    ensures exists k :: from <= k < |ops| && ops[k].thread == p[i]
  {
    var t, ts := p[i], Threads(ops);
    assert p[..|p|] == p && ts[..|ts|] == ts;
    CountGrows(p, i, |p|, t);
    CountGrows(ts, from, |ts|, t);
  }

  /** The arrangement is used up, and so are the operations of `t`. */
  lemma NoneLeft(p: seq<Thread>, ops: seq<Op>, from: nat, t: Thread)
    requires Arrangement(p, Threads(ops)) && from <= |ops|
    requires Count(Threads(ops)[..from], t) == Count(p, t)
    ensures forall k :: from <= k < |ops| ==> ops[k].thread != t
  {
    var ts := Threads(ops);
    assert ts[..|ts|] == ts;
    CountGrows(ts, from, |ts|, t);
  }

  /** The first operation of `t` from a position on. */
  method NextOf(ops: seq<Op>, t: Thread, from: nat) returns (j: nat)
    requires exists k :: from <= k < |ops| && ops[k].thread == t
    ensures from <= j < |ops| && ops[j].thread == t && forall k :: from <= k < j ==> ops[k].thread != t
  {
    j := from;
    while ops[j].thread != t
      invariant from <= j < |ops|
      invariant forall k :: from <= k < j ==> ops[k].thread != t
      invariant exists k :: j <= k < |ops| && ops[k].thread == t
      decreases |ops| - j
    {
      j := j + 1;
    }
  }

  /** The next operation of each thread in turn. */
  method CurrPerm(p: seq<Thread>, ops: seq<Op>, nextThreadNum: nat) returns (cur: seq<nat>)
    requires forall k :: 0 <= k < |ops| ==> ops[k].thread < nextThreadNum
    requires Arrangement(p, Threads(ops))
    ensures Interleaving(ops, cur) && Shows(ops, cur, p)
  {
    hide Arrangement, Count, Threads, Interleaving, Shows;
    var index := new nat[nextThreadNum + 1](_ => 0);
    cur := [];
    var i := 0;
    CountNothing(p, Threads(ops));
    while i < |p|
      invariant 0 <= i <= |p| && |cur| == i
      invariant forall t: Thread :: t < nextThreadNum ==>
                  index[t] <= |ops| && Count(Threads(ops)[..index[t]], t) == Count(p[..i], t)
      invariant forall a :: 0 <= a < i ==> cur[a] < |ops| && ops[cur[a]].thread == p[a]
      invariant forall k :: 0 <= k < |ops| ==> (k in cur <==> k < index[ops[k].thread])
      invariant forall a, b :: 0 <= a < b < i && p[a] == p[b] ==> cur[a] < cur[b]
    {
      var t := p[i];
      ThreadOccurs(p, ops, i, nextThreadNum);
      NextExists(p, ops, i, index[t]);
      var j := NextOf(ops, t, index[t]);
      forall a | 0 <= a < i && p[a] == t
        ensures cur[a] < j
      {
        assert cur[a] in cur;
      }
      NextCounted(p, ops, i, index[t], j, nextThreadNum);
      cur := cur + [j];
      index[t] := j + 1;
      i := i + 1;
    }
    assert p[..i] == p;
    forall k | 0 <= k < |ops|
      ensures k in cur
    {
      NoneLeft(p, ops, index[ops[k].thread], ops[k].thread);
    }
    SameLength(p, ops);
    IsInterleaving(ops, cur, p);
  }

  lemma IsInterleaving(ops: seq<Op>, cur: seq<nat>, p: seq<Thread>)
    requires |cur| == |p| == |ops| && forall k :: 0 <= k < |ops| ==> k in cur
    requires forall a :: 0 <= a < |cur| ==> cur[a] < |ops| && ops[cur[a]].thread == p[a]
    requires forall a, b :: 0 <= a < b < |cur| && p[a] == p[b] ==> cur[a] < cur[b]
    ensures Interleaving(ops, cur) && Shows(ops, cur, p)
  {
    forall a, b | 0 <= a < b < |cur|
      ensures cur[a] != cur[b] && (ops[cur[a]].thread == ops[cur[b]].thread ==> cur[a] < cur[b])
    {
      assert p[a] == p[b] ==> cur[a] < cur[b];
    }
  }

  lemma SameLength(p: seq<Thread>, ops: seq<Op>)
    requires Arrangement(p, Threads(ops))
    ensures |p| == |ops|
  {
  }

  lemma CountNothing(p: seq<Thread>, ts: seq<Thread>)
    ensures forall t: Thread :: Count(p[..0], t) == Count(ts[..0], t)
  {
  }

  lemma NextCounted(p: seq<Thread>, ops: seq<Op>, i: nat, from: nat, j: nat, n: nat)
    requires i < |p| && from <= j < |ops| && ops[j].thread == p[i]
    requires forall k :: from <= k < j ==> ops[k].thread != p[i]
    requires Count(Threads(ops)[..from], p[i]) == Count(p[..i], p[i])
    ensures Count(Threads(ops)[..j + 1], p[i]) == Count(p[..i + 1], p[i])
    ensures forall t: Thread :: t != p[i] ==> Count(p[..i + 1], t) == Count(p[..i], t)
  {
    var ts := Threads(ops);
    CountGrows(ts, from, j, p[i]);
    CountMore(ts, j, p[i]);
    CountMore(p, i, p[i]);
    forall t: Thread | t != p[i]
      ensures Count(p[..i + 1], t) == Count(p[..i], t)
    {
      CountMore(p, i, t);
    }
  }

  // ----- real time -----

  /** No operation comes before one that had returned before it was called. */
  ghost predicate RealTime(ops: seq<Op>, pi: seq<nat>)
    requires forall i :: 0 <= i < |pi| ==> pi[i] < |ops|
  {
    forall i, j :: 0 <= i < j < |pi| ==> !(ops[pi[j]].ret < ops[pi[i]].call)
  }

  method IsRealTimeOrderPreserved(ops: seq<Op>, cur: seq<nat>) returns (flag: bool)
    requires Timed(ops) && forall i :: 0 <= i < |cur| ==> cur[i] < |ops|
    ensures flag <==> RealTime(ops, cur)
  {
    flag := true;
    var i := 0;
    while i < |cur|
      invariant 0 <= i <= |cur|
      invariant flag <==> forall k, l :: 0 <= k < i && k < l < |cur| ==> !(ops[cur[l]].ret < ops[cur[k]].call)
    {
      var j := i + 1;
      var good := true;
      while j < |cur| && good
        invariant i < j <= |cur|
        invariant good <==> forall l :: i < l < j ==> !(ops[cur[l]].ret < ops[cur[i]].call)
      {
        var x, y := ops[cur[i]], ops[cur[j]];
        if !((x.call > y.call && x.call < y.ret) || (y.call > x.call && y.call < x.ret)) && x.call > y.call {
          good := false;
        }
        j := j + 1;
      }
      if !good {
        flag := false;
      }
      i := i + 1;
    }
  }

  // ----- the check -----

  function Ordered(ops: seq<Op>, pi: seq<nat>): seq<Op>
    requires forall i :: 0 <= i < |pi| ==> pi[i] < |ops|
  {
    seq(|pi|, i requires 0 <= i < |pi| => ops[pi[i]])
  }

  datatype Property = NoProperty | SequentialConsistency | Linearizability

  /** The order explains the operations: it keeps what the property wants kept, and the specification accepts it. */
  ghost predicate Explains(ops: seq<Op>, pi: seq<nat>, property: Property, accepts: seq<Op> -> bool) {
    && Interleaving(ops, pi) && (property.Linearizability? ==> RealTime(ops, pi))
    && accepts(Ordered(ops, pi))
  }

  // ----- the histories that are accepted -----

  /** The same operations, each once. */
  ghost predicate Reordered(ops: seq<Op>, h: seq<Op>) {
    && |h| == |ops| && (forall k :: 0 <= k < |ops| ==> ops[k] in h) && (forall i :: 0 <= i < |h| ==> h[i] in ops)
    && (forall i, j :: 0 <= i < j < |h| ==> h[i] != h[j])
  }

  /** Every thread's operations in their order. */
  ghost predicate KeepsThreads(h: seq<Op>) {
    forall i, j :: 0 <= i < j < |h| && h[i].thread == h[j].thread ==> h[i].ret < h[j].ret
  }

  /** No operation in front of one that had returned before it was called. */
  ghost predicate KeepsTime(h: seq<Op>) {
    forall i, j :: 0 <= i < j < |h| ==> !(h[j].ret < h[i].call)
  }

  /** The operations could have been executed one by one in this order. */
  ghost predicate Witness(ops: seq<Op>, h: seq<Op>, property: Property, accepts: seq<Op> -> bool) {
    Reordered(ops, h) && KeepsThreads(h) && (property.Linearizability? ==> KeepsTime(h)) && accepts(h)
  }

  ghost predicate ByReturn(ops: seq<Op>) {
    forall k, l :: 0 <= k < l < |ops| ==> ops[k].ret < ops[l].ret
  }

  ghost function PositionOf(ops: seq<Op>, o: Op): (k: nat)
    requires o in ops
    ensures k < |ops| && ops[k] == o
  {
    var k :| 0 <= k < |ops| && ops[k] == o;
    k
  }

  lemma OrderedReorders(ops: seq<Op>, pi: seq<nat>)
    requires ByReturn(ops) && Interleaving(ops, pi)
    ensures Reordered(ops, Ordered(ops, pi))
  {
    var h := Ordered(ops, pi);
    forall k | 0 <= k < |ops|
      ensures ops[k] in h
    {
      assert k in pi;
      var i :| 0 <= i < |pi| && pi[i] == k;
      assert h[i] == ops[k];
    }
    forall i, j | 0 <= i < j < |h|
      ensures h[i] != h[j]
    {
      assert pi[i] != pi[j] && ops[pi[i]].ret != ops[pi[j]].ret;
    }
  }

  lemma OrderedKeepsThreads(ops: seq<Op>, pi: seq<nat>)
    requires ByReturn(ops) && Interleaving(ops, pi)
    ensures KeepsThreads(Ordered(ops, pi))
  {
    var h := Ordered(ops, pi);
    forall i, j | 0 <= i < j < |h| && h[i].thread == h[j].thread
      ensures h[i].ret < h[j].ret
    {
      assert pi[i] < pi[j];
    }
  }

  lemma WitnessOf(ops: seq<Op>, pi: seq<nat>, property: Property, accepts: seq<Op> -> bool)
    requires ByReturn(ops) && Explains(ops, pi, property, accepts)
    ensures Witness(ops, Ordered(ops, pi), property, accepts)
  {
    hide Interleaving, Reordered, KeepsThreads, ByReturn;
    OrderedReorders(ops, pi);
    OrderedKeepsThreads(ops, pi);
    InterleavingInRange(ops, pi);
  }

  /** The order of operations that a history of them shows. */
  ghost predicate Positions(ops: seq<Op>, h: seq<Op>, pi: seq<nat>) {
    |pi| == |h| && forall i :: 0 <= i < |pi| ==> pi[i] < |ops| && ops[pi[i]] == h[i]
  }

  lemma PositionsCover(ops: seq<Op>, h: seq<Op>, pi: seq<nat>, k: nat)
    requires ByReturn(ops) && Reordered(ops, h) && Positions(ops, h, pi) && k < |ops|
    ensures k in pi
  {
    assert ops[k] in h;
    var i :| 0 <= i < |h| && h[i] == ops[k];
    assert ops[pi[i]].ret == ops[k].ret;
    assert pi[i] == k;
  }

  lemma PositionsApart(ops: seq<Op>, h: seq<Op>, pi: seq<nat>, i: nat, j: nat)
    requires ByReturn(ops) && Reordered(ops, h) && KeepsThreads(h) && Positions(ops, h, pi) && i < j < |pi|
    ensures pi[i] != pi[j] && (ops[pi[i]].thread == ops[pi[j]].thread ==> pi[i] < pi[j])
  {
    assert h[i] != h[j];
    if h[i].thread == h[j].thread {
      assert ops[pi[i]].ret < ops[pi[j]].ret;
    }
  }

  lemma PositionsInterleave(ops: seq<Op>, h: seq<Op>, pi: seq<nat>)
    requires ByReturn(ops) && Reordered(ops, h) && KeepsThreads(h) && Positions(ops, h, pi)
    ensures Interleaving(ops, pi)
  {
    hide ByReturn, KeepsThreads;
    forall k: nat | k < |ops|
      ensures k in pi
    {
      PositionsCover(ops, h, pi, k);
    }
    forall i, j | 0 <= i < j < |pi|
      ensures pi[i] != pi[j] && (ops[pi[i]].thread == ops[pi[j]].thread ==> pi[i] < pi[j])
    {
      PositionsApart(ops, h, pi, i, j);
    }
  }

  lemma ExplainedBy(ops: seq<Op>, h: seq<Op>, property: Property, accepts: seq<Op> -> bool) returns (pi: seq<nat>)
    requires ByReturn(ops) && Witness(ops, h, property, accepts)
    ensures Explains(ops, pi, property, accepts)
  {
    pi := seq(|h|, i requires 0 <= i < |h| => PositionOf(ops, h[i]));
    assert Positions(ops, h, pi);
    PositionsInterleave(ops, h, pi);
    hide Interleaving, Reordered, KeepsThreads, ByReturn, PositionOf;
    assert Ordered(ops, pi) == h;
  }

  /** An order of operations explains a history exactly if the history has a witness. */
  lemma ExplainedExactly(ops: seq<Op>, property: Property, accepts: seq<Op> -> bool)
    requires ByReturn(ops)
    ensures (exists pi :: Explains(ops, pi, property, accepts)) <==> exists h :: Witness(ops, h, property, accepts)
  {
    if pi :| Explains(ops, pi, property, accepts) {
      WitnessOf(ops, pi, property, accepts);
    }
    if h: seq<Op> :| Witness(ops, h, property, accepts) {
      var pi := ExplainedBy(ops, h, property, accepts);
    }
  }

  /** Each operation returns before the next is called. */
  ghost predicate OneByOne(ops: seq<Op>) {
    && (forall k :: 0 <= k < |ops| ==> ops[k].call < ops[k].ret)
    && (forall k, l :: 0 <= k < l < |ops| ==> ops[k].ret < ops[l].call)
  }

  lemma {:induction false} SortedAtLeast(ops: seq<Op>, h: seq<Op>, i: nat)
    requires ByReturn(ops) && ByReturn(h) && Reordered(ops, h) && i < |h|
    ensures PositionOf(ops, h[i]) >= i
    decreases i
  {
    if i > 0 {
      SortedAtLeast(ops, h, i - 1);
      assert h[i - 1].ret < h[i].ret;
    }
  }

  lemma {:induction false} SortedAtMost(ops: seq<Op>, h: seq<Op>, i: nat)
    requires ByReturn(ops) && ByReturn(h) && Reordered(ops, h) && i < |h|
    ensures PositionOf(ops, h[i]) <= i
    decreases |h| - i
  {
    if i + 1 < |h| {
      SortedAtMost(ops, h, i + 1);
      assert h[i].ret < h[i + 1].ret;
    }
  }

  lemma SortedIsSame(ops: seq<Op>, h: seq<Op>)
    requires ByReturn(ops) && ByReturn(h) && Reordered(ops, h)
    ensures h == ops
  {
    forall i | 0 <= i < |h|
      ensures h[i] == ops[i]
    {
      SortedAtLeast(ops, h, i);
      SortedAtMost(ops, h, i);
    }
  }

  /** Of operations of one thread, or that do not overlap, only the order of the trace can be a witness. */
  lemma OneOrder(ops: seq<Op>, property: Property, accepts: seq<Op> -> bool)
    requires ByReturn(ops)
    requires (forall k, l :: 0 <= k < |ops| && 0 <= l < |ops| ==> ops[k].thread == ops[l].thread)
          || (property.Linearizability? && OneByOne(ops))
    requires forall k :: 0 <= k < |ops| ==> ops[k].call < ops[k].ret
    ensures (exists h :: Witness(ops, h, property, accepts)) <==> accepts(ops)
  {
    if h: seq<Op> :| Witness(ops, h, property, accepts) {
      forall i, j | 0 <= i < j < |h|
        ensures h[i].ret < h[j].ret
      {
        var a, b := PositionOf(ops, h[i]), PositionOf(ops, h[j]);
        assert h[i] != h[j];
        assert h[i] == ops[a] && h[j] == ops[b];
      }
      SortedIsSame(ops, h);
    }
    if accepts(ops) {
      assert Witness(ops, ops, property, accepts);
    }
  }

  lemma OpsAreByReturn(trace: seq<TraceElem>, ops: seq<Op>)
    requires OpsOf(trace, |trace|, ops)
    ensures ByReturn(ops) && forall k :: 0 <= k < |ops| ==> ops[k].call < ops[k].ret
  {
  }

  /** What the check must find, in terms of the operations that the trace shows. */
  ghost predicate Decides(trace: seq<TraceElem>, ops: seq<Op>, property: Property, accepts: seq<Op> -> bool,
      status: int) {
    && OpsOf(trace, |trace|, ops)
    && (status == 0 <==> exists h :: Witness(ops, h, property, accepts))
    && (property.Linearizability? && OneByOne(ops) ==> (status == 0 <==> accepts(ops)))
    && ((forall k, l :: 0 <= k < |ops| && 0 <= l < |ops| ==> ops[k].thread == ops[l].thread) ==>
          (status == 0 <==> accepts(ops)))
  }

  lemma Decided(trace: seq<TraceElem>, property: Property, accepts: seq<Op> -> bool, status: int)
    requires WellFormed(trace)
    requires status == 0 <==> exists pi :: Explains(Ops(trace, |trace|), pi, property, accepts)
    ensures Decides(trace, Ops(trace, |trace|), property, accepts, status)
  {
    hide Witness, Explains, OpsOf, OneByOne, ByReturn, Ops;
    var ops := Ops(trace, |trace|);
    OpsAreOfTrace(trace, |trace|);
    OpsAreByReturn(trace, ops);
    ExplainedExactly(ops, property, accepts);
    if property.Linearizability? && OneByOne(ops) {
      OneOrder(ops, property, accepts);
    }
    if forall k, l :: 0 <= k < |ops| && 0 <= l < |ops| ==> ops[k].thread == ops[l].thread {
      OneOrder(ops, property, accepts);
    }
  }

  /**
    The check succeeds if and only if some order explains the history. The arrangements are those that
    std::next_permutation goes through, from the sorted one on: all there are.
  */
  method CheckHistory(trace: seq<TraceElem>, nextThreadNum: nat, property: Property, accepts: seq<Op> -> bool,
                      arrangements: seq<seq<Thread>>)
    returns (status: int)
    requires WellFormed(trace) && forall i :: 0 <= i < |trace| ==> trace[i].thread < nextThreadNum
    requires forall p: seq<Thread> :: p in arrangements <==> Arrangement(p, Threads(Ops(trace, |trace|)))
    ensures property.NoProperty? ==> status == 1
    ensures !property.NoProperty? ==> status == 0 || status == 253
    ensures !property.NoProperty? ==>
              (status == 0 <==> exists pi :: Explains(Ops(trace, |trace|), pi, property, accepts))
    ensures !property.NoProperty? ==> Decides(trace, Ops(trace, |trace|), property, accepts, status)
  {
    if property.NoProperty? {
      return 1;
    }
    var ops := GenInit(trace);
    OpsAreTimed(trace, |trace|);
    OpsThreads(trace, |trace|, nextThreadNum);
    hide Interleaving, Shows, RealTime, Timed, Arrangement, Decides;
    var n := 0;
    while n < |arrangements|
      invariant 0 <= n <= |arrangements|
      invariant forall k, pi :: 0 <= k < n && Shows(ops, pi, arrangements[k]) ==> !Explains(ops, pi, property, accepts)
    {
      var p := arrangements[n];
      assert p in arrangements;
      var cur := CurrPerm(p, ops, nextThreadNum);
      InterleavingInRange(ops, cur);
      var preserved := true;
      if property.Linearizability? {
        preserved := IsRealTimeOrderPreserved(ops, cur);
      }
      if preserved && accepts(Ordered(ops, cur)) {
        assert Explains(ops, cur, property, accepts);
        Decided(trace, property, accepts, 0);
        return 0;
      }
      forall pi | Shows(ops, pi, p)
        ensures !Explains(ops, pi, property, accepts)
      {
        OnlyCurrent(ops, pi, cur, p);
      }
      n := n + 1;
    }
    forall pi
      ensures !Explains(ops, pi, property, accepts)
    {
      if Interleaving(ops, pi) {
        var p := ShownBy(ops, pi);
        ShowsArrangement(ops, pi, p);
        var k :| 0 <= k < |arrangements| && arrangements[k] == p;
      }
    }
    Decided(trace, property, accepts, 253);
    return 253;
  }

  lemma {:induction false} OpsThreads(trace: seq<TraceElem>, i: nat, n: nat)
    requires i <= |trace| && WellFormed(trace) && forall k :: 0 <= k < |trace| ==> trace[k].thread < n
    ensures forall k :: 0 <= k < |Ops(trace, i)| ==> Ops(trace, i)[k].thread < n
    decreases i
  {
    if i > 0 {
      OpsThreads(trace, i - 1, n);
    }
  }

  lemma InterleavingInRange(ops: seq<Op>, pi: seq<nat>)
    requires Interleaving(ops, pi)
    ensures forall i :: 0 <= i < |pi| ==> pi[i] < |ops|
  {
  }

  lemma OnlyCurrent(ops: seq<Op>, pi: seq<nat>, cur: seq<nat>, p: seq<Thread>)
    requires Interleaving(ops, cur) && Shows(ops, cur, p) && Shows(ops, pi, p)
    ensures Interleaving(ops, pi) ==> pi == cur
  {
    if Interleaving(ops, pi) {
      OneInterleaving(ops, pi, cur, p, |pi|);
      assert pi[..|pi|] == pi && cur[..|pi|] == cur;
    }
  }

  lemma ShownBy(ops: seq<Op>, pi: seq<nat>) returns (p: seq<Thread>)
    requires Interleaving(ops, pi)
    ensures Shows(ops, pi, p)
  {
    p := seq(|pi|, i requires 0 <= i < |pi| => ops[pi[i]].thread);
  }
}
