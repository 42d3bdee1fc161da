/**
  The evaluator of alias analyses: it asks about every pair of pointers of a function, and about every
  call and pointer, and counts the answers in 32-bit counters that it sums up as percentages.
*/
module AliasEvaluator {
  import opened Common
  import opened AliasAnalysis

  const U32: nat := 0x1_0000_0000

  /** An operand: its value, and whether it counts as a pointer (null constants do not). */
  datatype Operand = Operand(value: Value, isPointer: bool, isNull: bool)

  /** An instruction; a call names its call site and whether its first operand is the function itself. */
  datatype Inst = Inst(value: Value, isPointer: bool, operands: seq<Operand>, call: Option<CallSite>, direct: bool)

  datatype Func = Func(args: seq<Operand>, body: seq<Inst>)

  /** SetVector::insert */
  function Insert<T(==,!new)>(s: seq<T>, x: T): (r: seq<T>)
    ensures s <= r && (Distinct(s) ==> Distinct(r))
    ensures forall y :: y in r <==> y in s || y == x
  {
    if x in s then s else s + [x]
  }

  ghost predicate Distinct<T>(s: seq<T>) {
    forall i, j :: 0 <= i < j < |s| ==> s[i] != s[j]
  }

  // ----- counting -----

  /** The queries about the pointer at `i`: all pointers before it, `j` of them. */
  function RowAnswers(query: (Value, Value) -> AliasResult, ptrs: seq<Value>, i: nat, j: nat): seq<AliasResult>
    requires i < |ptrs| && j <= i
  {
    if j == 0 then [] else RowAnswers(query, ptrs, i, j - 1) + [query(ptrs[i], ptrs[j - 1])]
  }

  /** All pairwise queries of the first `i` pointers. */
  function PairAnswers(query: (Value, Value) -> AliasResult, ptrs: seq<Value>, i: nat): seq<AliasResult>
    requires i <= |ptrs|
  {
    if i == 0 then [] else PairAnswers(query, ptrs, i - 1) + RowAnswers(query, ptrs, i - 1, i - 1)
  }

  function CallRow(query: (CallSite, Value) -> ModRefResult, cs: CallSite, ptrs: seq<Value>, j: nat): seq<ModRefResult>
    requires j <= |ptrs|
  {
    if j == 0 then [] else CallRow(query, cs, ptrs, j - 1) + [query(cs, ptrs[j - 1])]
  }

  function CallAnswers(query: (CallSite, Value) -> ModRefResult, calls: seq<CallSite>, ptrs: seq<Value>,
      i: nat): seq<ModRefResult>
    requires i <= |calls|
  {
    if i == 0 then [] else CallAnswers(query, calls, ptrs, i - 1) + CallRow(query, calls[i - 1], ptrs, |ptrs|)
  }

  lemma CountLast<T>(a: seq<T>, x: T, r: T)
    ensures Count(a + [x], r) == Count(a, r) + (if x == r then 1 else 0)
  {
    assert (a + [x])[..|a|] == a;
  }

  lemma {:induction false} AliasTotal(answers: seq<AliasResult>)
    ensures Count(answers, NoAlias) + Count(answers, MayAlias) + Count(answers, MustAlias) == |answers|
    decreases |answers|
  {
    if answers != [] {
      var last := answers[|answers| - 1];
      AliasTotal(answers[..|answers| - 1]);
      assert last == NoAlias || last == MayAlias || last == MustAlias;
    }
  }

  lemma OneOfFour(r: ModRefResult)
    ensures r == NO_MOD_REF || r == REF || r == MOD || r == MOD_REF
  {
  }

  lemma {:induction false} ModRefTotal(answers: seq<ModRefResult>)
    ensures Count(answers, NO_MOD_REF) + Count(answers, REF) + Count(answers, MOD) + Count(answers, MOD_REF) ==
      |answers|
    decreases |answers|
  {
    if answers != [] {
      ModRefTotal(answers[..|answers| - 1]);
      OneOfFour(answers[|answers| - 1]);
    }
  }

  lemma {:induction false} RowLength(query: (Value, Value) -> AliasResult, ptrs: seq<Value>, i: nat, j: nat)
    requires i < |ptrs| && j <= i
    ensures |RowAnswers(query, ptrs, i, j)| == j
    decreases j
  {
    if j > 0 {
      RowLength(query, ptrs, i, j - 1);
    }
  }

  /** p pointers make p(p-1)/2 pairs. */
  lemma {:induction false} PairsLength(query: (Value, Value) -> AliasResult, ptrs: seq<Value>, i: nat)
    requires i <= |ptrs|
    ensures |PairAnswers(query, ptrs, i)| == i * (i - 1) / 2
    decreases i
  {
    if i > 0 {
      PairsLength(query, ptrs, i - 1);
      RowLength(query, ptrs, i - 1, i - 1);
      Triangle(i - 1);
    }
  }

  lemma Triangle(n: nat)
    ensures n * (n - 1) / 2 + n == (n + 1) * n / 2
  {
    assert (n + 1) * n == n * (n - 1) + 2 * n;
  }

  lemma {:induction false} CallRowLength(query: (CallSite, Value) -> ModRefResult, cs: CallSite, ptrs: seq<Value>,
      j: nat)
    requires j <= |ptrs|
    ensures |CallRow(query, cs, ptrs, j)| == j
    decreases j
  {
    if j > 0 {
      CallRowLength(query, cs, ptrs, j - 1);
    }
  }

  lemma {:induction false} CallsLength(query: (CallSite, Value) -> ModRefResult, calls: seq<CallSite>,
      ptrs: seq<Value>, i: nat)
    requires i <= |calls|
    ensures |CallAnswers(query, calls, ptrs, i)| == i * |ptrs|
    decreases i
  {
    if i > 0 {
      CallsLength(query, calls, ptrs, i - 1);
      CallRowLength(query, calls[i - 1], ptrs, |ptrs|);
      assert (i - 1) * |ptrs| + |ptrs| == i * |ptrs|;
    }
  }

  // ----- which queries -----

  lemma NothingCounted<T>(r: T)
    ensures Count([], r) == 0
  {
  }

  lemma OneMore<T(!new)>(x: set<T>, y: set<T>, e: T, added: bool)
    requires e !in x && forall p :: p in y <==> p in x || (added && p == e)
    ensures |y| == |x| + (if added then 1 else 0)
  {
    assert y == if added then x + {e} else x;
  }

  /** The pointers at `a` and `b` have been asked about, with answer `r`, when the one at `i` comes to the one
   * at `j`. */
  ghost predicate Asked(query: (Value, Value) -> AliasResult, ptrs: seq<Value>, i: nat, j: nat, r: AliasResult, a: int,
      b: int) {
    0 <= b < a < |ptrs| && (a < i || (a == i && b < j)) && query(ptrs[a], ptrs[b]) == r
  }

  ghost function AskedPairs(query: (Value, Value) -> AliasResult, ptrs: seq<Value>, i: nat, j: nat,
      r: AliasResult): set<(int, int)> {
    set a, b | 0 <= a < |ptrs| && 0 <= b < |ptrs| && Asked(query, ptrs, i, j, r, a, b) :: (a, b)
  }

  lemma AskedInRange(query: (Value, Value) -> AliasResult, ptrs: seq<Value>, i: nat, j: nat, r: AliasResult, a: int,
      b: int)
    ensures Asked(query, ptrs, i, j, r, a, b) ==> 0 <= a < |ptrs| && 0 <= b < |ptrs|
    ensures j < i < |ptrs| ==>
              (Asked(query, ptrs, i, j + 1, r, a, b) <==>
               Asked(query, ptrs, i, j, r, a, b) || (a == i && b == j && query(ptrs[i], ptrs[j]) == r))
    ensures Asked(query, ptrs, i, i, r, a, b) <==> Asked(query, ptrs, i + 1, 0, r, a, b)
    ensures !Asked(query, ptrs, i, j, r, i, j) && !Asked(query, ptrs, 0, 0, r, a, b)
  {
  }

  lemma AskedOne(query: (Value, Value) -> AliasResult, ptrs: seq<Value>, i: nat, j: nat, r: AliasResult)
    requires j < i < |ptrs|
    ensures |AskedPairs(query, ptrs, i, j + 1, r)| ==
            |AskedPairs(query, ptrs, i, j, r)| + (if query(ptrs[i], ptrs[j]) == r then 1 else 0)
  {
    hide Asked;
    var x, y := AskedPairs(query, ptrs, i, j, r), AskedPairs(query, ptrs, i, j + 1, r);
    var same := query(ptrs[i], ptrs[j]) == r;
    forall p: (int, int)
      ensures p in y <==> p in x || (same && p == (i, j))
    {
      AskedInRange(query, ptrs, i, j, r, p.0, p.1);
      AskedInRange(query, ptrs, i, j + 1, r, p.0, p.1);
    }
    AskedInRange(query, ptrs, i, j, r, i, j);
    OneMore(x, y, (i, j), same);
  }

  lemma AskedRow(query: (Value, Value) -> AliasResult, ptrs: seq<Value>, i: nat, r: AliasResult)
    ensures AskedPairs(query, ptrs, i, i, r) == AskedPairs(query, ptrs, i + 1, 0, r)
  {
    hide Asked;
    var x, y := AskedPairs(query, ptrs, i, i, r), AskedPairs(query, ptrs, i + 1, 0, r);
    forall p: (int, int)
      ensures p in x <==> p in y
    {
      AskedInRange(query, ptrs, i, i, r, p.0, p.1);
    }
  }

  lemma NothingAsked(query: (Value, Value) -> AliasResult, ptrs: seq<Value>, r: AliasResult)
    ensures AskedPairs(query, ptrs, 0, 0, r) == {}
  {
    hide Asked;
    var x := AskedPairs(query, ptrs, 0, 0, r);
    forall p: (int, int)
      ensures p !in x
    {
      AskedInRange(query, ptrs, 0, 0, r, p.0, p.1);
    }
  }

  lemma {:induction false} RowCounts(query: (Value, Value) -> AliasResult, ptrs: seq<Value>, i: nat, j: nat,
      r: AliasResult)
    requires i < |ptrs| && j <= i
    ensures Count(PairAnswers(query, ptrs, i) + RowAnswers(query, ptrs, i, j), r) == |AskedPairs(query, ptrs, i, j, r)|
    decreases i, 1, j
  {
    hide AskedPairs, Count;
    var before := PairAnswers(query, ptrs, i);
    if j == 0 {
      assert before + RowAnswers(query, ptrs, i, 0) == before;
      PairsCount(query, ptrs, i, r);
    } else {
      RowCounts(query, ptrs, i, j - 1, r);
      var row, last := RowAnswers(query, ptrs, i, j - 1), query(ptrs[i], ptrs[j - 1]);
      assert before + RowAnswers(query, ptrs, i, j) == (before + row) + [last];
      CountLast(before + row, last, r);
      AskedOne(query, ptrs, i, j - 1, r);
    }
  }

  lemma {:induction false} PairsCount(query: (Value, Value) -> AliasResult, ptrs: seq<Value>, i: nat, r: AliasResult)
    requires i <= |ptrs|
    ensures Count(PairAnswers(query, ptrs, i), r) == |AskedPairs(query, ptrs, i, 0, r)|
    decreases i, 0, 0
  {
    if i == 0 {
      NothingAsked(query, ptrs, r);
    } else {
      hide AskedPairs, Count;
      RowCounts(query, ptrs, i - 1, i - 1, r);
      AskedRow(query, ptrs, i - 1, r);
    }
  }

  /** The same for the calls: call `c` has come to the pointer at `v`. */
  ghost predicate AskedOf(query: (CallSite, Value) -> ModRefResult, calls: seq<CallSite>, ptrs: seq<Value>, c: nat,
      v: nat, r: ModRefResult, a: int, b: int) {
    0 <= a < |calls| && 0 <= b < |ptrs| && (a < c || (a == c && b < v)) && query(calls[a], ptrs[b]) == r
  }

  ghost function AskedCalls(query: (CallSite, Value) -> ModRefResult, calls: seq<CallSite>, ptrs: seq<Value>, c: nat,
      v: nat, r: ModRefResult): set<(int, int)> {
    set a, b | 0 <= a < |calls| && 0 <= b < |ptrs| && AskedOf(query, calls, ptrs, c, v, r, a, b) :: (a, b)
  }

  lemma AskedOfInRange(query: (CallSite, Value) -> ModRefResult, calls: seq<CallSite>, ptrs: seq<Value>, c: nat, v: nat,
                       r: ModRefResult, a: int, b: int)
    ensures AskedOf(query, calls, ptrs, c, v, r, a, b) ==> 0 <= a < |calls| && 0 <= b < |ptrs|
    ensures c < |calls| && v < |ptrs| ==>
              (AskedOf(query, calls, ptrs, c, v + 1, r, a, b) <==>
               AskedOf(query, calls, ptrs, c, v, r, a, b) || (a == c && b == v && query(calls[c], ptrs[v]) == r))
    ensures AskedOf(query, calls, ptrs, c, |ptrs|, r, a, b) <==> AskedOf(query, calls, ptrs, c + 1, 0, r, a, b)
    ensures !AskedOf(query, calls, ptrs, c, v, r, c, v) && !AskedOf(query, calls, ptrs, 0, 0, r, a, b)
  {
  }

  lemma AskedCall(query: (CallSite, Value) -> ModRefResult, calls: seq<CallSite>, ptrs: seq<Value>, c: nat, v: nat,
      r: ModRefResult)
    requires c < |calls| && v < |ptrs|
    ensures |AskedCalls(query, calls, ptrs, c, v + 1, r)| ==
            |AskedCalls(query, calls, ptrs, c, v, r)| + (if query(calls[c], ptrs[v]) == r then 1 else 0)
  {
    hide AskedOf;
    var x, y := AskedCalls(query, calls, ptrs, c, v, r), AskedCalls(query, calls, ptrs, c, v + 1, r);
    var same := query(calls[c], ptrs[v]) == r;
    forall p: (int, int)
      ensures p in y <==> p in x || (same && p == (c, v))
    {
      AskedOfInRange(query, calls, ptrs, c, v, r, p.0, p.1);
      AskedOfInRange(query, calls, ptrs, c, v + 1, r, p.0, p.1);
    }
    AskedOfInRange(query, calls, ptrs, c, v, r, c, v);
    OneMore(x, y, (c, v), same);
  }

  lemma AskedCallRow(query: (CallSite, Value) -> ModRefResult, calls: seq<CallSite>, ptrs: seq<Value>, c: nat,
      r: ModRefResult)
    ensures AskedCalls(query, calls, ptrs, c, |ptrs|, r) == AskedCalls(query, calls, ptrs, c + 1, 0, r)
    ensures AskedCalls(query, calls, ptrs, 0, 0, r) == {}
  {
    hide AskedOf;
    var x, y := AskedCalls(query, calls, ptrs, c, |ptrs|, r), AskedCalls(query, calls, ptrs, c + 1, 0, r);
    var none := AskedCalls(query, calls, ptrs, 0, 0, r);
    forall p: (int, int)
      ensures (p in x <==> p in y) && p !in none
    {
      AskedOfInRange(query, calls, ptrs, c, 0, r, p.0, p.1);
    }
  }

  lemma {:induction false} CallRowCounts(query: (CallSite, Value) -> ModRefResult, calls: seq<CallSite>,
      ptrs: seq<Value>, c: nat, v: nat, r: ModRefResult)
    requires c < |calls| && v <= |ptrs|
    ensures Count(CallAnswers(query, calls, ptrs, c) + CallRow(query, calls[c], ptrs, v), r)
         == |AskedCalls(query, calls, ptrs, c, v, r)|
    decreases c, 1, v
  {
    hide AskedCalls, Count;
    var before := CallAnswers(query, calls, ptrs, c);
    if v == 0 {
      assert before + CallRow(query, calls[c], ptrs, 0) == before;
      CallsCount(query, calls, ptrs, c, r);
    } else {
      CallRowCounts(query, calls, ptrs, c, v - 1, r);
      var row, last := CallRow(query, calls[c], ptrs, v - 1), query(calls[c], ptrs[v - 1]);
      assert before + CallRow(query, calls[c], ptrs, v) == (before + row) + [last];
      CountLast(before + row, last, r);
      AskedCall(query, calls, ptrs, c, v - 1, r);
    }
  }

  lemma {:induction false} CallsCount(query: (CallSite, Value) -> ModRefResult, calls: seq<CallSite>, ptrs: seq<Value>,
                                      c: nat, r: ModRefResult)
    requires c <= |calls|
    ensures Count(CallAnswers(query, calls, ptrs, c), r) == |AskedCalls(query, calls, ptrs, c, 0, r)|
    decreases c, 0, 0
  {
    hide AskedCalls, Count;
    if c == 0 {
      AskedCallRow(query, calls, ptrs, 0, r);
      NothingCounted(r);
    } else {
      CallRowCounts(query, calls, ptrs, c - 1, |ptrs|, r);
      AskedCallRow(query, calls, ptrs, c - 1, r);
    }
  }

  // ----- which pointers and calls -----

  function AddOperands(ptrs: seq<Value>, ops: seq<Operand>): seq<Value> {
    if ops == [] then ptrs
    else
      var before := AddOperands(ptrs, ops[..|ops| - 1]);
      var o := ops[|ops| - 1];
      if o.isPointer && !o.isNull then Insert(before, o.value) else before
  }

  /** The operands of an instruction that are looked at: not the function of a direct call. */
  function Operands(i: Inst): seq<Operand> {
    if i.call.Some? && i.direct && i.operands != [] then i.operands[1..] else i.operands
  }

  function Pointers(f: Func, n: nat): seq<Value>
    requires n <= |f.body|
  {
    if n == 0 then ArgPointers(f.args)
    else
      var i := f.body[n - 1];
      var before := Pointers(f, n - 1);
      AddOperands(if i.isPointer then Insert(before, i.value) else before, Operands(i))
  }

  function ArgPointers(args: seq<Operand>): seq<Value> {
    if args == [] then []
    else
      var before := ArgPointers(args[..|args| - 1]);
      if args[|args| - 1].isPointer then Insert(before, args[|args| - 1].value) else before
  }

  function Calls(f: Func, n: nat): seq<CallSite>
    requires n <= |f.body|
  {
    if n == 0 then []
    else if f.body[n - 1].call.Some? then Insert(Calls(f, n - 1), f.body[n - 1].call.value)
    else Calls(f, n - 1)
  }

  /** Collects the pointers and calls of a function, each once, in order of appearance. */
  method Collect(f: Func) returns (ptrs: seq<Value>, calls: seq<CallSite>)
    ensures ptrs == Pointers(f, |f.body|) && calls == Calls(f, |f.body|)
  {
    hide Insert, Operands, AddOperands;
    ptrs := CollectArguments(f.args);
    calls := [];
    var n := 0;
    while n < |f.body|
      invariant 0 <= n <= |f.body|
      invariant ptrs == Pointers(f, n) && calls == Calls(f, n)
    {
      var i := f.body[n];
      if i.isPointer {
        ptrs := Insert(ptrs, i.value);
      }
      ptrs := CollectOperands(ptrs, Operands(i));
      if i.call.Some? {
        calls := Insert(calls, i.call.value);
      }
      n := n + 1;
    }
  }

  method CollectArguments(args: seq<Operand>) returns (ptrs: seq<Value>)
    ensures ptrs == ArgPointers(args)
  {
    hide Insert;
    ptrs := [];
    var a := 0;
    while a < |args|
      invariant 0 <= a <= |args| && ptrs == ArgPointers(args[..a])
    {
      assert args[..a + 1][..a] == args[..a];
      if args[a].isPointer {
        ptrs := Insert(ptrs, args[a].value);
      }
      a := a + 1;
    }
    assert args[..a] == args;
  }

  method CollectOperands(ptrs: seq<Value>, ops: seq<Operand>) returns (r: seq<Value>)
    ensures r == AddOperands(ptrs, ops)
  {
    hide Insert;
    r := ptrs;
    var o := 0;
    while o < |ops|
      invariant 0 <= o <= |ops| && r == AddOperands(ptrs, ops[..o])
    {
      assert ops[..o + 1][..o] == ops[..o];
      if ops[o].isPointer && !ops[o].isNull {
        r := Insert(r, ops[o].value);
      }
      o := o + 1;
    }
    assert ops[..o] == ops;
  }

  /** A function of the module, and the answers of the analysis while the pass is at it. */
  datatype Job = Job(f: Func, alias: (Value, Value) -> AliasResult, callInfo: (CallSite, Value) -> ModRefResult)

  function JobAliases(job: Job): seq<AliasResult> {
    var ptrs := Pointers(job.f, |job.f.body|);
    PairAnswers(job.alias, ptrs, |ptrs|)
  }

  function JobModRefs(job: Job): seq<ModRefResult> {
    var ptrs, calls := Pointers(job.f, |job.f.body|), Calls(job.f, |job.f.body|);
    CallAnswers(job.callInfo, calls, ptrs, |calls|)
  }

  function AllAliases(jobs: seq<Job>): seq<AliasResult> {
    if jobs == [] then [] else AllAliases(jobs[..|jobs| - 1]) + JobAliases(jobs[|jobs| - 1])
  }

  function AllModRefs(jobs: seq<Job>): seq<ModRefResult> {
    if jobs == [] then [] else AllModRefs(jobs[..|jobs| - 1]) + JobModRefs(jobs[|jobs| - 1])
  }

  function PairCount(p: nat): (n: nat)
    ensures n == p * (p - 1) / 2
  {
    if p == 0 then 0
    else
      var q: nat := p - 1;
      p * q / 2
  }

  /** p(p-1)/2, for the p pointers of every function. */
  function PairTotal(jobs: seq<Job>): nat {
    if jobs == [] then 0
    else
      var f := jobs[|jobs| - 1].f;
      var p := |Pointers(f, |f.body|)|;
      PairTotal(jobs[..|jobs| - 1]) + PairCount(p)
  }

  /** c * p, for the c calls and p pointers of every function. */
  function CallTotal(jobs: seq<Job>): nat {
    if jobs == [] then 0
    else
      var f := jobs[|jobs| - 1].f;
      CallTotal(jobs[..|jobs| - 1]) + |Calls(f, |f.body|)| * |Pointers(f, |f.body|)|
  }

  lemma {:induction false} OperandsDistinct(ptrs: seq<Value>, ops: seq<Operand>)
    requires Distinct(ptrs)
    ensures Distinct(AddOperands(ptrs, ops))
    decreases |ops|
  {
    if ops != [] {
      OperandsDistinct(ptrs, ops[..|ops| - 1]);
    }
  }

  lemma {:induction false} ArgsDistinct(args: seq<Operand>)
    ensures Distinct(ArgPointers(args))
    decreases |args|
  {
    if args != [] {
      ArgsDistinct(args[..|args| - 1]);
    }
  }

  lemma {:induction false} PointersDistinct(f: Func, n: nat)
    requires n <= |f.body|
    ensures Distinct(Pointers(f, n))
    decreases n
  {
    if n == 0 {
      ArgsDistinct(f.args);
    } else {
      PointersDistinct(f, n - 1);
      var i := f.body[n - 1];
      var before := Pointers(f, n - 1);
      OperandsDistinct(if i.isPointer then Insert(before, i.value) else before, Operands(i));
    }
  }

  lemma {:induction false} CallsDistinct(f: Func, n: nat)
    requires n <= |f.body|
    ensures Distinct(Calls(f, n))
    decreases n
  {
    if n > 0 {
      CallsDistinct(f, n - 1);
    }
  }

  ghost predicate Wanted(o: Operand, v: Value) {
    o.isPointer && o.value == v
  }

  /** Operand `k` of the instruction is the pointer `v`, and not the function of a direct call. */
  ghost predicate LooksAt(i: Inst, k: int, v: Value) {
    && 0 <= k < |i.operands| && !(k == 0 && i.call.Some? && i.direct)
    && i.operands[k].isPointer && i.operands[k].value == v && !i.operands[k].isNull
  }

  /** Instruction `i` is the pointer `v`, or looks at it. */
  ghost predicate Mentions(i: Inst, v: Value) {
    (i.isPointer && i.value == v) || exists k :: LooksAt(i, k, v)
  }

  lemma OperandsAreMentioned(i: Inst, v: Value)
    ensures Mentions(i, v) <==>
              (i.isPointer && i.value == v) || exists o :: o in Operands(i) && Wanted(o, v) && !o.isNull
  {
    var ops := Operands(i);
    var d := |i.operands| - |ops|;
    if k :| LooksAt(i, k, v) {
      assert ops[k - d] == i.operands[k];
    }
    if o :| o in ops && Wanted(o, v) && !o.isNull {
      var k :| 0 <= k < |ops| && ops[k] == o;
      assert LooksAt(i, k + d, v);
    }
  }

  /** One of the first `n` instructions does. */
  ghost predicate MentionedBefore(f: Func, n: nat, v: Value)
    requires n <= |f.body|
  {
    exists i :: 0 <= i < n && Mentions(f.body[i], v)
  }

  lemma {:induction false} ArgsAreCollected(args: seq<Operand>, v: Value)
    ensures v in ArgPointers(args) <==> exists o :: o in args && Wanted(o, v)
    decreases |args|
  {
    if args != [] {
      var front, last := args[..|args| - 1], args[|args| - 1];
      ArgsAreCollected(front, v);
      assert forall o :: o in args <==> o in front || o == last;
      assert v in ArgPointers(args) <==> v in ArgPointers(front) || Wanted(last, v);
    }
  }

  lemma {:induction false} OperandsAreCollected(ptrs: seq<Value>, ops: seq<Operand>, v: Value)
    ensures v in AddOperands(ptrs, ops) <==> v in ptrs || exists o :: o in ops && Wanted(o, v) && !o.isNull
    decreases |ops|
  {
    if ops != [] {
      var front, last := ops[..|ops| - 1], ops[|ops| - 1];
      OperandsAreCollected(ptrs, front, v);
      assert forall o :: o in ops <==> o in front || o == last;
    }
  }

  /** The pointers are exactly the pointer arguments and the pointers that some instruction is or looks at. */
  lemma {:induction false} PointersAreCollected(f: Func, n: nat, v: Value)
    requires n <= |f.body|
    ensures v in Pointers(f, n) <==>
              (exists o :: o in f.args && Wanted(o, v)) || MentionedBefore(f, n, v)
    decreases n
  {
    hide Mentions, Wanted, Operands, AddOperands, Insert;
    if n == 0 {
      ArgsAreCollected(f.args, v);
    } else {
      PointersAreCollected(f, n - 1, v);
      InstIsCollected(f, n, v);
      hide Pointers;
    }
  }

  lemma InstIsCollected(f: Func, n: nat, v: Value)
    requires 0 < n <= |f.body|
    ensures v in Pointers(f, n) <==> v in Pointers(f, n - 1) || Mentions(f.body[n - 1], v)
  {
    var i := f.body[n - 1];
    var before := Pointers(f, n - 1);
    OperandsAreCollected(if i.isPointer then Insert(before, i.value) else before, Operands(i), v);
    OperandsAreMentioned(i, v);
    hide AddOperands, Operands, Wanted, Mentions;
  }

  lemma {:induction false} CallsAreCollected(f: Func, n: nat, cs: CallSite)
    requires n <= |f.body|
    ensures cs in Calls(f, n) <==> exists i :: 0 <= i < n && f.body[i].call == Some(cs)
    decreases n
  {
    if n > 0 {
      CallsAreCollected(f, n - 1, cs);
    }
  }

  /** The pairs of pointers of a function, the later one first, about which the answer is `r`. */
  ghost function AliasPairs(job: Job, r: AliasResult): set<(int, int)> {
    var ptrs := Pointers(job.f, |job.f.body|);
    set a, b | 0 <= a < |ptrs| && 0 <= b < a && job.alias(ptrs[a], ptrs[b]) == r :: (a, b)
  }

  /** The pairs of a call and a pointer. */
  ghost function ModRefPairs(job: Job, r: ModRefResult): set<(int, int)> {
    var ptrs, calls := Pointers(job.f, |job.f.body|), Calls(job.f, |job.f.body|);
    set a, b | 0 <= a < |calls| && 0 <= b < |ptrs| && job.callInfo(calls[a], ptrs[b]) == r :: (a, b)
  }

  lemma AliasesOfFunction(job: Job, r: AliasResult)
    ensures Count(JobAliases(job), r) == |AliasPairs(job, r)|
  {
    hide Pointers, Count, PairAnswers;
    var ptrs := Pointers(job.f, |job.f.body|);
    PairsCount(job.alias, ptrs, |ptrs|, r);
    var x, y := AskedPairs(job.alias, ptrs, |ptrs|, 0, r), AliasPairs(job, r);
    forall p: (int, int)
      ensures p in x <==> p in y
    {
    }
    assert x == y;
  }

  lemma ModRefsOfFunction(job: Job, r: ModRefResult)
    ensures Count(JobModRefs(job), r) == |ModRefPairs(job, r)|
  {
    hide Pointers, Calls, Count, CallAnswers;
    var ptrs, calls := Pointers(job.f, |job.f.body|), Calls(job.f, |job.f.body|);
    CallsCount(job.callInfo, calls, ptrs, |calls|, r);
    var x, y := AskedCalls(job.callInfo, calls, ptrs, |calls|, 0, r), ModRefPairs(job, r);
    forall p: (int, int)
      ensures p in x <==> p in y
    {
    }
    assert x == y;
  }

  /** Every pair is asked about, once, and no others. */
  lemma AnswersOfFunction(job: Job, a: AliasResult, m: ModRefResult)
    ensures Count(JobAliases(job), a) == |AliasPairs(job, a)|
    ensures Count(JobModRefs(job), m) == |ModRefPairs(job, m)|
  {
    hide *;
    AliasesOfFunction(job, a);
    ModRefsOfFunction(job, m);
  }

  ghost function AliasCount(jobs: seq<Job>, r: AliasResult): nat {
    if jobs == [] then 0 else AliasCount(jobs[..|jobs| - 1], r) + |AliasPairs(jobs[|jobs| - 1], r)|
  }

  ghost function ModRefCount(jobs: seq<Job>, r: ModRefResult): nat {
    if jobs == [] then 0 else ModRefCount(jobs[..|jobs| - 1], r) + |ModRefPairs(jobs[|jobs| - 1], r)|
  }

  lemma {:induction false} CountConcat<T>(a: seq<T>, b: seq<T>, r: T)
    ensures Count(a + b, r) == Count(a, r) + Count(b, r)
    decreases |b|
  {
    if b == [] {
      assert a + b == a;
    } else {
      assert (a + b)[..|a + b| - 1] == a + b[..|b| - 1];
      CountConcat(a, b[..|b| - 1], r);
    }
  }

  /** And so over all functions. */
  lemma {:induction false} AnswersAre(jobs: seq<Job>, a: AliasResult, m: ModRefResult)
    ensures Count(AllAliases(jobs), a) == AliasCount(jobs, a) && Count(AllModRefs(jobs), m) == ModRefCount(jobs, m)
    decreases |jobs|
  {
    hide Count, JobAliases, JobModRefs, AliasPairs, ModRefPairs;
    if jobs == [] {
      NothingCounted(a);
      NothingCounted(m);
    } else {
      var front, last := jobs[..|jobs| - 1], jobs[|jobs| - 1];
      AnswersAre(front, a, m);
      AnswersOfFunction(last, a, m);
      CountConcat(AllAliases(front), JobAliases(last), a);
      CountConcat(AllModRefs(front), JobModRefs(last), m);
    }
  }

  /** Pointers and calls stand in the order in which they were met first. */
  lemma {:induction false} PointersGrow(f: Func, m: nat, n: nat)
    requires m <= n <= |f.body|
    ensures Pointers(f, m) <= Pointers(f, n) && Calls(f, m) <= Calls(f, n)
    decreases n
  {
    hide Pointers, Calls;
    if m < n {
      PointersGrow(f, m, n - 1);
      PointersMore(f, n);
    }
  }

  lemma PointersMore(f: Func, n: nat)
    requires 0 < n <= |f.body|
    ensures Pointers(f, n - 1) <= Pointers(f, n) && Calls(f, n - 1) <= Calls(f, n)
  {
    hide Insert, AddOperands, Operands;
    var i := f.body[n - 1];
    var before := Pointers(f, n - 1);
    OperandsGrow(if i.isPointer then Insert(before, i.value) else before, Operands(i), 0);
  }

  lemma {:induction false} OperandsGrow(ptrs: seq<Value>, ops: seq<Operand>, k: nat)
    requires k <= |ops|
    ensures ptrs <= AddOperands(ptrs, ops[..k]) <= AddOperands(ptrs, ops)
    decreases |ops|
  {
    if k < |ops| {
      OperandsGrow(ptrs, ops[..|ops| - 1], k);
      assert ops[..|ops| - 1][..k] == ops[..k];
    } else {
      assert ops[..k] == ops;
      if ops != [] {
        OperandsGrow(ptrs, ops[..|ops| - 1], 0);
      }
    }
  }

  /** The questions asked about one function: all pairs of distinct pointers, all calls with all pointers. */
  lemma QueriesOfFunction(job: Job)
    ensures var ptrs, calls := Pointers(job.f, |job.f.body|), Calls(job.f, |job.f.body|);
            && Distinct(ptrs) && Distinct(calls)
            && |JobAliases(job)| == |ptrs| * (|ptrs| - 1) / 2
            && |JobModRefs(job)| == |calls| * |ptrs|
  {
    var ptrs, calls := Pointers(job.f, |job.f.body|), Calls(job.f, |job.f.body|);
    PointersDistinct(job.f, |job.f.body|);
    CallsDistinct(job.f, |job.f.body|);
    PairsLength(job.alias, ptrs, |ptrs|);
    CallsLength(job.callInfo, calls, ptrs, |calls|);
  }

  lemma {:induction false} TotalsAre(jobs: seq<Job>)
    ensures |AllAliases(jobs)| == PairTotal(jobs) && |AllModRefs(jobs)| == CallTotal(jobs)
    decreases |jobs|
  {
    hide Pointers, Calls, JobAliases, JobModRefs, PairAnswers, CallAnswers;
    if jobs != [] {
      TotalsAre(jobs[..|jobs| - 1]);
      QueriesOfFunction(jobs[|jobs| - 1]);
    }
  }

  // ----- the report -----

  lemma MulMonotone(b: nat, x: int, y: int)
    ensures x <= y ==> b * x <= b * y
  {
    if x <= y {
      assert b * (y - x) >= 0;
    }
  }

  lemma QuotientIs(a: nat, b: nat, q: int)
    requires b > 0 && b * q <= a < b * (q + 1)
    ensures a / b == q
  {
    var q' := a / b;
    assert b * q' <= a < b * (q' + 1);
    MulMonotone(b, q' + 1, q);
    MulMonotone(b, q + 1, q');
  }

  lemma QuotientBounds(a: nat, b: nat)
    requires b > 0
    ensures b * (a / b) <= a < b * (a / b) + b
  {
  }

  lemma MulTen(b: nat, w: int)
    ensures b * (10 * w) == 10 * (b * w) && b * (w + 1) == b * w + b
  {
  }

  /** Rounding down ten times the number first loses nothing. */
  lemma TenthOfQuotient(a: nat, b: nat)
    requires b > 0
    ensures a * 10 / b / 10 == a / b
  {
    var q := a * 10 / b;
    var w := q / 10;
    QuotientBounds(a * 10, b);
    MulMonotone(b, 10 * w, q);
    MulMonotone(b, q + 1, 10 * (w + 1));
    MulTen(b, q);
    MulTen(b, w);
    MulTen(b, w + 1);
    TenthBetween(a, b, b * q, b * w);
    QuotientIs(a, b, w);
  }

  lemma TenthBetween(a: nat, b: nat, p: int, s: int)
    requires p <= a * 10 < p + b && 10 * s <= p && p + b <= 10 * (s + b)
    ensures s <= a < s + b
  {
  }

  /** PrintPercent: the whole part and the digit behind the point, computed in 64 bits. */
  function Percent(num: nat, sum: nat): (nat, nat)
    requires sum > 0
  {
    (num * 100 % U64 / sum, num * 1000 % U64 / sum % 10)
  }

  /** The printed number is the ratio, rounded down to a tenth of a percent; 64 bits are enough for any counters. */
  lemma PercentRoundsDown(num: nat, sum: nat)
    requires 0 < sum && num < U32
    ensures var (whole, tenth) := Percent(num, sum);
            10 * whole + tenth == num * 1000 / sum && tenth < 10
  {
    assert num * 100 % U64 == num * 100 && num * 1000 % U64 == num * 1000;
    assert num * 100 * 10 == num * 1000;
    TenthOfQuotient(num * 100, sum);
  }

  /** The summary line computes the percentage in 32 bits only. */
  function SummaryPercent(num: nat, sum: nat): nat
    requires sum > 0
  {
    num * 100 % U32 / sum
  }

  /** It is the true percentage exactly as long as the product fits; from 42949673 answers on it is wrong. */
  lemma SummaryPercentIsRight(num: nat, sum: nat)
    requires 0 < sum < U32
    ensures SummaryPercent(num, sum) == num * 100 / sum <==> num * 100 < U32
  {
    var low := num * 100 % U32;
    if num * 100 >= U32 {
      assert low + sum <= num * 100;
      QuotientGrows(low, num * 100, sum);
    } else {
      assert low == num * 100;
    }
  }

  lemma QuotientGrows(a: nat, a': nat, b: nat)
    requires b > 0 && a + b <= a'
    ensures a / b < a' / b
  {
    var q, q' := a / b, a' / b;
    assert b * q <= a && a' < b * (q' + 1);
    assert b * (q + 1) == b * q + b;
    MulMonotone(b, q' + 1, q + 1);
  }

  // ----- the pass -----

  /** The 32-bit increment of a counter. */
  function Bump(n: nat): nat {
    (n + 1) % U32
  }

  lemma BumpCounts<T>(answers: seq<T>, x: T, r: T)
    ensures Count(answers + [x], r) % U32 == if x == r then Bump(Count(answers, r) % U32) else Count(answers, r) % U32
  {
    CountLast(answers, x, r);
  }

  datatype Line = Line(count: nat, percent: (nat, nat), summary: nat)

  datatype Summary = Summary(total: nat, lines: seq<Line>)

  function LineOf(num: nat, sum: nat): Line
    requires sum > 0
  {
    Line(num, Percent(num, sum), SummaryPercent(num, sum))
  }

  /**
    What the report says about `answers`: nothing if their number is a multiple of 2^32; otherwise, unless the
    counters wrapped around, the total, and for every kind its count and its percentage to a tenth.
  */
  ghost predicate Reports<T>(s: Option<Summary>, answers: seq<T>, kinds: seq<T>) {
    && (s.None? <==> |answers| % U32 == 0)
    && (s.Some? ==> s.value.total == |answers| % U32)
    && (s.Some? && |answers| < U32 ==>
          && |s.value.lines| == |kinds|
          && forall k :: 0 <= k < |kinds| ==> LineIsRight(s.value.lines[k], Count(answers, kinds[k]), |answers|))
  }

  ghost predicate LineIsRight(l: Line, num: nat, sum: nat)
    requires sum > 0
  {
    && l.count == num
    && 10 * l.percent.0 + l.percent.1 == num * 1000 / sum && l.percent.1 < 10
    && (l.summary == num * 100 / sum <==> num * 100 < U32)
  }

  lemma LineDescribes(num: nat, sum: nat)
    requires num <= sum && 0 < sum < U32
    ensures LineIsRight(LineOf(num, sum), num, sum)
  {
    PercentRoundsDown(num, sum);
    SummaryPercentIsRight(num, sum);
  }

  function Lines(counters: seq<nat>, sum: nat): (lines: seq<Line>)
    requires sum > 0
    ensures |lines| == |counters| && forall k :: 0 <= k < |lines| ==> lines[k] == LineOf(counters[k], sum)
  {
    seq(|counters|, k requires 0 <= k < |counters| => LineOf(counters[k], sum))
  }

  lemma {:induction false} CountBound<T>(answers: seq<T>, r: T)
    ensures Count(answers, r) <= |answers|
    decreases |answers|
  {
    if answers != [] {
      CountBound(answers[..|answers| - 1], r);
    }
  }

  lemma ReportIsRight<T>(answers: seq<T>, kinds: seq<T>, counters: seq<nat>, sum: nat)
    requires |counters| == |kinds| && sum == |answers| % U32 && sum > 0
    requires forall k :: 0 <= k < |kinds| ==> counters[k] == Count(answers, kinds[k]) % U32
    ensures Reports(Some(Summary(sum, Lines(counters, sum))), answers, kinds)
  {
    hide Count, Lines, LineOf, LineIsRight;
    if |answers| < U32 {
      forall k | 0 <= k < |kinds|
        ensures LineIsRight(Lines(counters, sum)[k], Count(answers, kinds[k]), |answers|)
      {
        KindDescribed(answers, kinds[k], counters[k]);
      }
    }
  }

  lemma KindDescribed<T>(answers: seq<T>, kind: T, counter: nat)
    requires 0 < |answers| < U32 && counter == Count(answers, kind) % U32
    ensures LineIsRight(LineOf(counter, |answers|), Count(answers, kind), |answers|)
  {
    hide Count, LineOf, LineIsRight;
    CountBound(answers, kind);
    LineDescribes(counter, |answers|);
  }

  lemma NothingToReport<T>(answers: seq<T>, kinds: seq<T>)
    requires |answers| % U32 == 0
    ensures Reports(None, answers, kinds)
  {
  }

  lemma WrappedSum(a: nat, b: nat, c: nat, d: nat)
    ensures (a % U32 + b % U32 + c % U32 + d % U32) % U32 == (a + b + c + d) % U32
  {
    WrappedPlus(a % U32 + b % U32 + c % U32, d);
    WrappedPlus(a % U32 + b % U32, c);
    WrappedPlus(a % U32, b);
    assert a % U32 + b % U32 == b % U32 + a % U32;
    WrappedPlus(b, a);
    WrappedPlus(c, a % U32 + b % U32);
    WrappedPlus(c, a + b);
    WrappedPlus(d, a % U32 + b % U32 + c % U32);
    WrappedPlus(d, a + b + c);
  }

  lemma AliasSum(answers: seq<AliasResult>)
    ensures (Count(answers, NoAlias) % U32 + Count(answers, MayAlias) % U32 + Count(answers, MustAlias) % U32) % U32
         == |answers| % U32
  {
    AliasTotal(answers);
    hide Count;
    WrappedSum(Count(answers, NoAlias), Count(answers, MayAlias), Count(answers, MustAlias), 0);
  }

  lemma ModRefSum(answers: seq<ModRefResult>)
    ensures (Count(answers, NO_MOD_REF) % U32 + Count(answers, MOD) % U32 + Count(answers, REF) % U32
             + Count(answers, MOD_REF) % U32) % U32 == |answers| % U32
  {
    ModRefTotal(answers);
    hide Count;
    WrappedSum(Count(answers, NO_MOD_REF), Count(answers, MOD), Count(answers, REF), Count(answers, MOD_REF));
  }

  lemma WrappedPlus(a: nat, b: nat)
    ensures (a + b % U32) % U32 == (a + b) % U32
  {
    assert a + b == a + b % U32 + b / U32 * U32;
  }

  /** A sum in a 32-bit counter. */
  function Plus32(a: nat, b: nat): nat {
    (a + b) % U32
  }

  lemma CountersGrow(job: Job, aliases: seq<AliasResult>, modRefs: seq<ModRefResult>, a: AliasResult, m: ModRefResult)
    ensures Count(aliases + JobAliases(job), a) % U32 == Plus32(Count(aliases, a) % U32, |AliasPairs(job, a)|)
    ensures Count(modRefs + JobModRefs(job), m) % U32 == Plus32(Count(modRefs, m) % U32, |ModRefPairs(job, m)|)
  {
    hide Count, JobAliases, JobModRefs, AliasPairs, ModRefPairs;
    AnswersOfFunction(job, a, m);
    CountConcat(aliases, JobAliases(job), a);
    CountConcat(modRefs, JobModRefs(job), m);
    WrappedPlus(|AliasPairs(job, a)|, Count(aliases, a));
    WrappedPlus(|ModRefPairs(job, m)|, Count(modRefs, m));
  }

  class AAEval {
    var noAlias: nat
    var mayAlias: nat
    var mustAlias: nat
    var noModRef: nat
    var mod: nat
    var ref: nat
    var modRef: nat

    /** doInitialization */
    constructor ()
      ensures CountsAliases([]) && CountsModRefs([])
    {
      noAlias, mayAlias, mustAlias, noModRef, mod, ref, modRef := 0, 0, 0, 0, 0, 0, 0;
    }

    /** The counters, which are unsigned and of 32 bits, count the given answers. */
    ghost predicate CountsAliases(answers: seq<AliasResult>)
      reads `noAlias, `mayAlias, `mustAlias
    {
      && noAlias == Count(answers, NoAlias) % U32
      && mayAlias == Count(answers, MayAlias) % U32
      && mustAlias == Count(answers, MustAlias) % U32
    }

    ghost predicate CountsModRefs(answers: seq<ModRefResult>)
      reads `noModRef, `mod, `ref, `modRef
    {
      && noModRef == Count(answers, NO_MOD_REF) % U32
      && mod == Count(answers, MOD) % U32
      && ref == Count(answers, REF) % U32
      && modRef == Count(answers, MOD_REF) % U32
    }

    method CountAlias(r: AliasResult, ghost answers: seq<AliasResult>)
      requires CountsAliases(answers)
      modifies `noAlias, `mayAlias, `mustAlias
      ensures CountsAliases(answers + [r])
    {
      BumpCounts(answers, r, NoAlias);
      BumpCounts(answers, r, MayAlias);
      BumpCounts(answers, r, MustAlias);
      hide Count, Bump;
      match r {
        case NoAlias => noAlias := Bump(noAlias);
        case MayAlias => mayAlias := Bump(mayAlias);
        case MustAlias => mustAlias := Bump(mustAlias);
      }
    }

    method CountModRef(r: ModRefResult, ghost answers: seq<ModRefResult>)
      requires CountsModRefs(answers)
      modifies `noModRef, `mod, `ref, `modRef
      ensures CountsModRefs(answers + [r])
    {
      BumpCounts(answers, r, NO_MOD_REF);
      BumpCounts(answers, r, MOD);
      BumpCounts(answers, r, REF);
      BumpCounts(answers, r, MOD_REF);
      OneOfFour(r);
      hide Count, Bump;
      if r == NO_MOD_REF {
        noModRef := Bump(noModRef);
      } else if r == MOD {
        mod := Bump(mod);
      } else if r == REF {
        ref := Bump(ref);
      } else {
        modRef := Bump(modRef);
      }
    }

    /** The pairs of the pointer at `i` with those before it. */
    method CountRow(ptrs: seq<Value>, i: nat, alias: (Value, Value) -> AliasResult, ghost answers: seq<AliasResult>)
      requires i < |ptrs| && CountsAliases(answers)
      modifies `noAlias, `mayAlias, `mustAlias
      ensures CountsAliases(answers + RowAnswers(alias, ptrs, i, i))
    {
      hide CountsAliases;
      var j := 0;
      assert answers + [] == answers;
      while j < i
        invariant 0 <= j <= i && CountsAliases(answers + RowAnswers(alias, ptrs, i, j))
      {
        ghost var row := RowAnswers(alias, ptrs, i, j);
        CountAlias(alias(ptrs[i], ptrs[j]), answers + row);
        assert (answers + row) + [alias(ptrs[i], ptrs[j])] == answers + RowAnswers(alias, ptrs, i, j + 1);
        j := j + 1;
      }
    }

    /** One call with all pointers. */
    method CountCall(cs: CallSite, ptrs: seq<Value>, callInfo: (CallSite, Value) -> ModRefResult,
        ghost answers: seq<ModRefResult>)
      requires CountsModRefs(answers)
      modifies `noModRef, `mod, `ref, `modRef
      ensures CountsModRefs(answers + CallRow(callInfo, cs, ptrs, |ptrs|))
    {
      hide CountsModRefs;
      var v := 0;
      assert answers + [] == answers;
      while v < |ptrs|
        invariant 0 <= v <= |ptrs| && CountsModRefs(answers + CallRow(callInfo, cs, ptrs, v))
      {
        ghost var row := CallRow(callInfo, cs, ptrs, v);
        CountModRef(callInfo(cs, ptrs[v]), answers + row);
        assert (answers + row) + [callInfo(cs, ptrs[v])] == answers + CallRow(callInfo, cs, ptrs, v + 1);
        v := v + 1;
      }
    }

    /** Asks about every pair of pointers of the function, and about every call with every pointer. */
    method AskAll(job: Job, ghost aliases: seq<AliasResult>, ghost modRefs: seq<ModRefResult>)
      requires CountsAliases(aliases) && CountsModRefs(modRefs)
      modifies this
      ensures CountsAliases(aliases + JobAliases(job)) && CountsModRefs(modRefs + JobModRefs(job))
    {
      hide CountsAliases, CountsModRefs, Pointers, Calls, RowAnswers, CallRow;
      var ptrs, calls := Collect(job.f);
      var i := 0;
      assert aliases + [] == aliases;
      while i < |ptrs|
        invariant 0 <= i <= |ptrs| && CountsAliases(aliases + PairAnswers(job.alias, ptrs, i)) && CountsModRefs(modRefs)
      {
        CountRow(ptrs, i, job.alias, aliases + PairAnswers(job.alias, ptrs, i));
        assert aliases + PairAnswers(job.alias, ptrs, i) + RowAnswers(job.alias, ptrs, i, i)
            == aliases + PairAnswers(job.alias, ptrs, i + 1);
        i := i + 1;
      }
      var c := 0;
      assert modRefs + [] == modRefs;
      while c < |calls|
        invariant 0 <= c <= |calls| && CountsModRefs(modRefs + CallAnswers(job.callInfo, calls, ptrs, c))
        invariant CountsAliases(aliases + JobAliases(job))
      {
        CountCall(calls[c], ptrs, job.callInfo, modRefs + CallAnswers(job.callInfo, calls, ptrs, c));
        assert modRefs + CallAnswers(job.callInfo, calls, ptrs, c) + CallRow(job.callInfo, calls[c], ptrs, |ptrs|)
            == modRefs + CallAnswers(job.callInfo, calls, ptrs, c + 1);
        c := c + 1;
      }
    }

    /** Every counter counts the pairs with its answer. */
    method RunOnFunction(job: Job, ghost aliases: seq<AliasResult>, ghost modRefs: seq<ModRefResult>)
      requires CountsAliases(aliases) && CountsModRefs(modRefs)
      modifies this
      ensures CountsAliases(aliases + JobAliases(job)) && CountsModRefs(modRefs + JobModRefs(job))
      ensures noAlias == Plus32(old(noAlias), |AliasPairs(job, NoAlias)|)
      ensures mayAlias == Plus32(old(mayAlias), |AliasPairs(job, MayAlias)|)
      ensures mustAlias == Plus32(old(mustAlias), |AliasPairs(job, MustAlias)|)
      ensures noModRef == Plus32(old(noModRef), |ModRefPairs(job, NO_MOD_REF)|)
      ensures ref == Plus32(old(ref), |ModRefPairs(job, REF)|)
      ensures mod == Plus32(old(mod), |ModRefPairs(job, MOD)|)
      ensures modRef == Plus32(old(modRef), |ModRefPairs(job, MOD_REF)|)
    {
      AskAll(job, aliases, modRefs);
      hide Count, JobAliases, JobModRefs, AliasPairs, ModRefPairs, Plus32;
      CountersGrow(job, aliases, modRefs, NoAlias, NO_MOD_REF);
      CountersGrow(job, aliases, modRefs, MayAlias, REF);
      CountersGrow(job, aliases, modRefs, MustAlias, MOD);
      CountersGrow(job, aliases, modRefs, MustAlias, MOD_REF);
    }

    /** The first half of doFinalization. */
    method FinalizeAliases(ghost answers: seq<AliasResult>) returns (s: Option<Summary>)
      requires CountsAliases(answers)
      ensures Reports(s, answers, [NoAlias, MayAlias, MustAlias])
    {
      AliasSum(answers);
      hide Count, LineOf, Reports;
      var sum := (noAlias + mayAlias + mustAlias) % U32;
      if sum == 0 {
        NothingToReport(answers, [NoAlias, MayAlias, MustAlias]);
        return None;
      }
      ReportIsRight(answers, [NoAlias, MayAlias, MustAlias], [noAlias, mayAlias, mustAlias], sum);
      s := Some(Summary(sum, [LineOf(noAlias, sum), LineOf(mayAlias, sum), LineOf(mustAlias, sum)]));
      assert s.value.lines == Lines([noAlias, mayAlias, mustAlias], sum);
    }

    /** The second half of doFinalization. */
    method FinalizeModRefs(ghost answers: seq<ModRefResult>) returns (s: Option<Summary>)
      requires CountsModRefs(answers)
      ensures Reports(s, answers, [NO_MOD_REF, MOD, REF, MOD_REF])
    {
      ModRefSum(answers);
      hide Count, LineOf, Reports;
      var sum := (noModRef + mod + ref + modRef) % U32;
      if sum == 0 {
        NothingToReport(answers, [NO_MOD_REF, MOD, REF, MOD_REF]);
        return None;
      }
      ReportIsRight(answers, [NO_MOD_REF, MOD, REF, MOD_REF], [noModRef, mod, ref, modRef], sum);
      s := Some(Summary(sum, [LineOf(noModRef, sum), LineOf(mod, sum), LineOf(ref, sum), LineOf(modRef, sum)]));
      assert s.value.lines == Lines([noModRef, mod, ref, modRef], sum);
    }
  }

  /** A whole run of the pass over the functions of a module. */
  method Evaluate(jobs: seq<Job>) returns (aliases: Option<Summary>, modRefs: Option<Summary>)
    ensures aliases.Some? ==> aliases.value.total == PairTotal(jobs) % U32
    ensures modRefs.Some? ==> modRefs.value.total == CallTotal(jobs) % U32
    ensures Reports(aliases, AllAliases(jobs), [NoAlias, MayAlias, MustAlias])
    ensures Reports(modRefs, AllModRefs(jobs), [NO_MOD_REF, MOD, REF, MOD_REF])
    ensures aliases.Some? && PairTotal(jobs) < U32 ==>
              && |aliases.value.lines| == 3 && aliases.value.lines[0].count == AliasCount(jobs, NoAlias)
              && aliases.value.lines[1].count == AliasCount(jobs, MayAlias)
              && aliases.value.lines[2].count == AliasCount(jobs, MustAlias)
    ensures modRefs.Some? && CallTotal(jobs) < U32 ==>
              && |modRefs.value.lines| == 4 && modRefs.value.lines[0].count == ModRefCount(jobs, NO_MOD_REF)
              && modRefs.value.lines[1].count == ModRefCount(jobs, MOD)
              && modRefs.value.lines[2].count == ModRefCount(jobs, REF)
              && modRefs.value.lines[3].count == ModRefCount(jobs, MOD_REF)
  {
    hide Count, Pointers, Calls, JobAliases, JobModRefs, AliasCount, ModRefCount;
    var pass := new AAEval();
    var n := 0;
    while n < |jobs|
      invariant 0 <= n <= |jobs|
      invariant pass.CountsAliases(AllAliases(jobs[..n])) && pass.CountsModRefs(AllModRefs(jobs[..n]))
    {
      pass.RunOnFunction(jobs[n], AllAliases(jobs[..n]), AllModRefs(jobs[..n]));
      assert jobs[..n + 1][..n] == jobs[..n];
      n := n + 1;
    }
    assert jobs[..n] == jobs;
    TotalsAre(jobs);
    aliases := pass.FinalizeAliases(AllAliases(jobs));
    modRefs := pass.FinalizeModRefs(AllModRefs(jobs));
    AnswersAre(jobs, NoAlias, NO_MOD_REF);
    AnswersAre(jobs, MayAlias, MOD);
    AnswersAre(jobs, MustAlias, REF);
    AnswersAre(jobs, MustAlias, MOD_REF);
  }
}
