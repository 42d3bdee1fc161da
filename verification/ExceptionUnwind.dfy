/**
  Generated frames at work: any number of them around a function that throws. The unwinder first
  searches for a handler and then enters landing pads, asking the personality routine of each frame
  from the inside out; behind the outermost frame stands the harness, which takes what is left.
*/
module ExceptionUnwind {
  import opened Common
  import opened ExceptionTables
  import opened ExceptionFrames

  /** A thrown exception: of this runtime with its type, or foreign. */
  datatype Thrown = Thrown(ours: bool, kind: int)

  datatype Event = Ran(l: Label) | Freed(x: Thrown)

  datatype Stop = Invoking | Returned | Resuming(x: Option<Thrown>) | Stuck

  /** How running a function from some block ends, with its two variables and what it did. */
  datatype Outcome = Outcome(stop: Stop, flag: int, storage: Option<Thrown>, events: seq<Event>)

  // ----- one frame -----

  function RunInstrs(instrs: seq<Instr>, l: Label, flag: int, storage: Option<Thrown>, x: Option<Thrown>): Outcome
    decreases |instrs|
  {
    if instrs == [] then Outcome(Invoking, flag, storage, [])
    else
      match instrs[0]
      case StoreFlag(v) => RunInstrs(instrs[1..], l, v, storage, x)
      case ClearStorage => RunInstrs(instrs[1..], l, flag, None, x)
      case StoreException => RunInstrs(instrs[1..], l, flag, x, x)
      case Print =>
        var rest := RunInstrs(instrs[1..], l, flag, storage, x);
        rest.(events := [Ran(l)] + rest.events)
      case DeleteStored =>
        // deleteOurException ignores null and foreign exceptions
        var freed := if storage.Some? && storage.value.ours then [Freed(storage.value)] else [];
        var rest := RunInstrs(instrs[1..], l, flag, storage, x);
        rest.(events := freed + rest.events)
  }

  function Target(cases: seq<(int, Label)>, v: int, default: Label): Label {
    if cases == [] then default
    else if cases[|cases| - 1].0 == v then cases[|cases| - 1].1
    else Target(cases[..|cases| - 1], v, default)
  }

  /** Runs from block `l`; `x` and `selector` are what the unwinder passed to the landing pad. */
  function RunFrom(code: Code, l: Label, flag: int, storage: Option<Thrown>, x: Option<Thrown>, selector: int,
      fuel: nat): Outcome
    decreases fuel
  {
    if fuel == 0 || l !in code || code[l].term.None? then Outcome(Stuck, flag, storage, [])
    else
      var r := RunInstrs(code[l].instrs, l, flag, storage, x);
      match code[l].term.value
      case RetVoid => r.(stop := Returned)
      case Resume => r.(stop := Resuming(r.storage))
      case Invoke(_, _) => r
      case Br(m) => Behind(r, RunFrom(code, m, r.flag, r.storage, x, selector, fuel - 1))
      case SwitchFlag(d, cases) =>
        Behind(r, RunFrom(code, Target(cases, r.flag, d), r.flag, r.storage, x, selector, fuel - 1))
      case SwitchSelector(d, cases) =>
        Behind(r, RunFrom(code, Target(cases, selector, d), r.flag, r.storage, x, selector, fuel - 1))
      case IfOurs(m, n) =>
        if x.None? then r.(stop := Stuck)
        else Behind(r, RunFrom(code, if x.value.ours then m else n, r.flag, r.storage, x, selector, fuel - 1))
  }

  function Behind(r: Outcome, next: Outcome): Outcome {
    next.(events := r.events + next.events)
  }

  /** Where a frame goes on behind its call: after a normal return, or in its landing pad. */
  function AfterCall(code: Code, unwinding: bool): Label {
    if EntryBlock in code && code[EntryBlock].term.Some? && code[EntryBlock].term.value.Invoke?
    then if unwinding then code[EntryBlock].term.value.unwind else code[EntryBlock].term.value.normal
    else EndBlock
  }

  lemma AfterCallIs(code: Code, n: nat)
    requires IsCode(code, n)
    ensures AfterCall(code, false) == NormalBlock && AfterCall(code, true) == ExceptionBlock
  {
    assert code[EntryBlock] == BlockOf(EntryBlock, n);
  }

  /** No path through a frame has more blocks. */
  const FUEL: nat := 6

  lemma {:induction false} TargetOfCases(n: nat, v: int, default: Label)
    ensures Target(Cases(n), v, default) == if 1 <= v <= n then CatchBlock(v - 1) else default
    decreases n
  {
    if n > 0 {
      assert Cases(n)[..|Cases(n)| - 1] == Cases(n - 1);
      TargetOfCases(n - 1, v, default);
    }
  }

  lemma EntryPath(code: Code, n: nat, flag: int, storage: Option<Thrown>)
    requires IsCode(code, n)
    ensures RunFrom(code, EntryBlock, flag, storage, None, 0, FUEL) == Outcome(Invoking, NOT_THROWN, None, [])
  {
    assert code[EntryBlock] == BlockOf(EntryBlock, n);
    RunPair(ClearStorage, StoreFlag(NOT_THROWN), EntryBlock, flag, storage, None);
  }

  lemma RunOne(i: Instr, l: Label, flag: int, storage: Option<Thrown>, x: Option<Thrown>)
    ensures RunInstrs([i], l, flag, storage, x) ==
            match i
            case StoreFlag(v) => Outcome(Invoking, v, storage, [])
            case ClearStorage => Outcome(Invoking, flag, None, [])
            case StoreException => Outcome(Invoking, flag, x, [])
            case Print => Outcome(Invoking, flag, storage, [Ran(l)])
            case DeleteStored =>
              Outcome(Invoking, flag, storage,
                if storage.Some? && storage.value.ours then [Freed(storage.value)] else [])
  {
    assert [i][1..] == [];
  }

  lemma RunPair(i: Instr, j: Instr, l: Label, flag: int, storage: Option<Thrown>, x: Option<Thrown>)
    ensures var a := RunInstrs([i], l, flag, storage, x);
            var b := RunInstrs([j], l, a.flag, a.storage, x);
            RunInstrs([i, j], l, flag, storage, x) == Behind(a, b)
  {
    assert [i, j][1..] == [j];
    RunOne(i, l, flag, storage, x);
  }

  /** From the finally block on: with a pending exception to the resume, else to the return. */
  lemma FinallyPath(code: Code, n: nat, flag: int, storage: Option<Thrown>, x: Option<Thrown>, selector: int, fuel: nat)
    requires IsCode(code, n) && fuel >= 2
    ensures RunFrom(code, FinallyBlock, flag, storage, x, selector, fuel) ==
            if flag == THROWN then Outcome(Resuming(storage), flag, storage, [Ran(FinallyBlock)])
            else Outcome(Returned, flag, storage, [Ran(FinallyBlock), Ran(EndBlock)]
                         + (if storage.Some? && storage.value.ours then [Freed(storage.value)] else []))
  {
    assert code[FinallyBlock] == BlockOf(FinallyBlock, n);
    TargetOfTwo(CAUGHT, EndBlock, THROWN, ResumeBlock, flag, EndBlock);
    RunOne(Print, FinallyBlock, flag, storage, x);
    LastBlock(code, n, flag, storage, x, selector, fuel - 1);
    hide IsCode, RunInstrs, Target;
  }

  /** The resume, and the return, which frees the stored exception. */
  lemma LastBlock(code: Code, n: nat, flag: int, storage: Option<Thrown>, x: Option<Thrown>, selector: int, fuel: nat)
    requires IsCode(code, n) && fuel >= 1
    ensures RunFrom(code, ResumeBlock, flag, storage, x, selector, fuel) ==
      Outcome(Resuming(storage), flag, storage, [])
    ensures RunFrom(code, EndBlock, flag, storage, x, selector, fuel) ==
            Outcome(Returned, flag, storage, [Ran(EndBlock)]
                    + (if storage.Some? && storage.value.ours then [Freed(storage.value)] else []))
  {
    assert code[ResumeBlock] == BlockOf(ResumeBlock, n) && code[EndBlock] == BlockOf(EndBlock, n);
    RunPair(Print, DeleteStored, EndBlock, flag, storage, x);
    RunOne(Print, EndBlock, flag, storage, x);
    RunOne(DeleteStored, EndBlock, flag, storage, x);
  }

  lemma TargetOfTwo(a: int, l: Label, b: int, m: Label, v: int, d: Label)
    requires a != b
    ensures Target([(a, l), (b, m)], v, d) == if v == a then l else if v == b then m else d
  {
    var cases := [(a, l), (b, m)];
    assert cases[..1] == [(a, l)] && [(a, l)][..0] == [];
    assert Target([(a, l)], v, d) == if v == a then l else d;
  }

  function NormalTrace(): seq<Event> {
    [Ran(NormalBlock), Ran(FinallyBlock), Ran(EndBlock)]
  }

  lemma NormalPath(code: Code, n: nat)
    requires IsCode(code, n)
    ensures RunFrom(code, NormalBlock, NOT_THROWN, None, None, 0, FUEL) ==
      Outcome(Returned, NOT_THROWN, None, NormalTrace())
  {
    assert code[NormalBlock] == BlockOf(NormalBlock, n);
    RunOne(Print, NormalBlock, NOT_THROWN, None, None);
    FinallyPath(code, n, NOT_THROWN, None, None, 0, FUEL - 1);
  }

  function CatchTrace(i: nat, x: Thrown): seq<Event> {
    [Ran(RouteBlock), Ran(CatchBlock(i)), Ran(FinallyBlock), Ran(EndBlock), Freed(x)]
  }

  function ResumeTrace(x: Thrown): seq<Event> {
    [Ran(if x.ours then RouteBlock else ExternalBlock), Ran(FinallyBlock)]
  }

  /** Behind the landing pad: into the selected catch block, or straight to the finally block. */
  lemma RoutePath(code: Code, n: nat, x: Thrown, selector: nat)
    requires IsCode(code, n) && selector <= n
    ensures RunFrom(code, if x.ours then RouteBlock else ExternalBlock, THROWN, Some(x), Some(x), selector, FUEL - 1) ==
            if x.ours && selector > 0 then Outcome(Returned, CAUGHT, Some(x), CatchTrace(selector - 1, x))
            else Outcome(Resuming(Some(x)), THROWN, Some(x), ResumeTrace(x))
  {
    var l := if x.ours then RouteBlock else ExternalBlock;
    assert code[l] == BlockOf(l, n);
    RunOne(Print, l, THROWN, Some(x), Some(x));
    TargetOfCases(n, selector, FinallyBlock);
    if x.ours && selector > 0 {
      CatchPath(code, n, x, selector);
    } else {
      FinallyPath(code, n, THROWN, Some(x), Some(x), selector, FUEL - 2);
    }
  }

  lemma CatchPath(code: Code, n: nat, x: Thrown, selector: nat)
    requires IsCode(code, n) && 0 < selector <= n && x.ours
    ensures RunFrom(code, CatchBlock(selector - 1), THROWN, Some(x), Some(x), selector, FUEL - 2) ==
            Outcome(Returned, CAUGHT, Some(x), CatchTrace(selector - 1, x)[1..])
  {
    var c := CatchBlock(selector - 1);
    assert code[c] == BlockOf(c, n);
    RunPair(Print, StoreFlag(CAUGHT), c, THROWN, Some(x), Some(x));
    RunOne(Print, c, THROWN, Some(x), Some(x));
    RunOne(StoreFlag(CAUGHT), c, THROWN, Some(x), Some(x));
    FinallyPath(code, n, CAUGHT, Some(x), Some(x), selector, FUEL - 3);
  }

  /** The landing pad of a frame. */
  lemma LandingPath(code: Code, n: nat, x: Thrown, selector: nat)
    requires IsCode(code, n) && selector <= n
    ensures RunFrom(code, ExceptionBlock, NOT_THROWN, None, Some(x), selector, FUEL) ==
            if x.ours && selector > 0 then Outcome(Returned, CAUGHT, Some(x), CatchTrace(selector - 1, x))
            else Outcome(Resuming(Some(x)), THROWN, Some(x), ResumeTrace(x))
  {
    assert code[ExceptionBlock] == BlockOf(ExceptionBlock, n);
    RunPair(StoreException, StoreFlag(THROWN), ExceptionBlock, NOT_THROWN, None, Some(x));
    RunOne(StoreException, ExceptionBlock, NOT_THROWN, None, Some(x));
    RunOne(StoreFlag(THROWN), ExceptionBlock, NOT_THROWN, Some(x), Some(x));
    RoutePath(code, n, x, selector);
  }

  // ----- nested frames -----

  /** A generated function on the stack: its code, the types it catches, and its unwind table. */
  datatype Frame = Frame(code: Code, types: seq<int>, sites: seq<CallSite>, classInfo: seq<int>, pcOffset: nat)

  /** The table of a frame sends its invoke to the landing pad, with an action chain that lists the
      caught types in order and ends in a cleanup. */
  ghost predicate Linked(f: Frame) {
    && IsCode(f.code, |f.types|)
    && (forall i :: 0 <= i < |f.sites| ==> TypesKnown(f.sites[i].chain, f.classInfo))
    && Select(f.sites, f.pcOffset).Some?
    && ListsTypes(Select(f.sites, f.pcOffset).value.chain, f.types, f.classInfo)
  }

  ghost predicate ListsTypes(chain: seq<nat>, types: seq<int>, classInfo: seq<int>) {
    && |chain| == |types| + 1 && chain[|types|] == 0 && TypesKnown(chain, classInfo)
    && forall i :: 0 <= i < |types| ==> chain[i] > 0 && classInfo[chain[i] - 1] == types[i]
  }

  /** The 1-based position of the first `t` among the caught types, or 0. */
  function Position(types: seq<int>, t: int): (n: nat)
    ensures n <= |types|
  {
    if types == [] then 0
    else if types[0] == t then 1
    else
      var rest := Position(types[1..], t);
      if rest == 0 then 0 else rest + 1
  }

  lemma {:induction false} SelectorIsPosition(chain: seq<nat>, types: seq<int>, classInfo: seq<int>, t: int)
    requires ListsTypes(chain, types, classInfo)
    ensures FirstMatch(chain, classInfo, t) == Position(types, t)
    decreases |types|
  {
    if types == [] {
      assert chain[1..] == [];
    } else {
      var c, ts := chain[1..], types[1..];
      assert forall i :: 0 <= i < |ts| ==> c[i] == chain[i + 1] && ts[i] == types[i + 1];
      assert ListsTypes(c, ts, classInfo);
      SelectorIsPosition(c, ts, classInfo, t);
    }
  }

  /** What the frame does with `x`: the selector it is entered with. */
  function Caught(f: Frame, x: Thrown): nat {
    if x.ours then Position(f.types, x.kind) else 0
  }

  lemma FrameDecision(f: Frame, x: Thrown)
    requires Linked(f)
    ensures Personality(f.sites, f.classInfo, true, x.ours, x.kind, f.pcOffset)
         == if Caught(f, x) > 0 then HandlerFound else ContinueUnwind
    ensures var v := Personality(f.sites, f.classInfo, false, x.ours, x.kind, f.pcOffset);
            v.Install? && v.selector == Caught(f, x)
  {
    SelectorIsPosition(Select(f.sites, f.pcOffset).value.chain, f.types, f.classInfo, x.kind);
  }

  datatype Entry = Entry(frame: nat, event: Event)

  function Tag(k: nat, events: seq<Event>): seq<Entry> {
    seq(|events|, i requires 0 <= i < |events| => Entry(k, events[i]))
  }

  /** How a throw ends for the harness: the outermost frame returns to it, or the exception arrives. */
  datatype Ending = ReturnsToHarness | ReachesHarness | Broken

  /** The search phase, from frame `k` outwards. */
  function SearchPhase(frames: seq<Frame>, k: nat, x: Thrown): Option<nat>
    requires k <= |frames| && forall i :: 0 <= i < |frames| ==> Linked(frames[i])
    decreases |frames| - k
  {
    if k == |frames| then None
    else
      var f := frames[k];
      assert Linked(f);
      match Personality(f.sites, f.classInfo, true, x.ours, x.kind, f.pcOffset)
      case HandlerFound => Some(k)
      case _ => SearchPhase(frames, k + 1, x)
  }

  /** The frames from `k` outwards return one into the other. */
  function ReturnPhase(frames: seq<Frame>, k: nat): (Ending, seq<Entry>)
    requires k <= |frames|
    decreases |frames| - k
  {
    if k == |frames| then (ReturnsToHarness, [])
    else
      var entry := RunFrom(frames[k].code, EntryBlock, -1, None, None, 0, FUEL);
      var r := RunFrom(frames[k].code, AfterCall(frames[k].code, false), entry.flag, entry.storage, None, 0, FUEL);
      if !r.stop.Returned? then (Broken, Tag(k, r.events))
      else
        var (ending, rest) := ReturnPhase(frames, k + 1);
        (ending, Tag(k, r.events) + rest)
  }

  /** The cleanup phase, from frame `k` outwards: each landing pad resumes or returns. */
  function CleanupPhase(frames: seq<Frame>, k: nat, x: Thrown): (Ending, seq<Entry>)
    requires k <= |frames| && forall i :: 0 <= i < |frames| ==> Linked(frames[i])
    decreases |frames| - k
  {
    if k == |frames| then (ReachesHarness, [])
    else
      var f := frames[k];
      assert Linked(f);
      match Personality(f.sites, f.classInfo, false, x.ours, x.kind, f.pcOffset)
      case HandlerFound => (Broken, [])
      case ContinueUnwind => CleanupPhase(frames, k + 1, x)
      case Install(selector, _) =>
        var entry := RunFrom(f.code, EntryBlock, -1, None, None, 0, FUEL);
        var r := RunFrom(f.code, AfterCall(f.code, true), entry.flag, entry.storage, Some(x), selector, FUEL);
        if r.stop.Returned? then
          var (ending, rest) := ReturnPhase(frames, k + 1);
          (ending, Tag(k, r.events) + rest)
        else if r.stop == Resuming(Some(x)) then
          var (ending, rest) := CleanupPhase(frames, k + 1, x);
          (ending, Tag(k, r.events) + rest)
        else (Broken, Tag(k, r.events))
  }

  // ----- what nesting guarantees -----

  /** The innermost frame, from `k` outwards, that lists the type. */
  function Catcher(frames: seq<Frame>, k: nat, x: Thrown): Option<nat>
    requires k <= |frames|
    decreases |frames| - k
  {
    if k == |frames| then None
    else if Caught(frames[k], x) > 0 then Some(k)
    else Catcher(frames, k + 1, x)
  }

  /** What frame `k` does when the catcher is `c`. */
  function Expected(frames: seq<Frame>, c: Option<nat>, x: Thrown, k: nat): seq<Event>
    requires k < |frames| && (c.Some? ==> c.value < |frames| && Caught(frames[c.value], x) > 0)
  {
    if c.None? || k < c.value then ResumeTrace(x)
    else if k == c.value then CatchTrace(Caught(frames[k], x) - 1, x)
    else NormalTrace()
  }

  /** The events of one frame, in order. */
  function EventsOf(trace: seq<Entry>, k: nat): seq<Event> {
    if trace == [] then []
    else (if trace[0].frame == k then [trace[0].event] else []) + EventsOf(trace[1..], k)
  }

  lemma {:induction false} EventsOfConcat(a: seq<Entry>, b: seq<Entry>, k: nat)
    ensures EventsOf(a + b, k) == EventsOf(a, k) + EventsOf(b, k)
    decreases |a|
  {
    if a == [] {
      assert a + b == b;
    } else {
      var first := if a[0].frame == k then [a[0].event] else [];
      assert (a + b)[0] == a[0] && (a + b)[1..] == a[1..] + b;
      EventsOfConcat(a[1..], b, k);
      assert first + (EventsOf(a[1..], k) + EventsOf(b, k)) == (first + EventsOf(a[1..], k)) + EventsOf(b, k);
    }
  }

  lemma {:induction false} EventsOfTag(j: nat, events: seq<Event>, k: nat)
    ensures EventsOf(Tag(j, events), k) == if j == k then events else []
    decreases |events|
  {
    if events != [] {
      assert Tag(j, events)[1..] == Tag(j, events[1..]);
      EventsOfTag(j, events[1..], k);
    }
  }

  lemma {:induction false} ReturnPhaseIs(frames: seq<Frame>, k: nat, i: nat)
    requires k <= |frames| && forall j :: 0 <= j < |frames| ==> Linked(frames[j])
    ensures ReturnPhase(frames, k).0 == ReturnsToHarness
    ensures EventsOf(ReturnPhase(frames, k).1, i) == if k <= i < |frames| then NormalTrace() else []
    decreases |frames| - k
  {
    hide RunFrom, Tag, NormalTrace;
    if k < |frames| {
      var f := frames[k];
      EntryPath(f.code, |f.types|, -1, None);
      AfterCallIs(f.code, |f.types|);
      NormalPath(f.code, |f.types|);
      hide EventsOf, Linked, IsCode;
      ReturnPhaseIs(frames, k + 1, i);
      EventsOfConcat(Tag(k, NormalTrace()), ReturnPhase(frames, k + 1).1, i);
      EventsOfTag(k, NormalTrace(), i);
    }
  }

  lemma {:induction false} CatcherIs(frames: seq<Frame>, k: nat, x: Thrown)
    requires k <= |frames|
    ensures var c := Catcher(frames, k, x);
            && (c.Some? ==> k <= c.value < |frames| && Caught(frames[c.value], x) > 0)
            && (forall j :: k <= j < (if c.Some? then c.value else |frames|) ==> Caught(frames[j], x) == 0)
    decreases |frames| - k
  {
    if k < |frames| && Caught(frames[k], x) == 0 {
      CatcherIs(frames, k + 1, x);
    }
  }

  /** One frame of the cleanup phase: it catches and returns outwards, or resumes outwards. */
  lemma CleanupStep(frames: seq<Frame>, k: nat, x: Thrown)
    requires k < |frames| && forall j :: 0 <= j < |frames| ==> Linked(frames[j])
    ensures CleanupPhase(frames, k, x) ==
            if Caught(frames[k], x) > 0 then
              var (ending, rest) := ReturnPhase(frames, k + 1);
              (ending, Tag(k, CatchTrace(Caught(frames[k], x) - 1, x)) + rest)
            else
              var (ending, rest) := CleanupPhase(frames, k + 1, x);
              (ending, Tag(k, ResumeTrace(x)) + rest)
  {
    hide RunFrom, Personality, Linked, Caught, CatchTrace, ResumeTrace, ReturnPhase, Tag;
    var f := frames[k];
    LinkedCode(f, x);
    FrameDecision(f, x);
    EntryPath(f.code, |f.types|, -1, None);
    AfterCallIs(f.code, |f.types|);
    LandingPath(f.code, |f.types|, x, Caught(f, x));
  }

  lemma {:induction false} CleanupEnding(frames: seq<Frame>, k: nat, x: Thrown)
    requires k <= |frames| && forall j :: 0 <= j < |frames| ==> Linked(frames[j])
    ensures CleanupPhase(frames, k, x).0 == (if Catcher(frames, k, x).Some? then ReturnsToHarness else ReachesHarness)
    decreases |frames| - k
  {
    hide RunFrom, Personality, ReturnPhase, Linked, Caught, CatchTrace, ResumeTrace, NormalTrace, Tag;
    if k < |frames| {
      CleanupStep(frames, k, x);
      hide CleanupPhase;
      if Caught(frames[k], x) > 0 {
        ReturnPhaseIs(frames, k + 1, 0);
      } else {
        CleanupEnding(frames, k + 1, x);
      }
    }
  }

  lemma {:induction false} CleanupTrace(frames: seq<Frame>, k: nat, x: Thrown, i: nat)
    requires k <= |frames| && forall j :: 0 <= j < |frames| ==> Linked(frames[j])
    requires i < |frames|
    ensures var c := Catcher(frames, k, x);
            && (c.Some? ==> k <= c.value < |frames| && Caught(frames[c.value], x) > 0)
            && EventsOf(CleanupPhase(frames, k, x).1, i) == if k <= i then Expected(frames, c, x, i) else []
    decreases |frames| - k
  {
    hide RunFrom, Personality, ReturnPhase, Linked, Caught, CatchTrace, ResumeTrace, NormalTrace, Tag;
    CatcherIs(frames, k, x);
    if k < |frames| {
      CleanupStep(frames, k, x);
      hide CleanupPhase, EventsOf;
      if Caught(frames[k], x) > 0 {
        CaughtTrace(frames, k, x, i);
      } else {
        EventsOfTag(k, ResumeTrace(x), i);
        CleanupTrace(frames, k + 1, x, i);
        EventsOfConcat(Tag(k, ResumeTrace(x)), CleanupPhase(frames, k + 1, x).1, i);
      }
    }
  }

  /** The frame that catches runs its catch block; those behind it return. */
  lemma CaughtTrace(frames: seq<Frame>, k: nat, x: Thrown, i: nat)
    requires k < |frames| && i < |frames| && forall j :: 0 <= j < |frames| ==> Linked(frames[j])
    requires Caught(frames[k], x) > 0
    ensures EventsOf(CleanupPhase(frames, k, x).1, i) == if k <= i then Expected(frames, Some(k), x, i) else []
  {
    hide RunFrom, Personality, ReturnPhase, Linked, Caught, CatchTrace, ResumeTrace, NormalTrace, Tag, EventsOf;
    CleanupStep(frames, k, x);
    hide CleanupPhase;
    var events := CatchTrace(Caught(frames[k], x) - 1, x);
    EventsOfTag(k, events, i);
    ReturnPhaseIs(frames, k + 1, i);
    EventsOfConcat(Tag(k, events), ReturnPhase(frames, k + 1).1, i);
  }

  lemma LinkedCode(f: Frame, x: Thrown)
    requires Linked(f)
    ensures IsCode(f.code, |f.types|) && Caught(f, x) <= |f.types| && (Caught(f, x) > 0 ==> x.ours)
  {
  }

  lemma {:induction false} SearchPhaseIs(frames: seq<Frame>, k: nat, x: Thrown)
    requires k <= |frames| && forall i :: 0 <= i < |frames| ==> Linked(frames[i])
    ensures SearchPhase(frames, k, x) == Catcher(frames, k, x)
    decreases |frames| - k
  {
    hide Personality, Caught, Linked;
    if k < |frames| {
      FrameDecision(frames[k], x);
      SearchPhaseIs(frames, k + 1, x);
    }
  }

  /**
    Nested frames, to any depth. The search phase stops at the innermost frame that lists the type of
    the exception, and only there the cleanup phase ends in a normal return. Seen from each frame: inside
    the catcher it runs its finally block and resumes; the catcher runs the catch block of the first
    matching type, its finally block, and frees the exception; outside the catcher it sees a normal
    return. A foreign exception, or one that nobody lists, passes every finally block and reaches the
    harness.
  */
  lemma NestedFrames(frames: seq<Frame>, x: Thrown, i: nat)
    requires forall j :: 0 <= j < |frames| ==> Linked(frames[j])
    requires i < |frames|
    ensures var c := Catcher(frames, 0, x);
            && SearchPhase(frames, 0, x) == c
            && (!x.ours ==> c.None?)
            && (c.Some? ==> c.value < |frames| && Caught(frames[c.value], x) > 0)
            && CleanupPhase(frames, 0, x).0 == (if c.Some? then ReturnsToHarness else ReachesHarness)
            && EventsOf(CleanupPhase(frames, 0, x).1, i) == Expected(frames, c, x, i)
  {
    SearchPhaseIs(frames, 0, x);
    CatcherIs(frames, 0, x);
    hide SearchPhase, CleanupPhase, Expected, EventsOf, Linked;
    CleanupEnding(frames, 0, x);
    CleanupTrace(frames, 0, x, i);
  }

  function CountRan(events: seq<Event>, l: Label): nat {
    if events == [] then 0 else (if events[0] == Ran(l) then 1 else 0) + CountRan(events[1..], l)
  }

  /** Whatever is thrown, the finally block of every frame runs exactly once. */
  lemma FinallyRunsOnce(frames: seq<Frame>, x: Thrown, i: nat)
    requires forall j :: 0 <= j < |frames| ==> Linked(frames[j])
    requires i < |frames|
    ensures CountRan(EventsOf(CleanupPhase(frames, 0, x).1, i), FinallyBlock) == 1
  {
    hide CleanupPhase, SearchPhase, Linked, Catcher;
    NestedFrames(frames, x, i);
    var c := Catcher(frames, 0, x);
    CountRanThree(ResumeTrace(x));
    CountRanThree(NormalTrace());
    if c.Some? {
      var t := CatchTrace(Caught(frames[c.value], x) - 1, x);
      CountRanThree(t);
    }
  }

  lemma CountRanThree(t: seq<Event>)
    requires |t| >= 2 && t[0] != Ran(FinallyBlock)
    requires if t[1] == Ran(FinallyBlock) then FinallyBlockFree(t[2..])
             else |t| >= 3 && t[2] == Ran(FinallyBlock) && FinallyBlockFree(t[3..])
    ensures CountRan(t, FinallyBlock) == 1
  {
    assert t[1..][1..] == t[2..];
    NoneRan(t[2..]);
    if t[1] != Ran(FinallyBlock) {
      assert t[2..][1..] == t[3..];
      NoneRan(t[3..]);
    }
  }

  ghost predicate FinallyBlockFree(t: seq<Event>) {
    forall i :: 0 <= i < |t| ==> t[i] != Ran(FinallyBlock)
  }

  lemma {:induction false} NoneRan(t: seq<Event>)
    ensures FinallyBlockFree(t) ==> CountRan(t, FinallyBlock) == 0
    decreases |t|
  {
    if t != [] {
      NoneRan(t[1..]);
    }
  }

  // ----- seen from outside -----

  /** Entry `j` is the first of the type. */
  ghost predicate FirstOfType(types: seq<int>, kind: int, j: nat) {
    j < |types| && types[j] == kind && forall k :: 0 <= k < j ==> types[k] != kind
  }

  lemma {:induction false} PositionIsFirst(types: seq<int>, kind: int)
    ensures Position(types, kind) > 0 <==> kind in types
    ensures forall j: nat :: FirstOfType(types, kind, j) <==> Position(types, kind) == j + 1
    decreases |types|
  {
    if types != [] {
      var rest := types[1..];
      PositionIsFirst(rest, kind);
      assert forall k :: 0 <= k < |rest| ==> rest[k] == types[k + 1];
      forall j: nat
        ensures FirstOfType(types, kind, j) <==> Position(types, kind) == j + 1
      {
        if j > 0 {
          assert FirstOfType(types, kind, j) <==> types[0] != kind && FirstOfType(rest, kind, j - 1);
        }
      }
    }
  }

  /** Frame `c` is the innermost one that lists the type of an exception of this runtime. */
  ghost predicate Takes(frames: seq<Frame>, x: Thrown, c: nat) {
    x.ours && c < |frames| && x.kind in frames[c].types && forall j :: 0 <= j < c ==> x.kind !in frames[j].types
  }

  lemma CatcherTakes(frames: seq<Frame>, x: Thrown, c: nat)
    ensures Catcher(frames, 0, x) == Some(c) <==> Takes(frames, x, c)
    ensures Catcher(frames, 0, x) == None <==> !x.ours || forall j :: 0 <= j < |frames| ==> x.kind !in frames[j].types
  {
    CatcherIs(frames, 0, x);
    forall j | 0 <= j < |frames|
      ensures Caught(frames[j], x) > 0 <==> x.ours && x.kind in frames[j].types
    {
      PositionIsFirst(frames[j].types, x.kind);
    }
    hide Caught, Catcher;
  }

  /**
    What each frame does, whatever is thrown through however many frames: its finally block runs; a catch
    block runs in the innermost frame that lists the type only, and is that of its first entry for the type;
    it runs in front of the finally block, and behind that the exception is freed there and nowhere else;
    the frames outside of it, and no others, return normally.
  */
  lemma FrameRuns(frames: seq<Frame>, x: Thrown, i: nat, j: nat, y: Thrown)
    requires (forall k :: 0 <= k < |frames| ==> Linked(frames[k])) && i < |frames|
    ensures var done := EventsOf(CleanupPhase(frames, 0, x).1, i);
            && Ran(FinallyBlock) in done
            && (Ran(CatchBlock(j)) in done <==> Takes(frames, x, i) && FirstOfType(frames[i].types, x.kind, j))
            && (Freed(y) in done <==> Takes(frames, x, i) && y == x)
            && (Ran(NormalBlock) in done <==> exists c :: 0 <= c < i && Takes(frames, x, c))
            && (Takes(frames, x, i) && FirstOfType(frames[i].types, x.kind, j) ==>
                  |done| == 5 && done[1] == Ran(CatchBlock(j)) && done[2] == Ran(FinallyBlock) && done[4] == Freed(x))
  {
    NestedFrames(frames, x, i);
    var c := Catcher(frames, 0, x);
    CatcherTakes(frames, x, i);
    PositionIsFirst(frames[i].types, x.kind);
    if c.Some? {
      CatcherTakes(frames, x, c.value);
    }
    hide CleanupPhase, SearchPhase, Linked, Catcher, Position, FirstOfType, EventsOf, CatchTrace, ResumeTrace,
      NormalTrace;
    if d: nat :| d < i && Takes(frames, x, d) {
      CatcherTakes(frames, x, d);
    }
    hide Takes;
    ResumeMeans(x, j, y);
    NormalMeans(j, y);
    if c == Some(i) {
      CatchMeans(Position(frames[i].types, x.kind) - 1, x, j, y);
    }
  }

  lemma ResumeMeans(x: Thrown, j: nat, y: Thrown)
    ensures var t := ResumeTrace(x);
            Ran(FinallyBlock) in t && Ran(CatchBlock(j)) !in t && Freed(y) !in t && Ran(NormalBlock) !in t
  {
    assert ResumeTrace(x)[1] == Ran(FinallyBlock);
  }

  lemma NormalMeans(j: nat, y: Thrown)
    ensures var t := NormalTrace();
            Ran(FinallyBlock) in t && Ran(CatchBlock(j)) !in t && Freed(y) !in t && Ran(NormalBlock) in t
  {
    assert NormalTrace()[0] == Ran(NormalBlock) && NormalTrace()[1] == Ran(FinallyBlock);
  }

  lemma CatchMeans(p: nat, x: Thrown, j: nat, y: Thrown)
    ensures var t := CatchTrace(p, x);
            && Ran(FinallyBlock) in t && Ran(NormalBlock) !in t
            && (Ran(CatchBlock(j)) in t <==> j == p) && (Freed(y) in t <==> y == x)
            && |t| == 5 && t[1] == Ran(CatchBlock(p)) && t[2] == Ran(FinallyBlock) && t[4] == Freed(x)
  {
  }
}
