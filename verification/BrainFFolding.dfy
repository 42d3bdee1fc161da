/**
  Folding is faithful: running the folded symbols of a source is the same as running
  its characters. Every step of the folded program is one or more steps of the source,
  so one halts exactly when the other does.
*/
module BrainFFolding {
  import opened Common
  import opened BrainFSyntax
  import opened BrainFMachine

  /** A source configuration between two symbols, and the same point of the folded program. */
  ghost predicate Corresponds(c: Conf<char>, t: Conf<Sym>) {
    && Lex(c.code) == t.code
    && |c.loops| == |t.loops|
    && (forall k :: 0 <= k < |c.loops| ==> Lex(c.loops[k]) == t.loops[k])
    && c.m == t.m
    && c.status == t.status == Running
  }

  /** Both stopped, in the same way and with the same tape, head, input and output. */
  ghost predicate StoppedAlike(c: Conf<char>, t: Conf<Sym>) {
    && !c.Active() && !t.Active()
    && c.status == t.status && c.m == t.m
  }

  lemma {:induction false} SkipCommutes(pending: Option<Sym>, s: seq<char>, d: nat)
    requires pending.Some? ==> !pending.value.Loop? && !pending.value.EndLoop?
    ensures SkipSyms(LexFrom(pending, s), d) == Lex(SkipChars(s, d))
    decreases |s|
  {
    if s != [] {
      match CharSym(s[0])
      case None =>
        SkipCommutes(pending, s[1..], d);
      case Some(t) =>
        if t.Loop? || t.EndLoop? {
          LexFromAtomic(t, s[1..]);
          SkipCommutes(None, s[1..], d + 1);
          if d > 0 {
            SkipCommutes(None, s[1..], d - 1);
          }
          var rest := [t] + Lex(s[1..]);
          assert rest[1..] == Lex(s[1..]);
          if pending.Some? {
            assert LexFrom(pending, s) == [pending.value] + rest;
            assert LexFrom(pending, s)[1..] == rest;
          }
        } else if pending.None? {
          SkipCommutes(Some(t), s[1..], d);
        } else if Mergeable(pending.value, t) {
          SkipCommutes(Some(Merge(pending.value, t)), s[1..], d);
        } else {
          SkipCommutes(Some(t), s[1..], d);
          assert LexFrom(pending, s)[1..] == LexFrom(Some(t), s[1..]);
        }
    }
  }

  /** The machine after the run `p` of moves or changes has been carried out on `m`. */
  function After(p: Sym, m: Machine): Machine
    requires p.Move? || p.Change?
    requires p.Change? ==> m.OnTape()
  {
    if p.Move? then m.(head := m.head + p.v) else m.SetCell((m.Cell() + p.v) % 256)
  }

  /** One more character of a run. */
  lemma MergedStep(p: Sym, m: Machine, c: Conf<char>, t: Sym, checked: bool)
    requires (p.Move? || p.Change?) && (p.Change? ==> m.OnTape())
    requires c.m == After(p, m) && c.status.Running?
    requires c.code != [] && CharSym(c.code[0]) == Some(t) && Mergeable(p, t)
    ensures var c1 := StepChar(c, checked);
            && ((checked && c1.status.Trap?) || c1 == c.(code := c.code[1..], m := After(Merge(p, t), m)))
            && (checked && p.Move? && !c1.status.Trap? ==> c1.m.OnTape())
  {
    hide SkipChars;
  }

  /** The rest of a run: with `p` already carried out from `m`, the source completes the symbol. */
  lemma {:induction false} FinishRun(p: Sym, m: Machine, c: Conf<char>, checked: bool) returns (n: nat)
    requires p.Move? || p.Change?
    requires p.Change? ==> m.OnTape()
    requires c.m == After(p, m) && c.status.Running?
    requires checked && p.Move? ==> c.m.OnTape()
    ensures var whole := LexFrom(Some(p), c.code); var c' := RunChar(c, checked, n);
            (checked && c'.status.Trap?) ||
            (&& whole != [] && SameKind(p, whole[0])
             && c'.m == After(whole[0], m) && c'.status.Running?
             && (checked && p.Move? ==> c'.m.OnTape())
             && Lex(c'.code) == whole[1..] && c'.loops == c.loops)
    decreases |c.code|
  {
    n := 0;
    var s := c.code;
    if s != [] {
      match CharSym(s[0])
      case None =>
        var k := FinishRun(p, m, StepChar(c, checked), checked);
        n := k + 1;
      case Some(t) =>
        if Mergeable(p, t) {
          MergedStep(p, m, c, t, checked);
          hide StepChar, After;
          var c1 := StepChar(c, checked);
          if c1.status.Trap? {
            n := 1;
            assert RunChar(c, checked, 1) == RunChar(c1, checked, 0);
          } else {
            var k := FinishRun(Merge(p, t), m, c1, checked);
            n := k + 1;
          }
        } else {
          assert LexFrom(Some(p), s)[1..] == LexFrom(Some(t), s[1..]) == Lex(s);
        }
    }
  }

  /** The first command of the code, comments before it skipped. */
  lemma {:induction false} SkipComments(c: Conf<char>, checked: bool) returns (n: nat)
    requires c.status.Running?
    ensures var c' := RunChar(c, checked, n);
            && Lex(c'.code) == Lex(c.code) && c' == c.(code := c'.code)
            && (c'.code != [] ==> CharSym(c'.code[0]).Some?)
    decreases |c.code|
  {
    n := 0;
    if c.code != [] && CharSym(c.code[0]).None? {
      var k := SkipComments(StepChar(c, checked), checked);
      n := k + 1;
    }
  }

  /** One command that is a symbol by itself. */
  lemma AtomicStep(c: Conf<char>, t: Conf<Sym>, checked: bool)
    requires Corresponds(c, t) && c.code != [] && CharSym(c.code[0]).Some?
    requires var a := CharSym(c.code[0]).value; !a.Move? && !a.Change?
    ensures t.code != []
    ensures var c' := StepChar(c, checked); var t' := StepSym(t, checked);
            if t'.status.Running? then Corresponds(c', t') else StoppedAlike(c', t')
  {
    hide LexFrom, SkipChars, SkipSyms;
    var a := CharSym(c.code[0]).value;
    LexFirst(c.code);
    LexFromAtomic(a, c.code[1..]);
    assert t.code == [a] + Lex(c.code[1..]);
    assert t.code[1..] == Lex(c.code[1..]);
    SkipCommutes(None, c.code[1..], 0);
  }

  lemma LexFirst(s: seq<char>)
    requires s != [] && CharSym(s[0]).Some?
    ensures Lex(s) == LexFrom(CharSym(s[0]), s[1..])
  {
  }

  /** What relates the two programs after a step of the folded one. */
  ghost predicate Matches(c: Conf<char>, t: Conf<Sym>, checked: bool) {
    || (checked && c.status.Trap?)
    || (t.status.Running? && Corresponds(c, t))
    || (!t.status.Running? && StoppedAlike(c, t))
  }

  /** A whole run of moves or of changes. */
  lemma RunStep(c: Conf<char>, t: Conf<Sym>, checked: bool) returns (n: nat)
    requires Corresponds(c, t) && c.code != [] && CharSym(c.code[0]).Some?
    requires var a := CharSym(c.code[0]).value; a.Move? || a.Change?
    ensures n > 0 && t.code != [] && Matches(RunChar(c, checked, n), StepSym(t, checked), checked)
  {
    hide LexFrom, SkipChars, SkipSyms, RunChar;
    var a := CharSym(c.code[0]).value;
    LexFirst(c.code);
    LexFromFolded(Some(a), c.code[1..]);
    var c1 := StepChar(c, checked);
    if c1.status.Running? {
      var k := FinishRun(a, c.m, c1, checked);
      n := k + 1;
    } else {
      n := 1;
    }
    RunCharStep(c, checked, n);
    if n == 1 {
      RunCharZero(c1, checked);
    }
  }

  lemma RunCharStep(c: Conf<char>, checked: bool, n: nat)
    requires n > 0
    ensures RunChar(c, checked, n) == RunChar(StepChar(c, checked), checked, n - 1)
  {
  }

  lemma RunCharZero(c: Conf<char>, checked: bool)
    ensures RunChar(c, checked, 0) == c
  {
  }

  /** One step of the folded program is one or more steps of the source. */
  lemma FoldedStep(c: Conf<char>, t: Conf<Sym>, checked: bool) returns (n: nat)
    requires Corresponds(c, t) && t.code != []
    ensures n > 0 && Matches(RunChar(c, checked, n), StepSym(t, checked), checked)
  {
    hide LexFrom, StepChar, StepSym, RunChar;
    var n0 := SkipComments(c, checked);
    var c0 := RunChar(c, checked, n0);
    assert c0.code != [] by { LexNothing(); }
    var a := CharSym(c0.code[0]).value;
    var k := 1;
    if a.Move? || a.Change? {
      k := RunStep(c0, t, checked);
    } else {
      AtomicStep(c0, t, checked);
      RunCharStep(c0, checked, 1);
      RunCharZero(StepChar(c0, checked), checked);
    }
    RunCharPlus(c, checked, n0, k);
    n := n0 + k;
  }

  lemma LexNothing()
    ensures Lex([]) == []
  {
  }

  /** `k` steps of the folded program, as long as it is still active or has just come to its end. */
  lemma {:induction false} FoldedSteps(c: Conf<char>, t: Conf<Sym>, checked: bool, k: nat) returns (n: nat)
    requires Corresponds(c, t)
    ensures var c' := RunChar(c, checked, n); var t' := RunSym(t, checked, k);
            || (checked && c'.status.Trap?)
            || (t'.status.Running? && Corresponds(c', t') && (t'.code != [] ==> n >= k))
            || (!t'.status.Running? && StoppedAlike(c', t'))
    decreases k
  {
    n := 0;
    if k > 0 {
      if t.code == [] {
        InactiveSymStays(t, checked, k);
      } else {
        var n1 := FoldedStep(c, t, checked);
        var c1, t1 := RunChar(c, checked, n1), StepSym(t, checked);
        if checked && c1.status.Trap? {
          n := n1;
        } else if t1.status.Running? {
          var n2 := FoldedSteps(c1, t1, checked, k - 1);
          RunCharPlus(c, checked, n1, n2);
          n := n1 + n2;
        } else {
          InactiveSymStays(t1, checked, k - 1);
          n := n1;
        }
      }
    }
  }

  /** The folded program stops after some steps: so does the source. */
  lemma SourceStopsToo(c: Conf<char>, t: Conf<Sym>, checked: bool, k: nat) returns (n: nat)
    requires Corresponds(c, t) && !RunSym(t, checked, k).Active()
    ensures var c' := RunChar(c, checked, n);
            (checked && c'.status.Trap?) || StoppedAlike(c', RunSym(t, checked, k))
  {
    n := FoldedSteps(c, t, checked, k);
    var c', t' := RunChar(c, checked, n), RunSym(t, checked, k);
    if !(checked && c'.status.Trap?) && t'.status.Running? {
      var j := SkipComments(c', checked);
      RunCharPlus(c, checked, n, j);
      n := n + j;
      if RunChar(c, checked, n).code != [] {
        FirstSymbol(RunChar(c, checked, n).code);
      }
    }
  }

  lemma FirstSymbol(s: seq<char>)
    requires s != [] && CharSym(s[0]).Some?
    ensures Lex(s) != []
  {
    LexFromFolded(CharSym(s[0]), s[1..]);
  }

  /** The source stops after `n` steps: so does the folded program, and in the same way. */
  lemma FoldedStopsToo(c: Conf<char>, t: Conf<Sym>, checked: bool, n: nat)
    requires Corresponds(c, t) && !RunChar(c, checked, n).Active()
    requires checked ==> !RunChar(c, checked, n).status.Trap?
    ensures !RunSym(t, checked, n + 1).Active()
    ensures StoppedAlike(RunChar(c, checked, n), RunSym(t, checked, n + 1))
  {
    FoldedIsInactive(c, t, checked, n);
    var m := SourceStopsToo(c, t, checked, n + 1);
    StoppedAfter(c, checked, n, m);
  }

  lemma FoldedIsInactive(c: Conf<char>, t: Conf<Sym>, checked: bool, n: nat)
    requires Corresponds(c, t) && !RunChar(c, checked, n).Active()
    requires checked ==> !RunChar(c, checked, n).status.Trap?
    ensures !RunSym(t, checked, n + 1).Active()
  {
    var t' := RunSym(t, checked, n + 1);
    if t'.Active() {
      var m := FoldedSteps(c, t, checked, n + 1);
      StoppedAfter(c, checked, n, m);
      assert false;
    }
  }

  /** Runs of different lengths that have both stopped stopped in the same place. */
  lemma StoppedAfter(c: Conf<char>, checked: bool, n: nat, m: nat)
    requires !RunChar(c, checked, n).Active()
    ensures m >= n ==> RunChar(c, checked, m) == RunChar(c, checked, n)
    ensures !RunChar(c, checked, m).Active() ==> RunChar(c, checked, m) == RunChar(c, checked, n)
  {
    if m >= n {
      RunCharPlus(c, checked, n, m - n);
      InactiveCharStays(RunChar(c, checked, n), checked, m - n);
    } else if !RunChar(c, checked, m).Active() {
      RunCharPlus(c, checked, m, n - m);
      InactiveCharStays(RunChar(c, checked, m), checked, n - m);
    }
  }

  /**
    Folding preserves meaning, with no condition on the source: the characters stop exactly
    when the folded symbols do, and then in the same way, with the same tape, head, unread
    input and output.
  */
  lemma FoldingPreservesMeaning(src: seq<char>, mem: nat, input: seq<Byte>)
    ensures var c, t := Initial(src, mem, input), Initial(Lex(src), mem, input);
            && (CharStops(c, false) <==> SymStops(t, false))
            && (forall n: nat, k: nat ::
                  !RunChar(c, false, n).Active() && !RunSym(t, false, k).Active() ==>
                    StoppedAlike(RunChar(c, false, n), RunSym(t, false, k)))
  {
    var c, t := Initial(src, mem, input), Initial(Lex(src), mem, input);
    if n: nat :| !RunChar(c, false, n).Active() {
      FoldedStopsToo(c, t, false, n);
    }
    forall k: nat | !RunSym(t, false, k).Active()
      ensures CharStops(c, false)
      ensures forall n: nat :: !RunChar(c, false, n).Active() ==>
                StoppedAlike(RunChar(c, false, n), RunSym(t, false, k))
    {
      var m := SourceStopsToo(c, t, false, k);
      forall n: nat | !RunChar(c, false, n).Active()
        ensures StoppedAlike(RunChar(c, false, n), RunSym(t, false, k))
      {
        StoppedAfter(c, false, m, n);
      }
    }
  }
}
