/**
  The barrier of ParallelJIT, as interleaved steps of any number of threads over a mutex and a
  condition variable. A waiting thread is woken by a broadcast only.
*/
module Barrier {
  import opened Common

  /** A caller of block(), or of releaseThreads(num). */
  datatype Role = Blocker | Releaser(num: nat)

  /** Where a caller stands: before the lock, inside with the mutex, asleep on the condition, woken and
      again in need of the mutex, about to unlock, returned. */
  datatype Pc = Start | Locked | Waiting | Woken | Exiting | Done

  datatype State = State(n: nat, waitFor: nat, owner: Option<nat>, pc: map<nat, Pc>)

  type Roles = map<nat, Role>

  predicate Enabled(s: State, t: nat) {
    && t in s.pc
    && match s.pc[t]
       case Start => s.owner.None?
       case Woken => s.owner.None?
       case Locked => s.owner == Some(t)
       case Exiting => s.owner == Some(t)
       case Waiting => false
       case Done => false
  }

  /** unblockThreads: both counters are reset, and everyone who sleeps is woken. */
  function Unblock(s: State): State {
    s.(n := 0, waitFor := 0, pc := map t | t in s.pc :: if s.pc[t].Waiting? then Woken else s.pc[t])
  }

  function Sleep(s: State, t: nat): State
    requires t in s.pc
  {
    s.(owner := None, pc := s.pc[t := Waiting])
  }

  /** The body of block, between taking the mutex and waiting or leaving. */
  function BlockBody(s: State, t: nat): State
    requires t in s.pc
  {
    var s1 := s.(n := s.n + 1);
    if s1.waitFor > 0 && s1.n == s1.waitFor then Unblock(s1.(pc := s.pc[t := Exiting])) else Sleep(s1, t)
  }

  /** The body of releaseThreads. */
  function ReleaseBody(s: State, t: nat, num: nat): State
    requires t in s.pc
  {
    if s.n >= num then Unblock(s.(pc := s.pc[t := Exiting])) else Sleep(s.(waitFor := num), t)
  }

  /** One step of thread `t`. */
  function Step(s: State, roles: Roles, t: nat): State
    requires Enabled(s, t) && s.pc.Keys == roles.Keys
  {
    if s.pc[t].Start? then s.(owner := Some(t), pc := s.pc[t := Locked])
    else if s.pc[t].Woken? then s.(owner := Some(t), pc := s.pc[t := Exiting])
    else if s.pc[t].Exiting? then s.(owner := None, pc := s.pc[t := Done])
    else if roles[t].Blocker? then BlockBody(s, t)
    else ReleaseBody(s, t, roles[t].num)
  }

  function Initial(roles: Roles): State {
    State(0, 0, None, map t | t in roles :: Start)
  }

  /** `sched` is a possible interleaving from `s`. */
  predicate Possible(s: State, roles: Roles, sched: seq<nat>)
    requires s.pc.Keys == roles.Keys
    decreases |sched|
  {
    sched == [] || (Enabled(s, sched[0]) && Possible(Step(s, roles, sched[0]), roles, sched[1..]))
  }

  function After(s: State, roles: Roles, sched: seq<nat>): (s': State)
    requires s.pc.Keys == roles.Keys && Possible(s, roles, sched)
    ensures s'.pc.Keys == roles.Keys
    decreases |sched|
  {
    if sched == [] then s else After(Step(s, roles, sched[0]), roles, sched[1..])
  }

  // ----- the program -----

  /** The monitor object; each method is one atomic step of its caller. */
  class WaitForThreads {
    var n: nat
    var waitFor: nat
    var owner: Option<nat>
    var pc: map<nat, Pc>

    function Snapshot(): State
      reads this
    {
      State(n, waitFor, owner, pc)
    }

    method Lock(t: nat)
      requires Enabled(Snapshot(), t) && pc[t].Start?
      modifies this
      ensures Snapshot() == old(Snapshot()).(owner := Some(t), pc := old(pc)[t := Locked])
    {
      owner := Some(t);
      pc := pc[t := Locked];
    }

    method Unlock(t: nat)
      requires Enabled(Snapshot(), t) && pc[t].Exiting?
      modifies this
      ensures Snapshot() == old(Snapshot()).(owner := None, pc := old(pc)[t := Done])
    {
      owner := None;
      pc := pc[t := Done];
    }

    method UnblockThreads()
      modifies this
      ensures Snapshot() == Unblock(old(Snapshot()))
    {
      n := 0;
      waitFor := 0;
      pc := map t | t in pc :: if pc[t].Waiting? then Woken else pc[t];
    }

    method CondWait(t: nat)
      requires t in pc
      modifies this
      ensures Snapshot() == Sleep(old(Snapshot()), t)
    {
      owner := None;
      pc := pc[t := Waiting];
    }

    /** The other half of a wait: the woken caller takes the mutex again. */
    method Reacquire(t: nat)
      requires Enabled(Snapshot(), t) && pc[t].Woken?
      modifies this
      ensures Snapshot() == old(Snapshot()).(owner := Some(t), pc := old(pc)[t := Exiting])
    {
      owner := Some(t);
      pc := pc[t := Exiting];
    }

    /** block() behind its lock; its assertion is the precondition that callers never break. */
    method Block(t: nat, ghost roles: Roles)
      requires Enabled(Snapshot(), t) && pc[t].Locked? && Inv(Snapshot(), roles) && roles[t].Blocker?
      modifies this
      ensures Snapshot() == Step(old(Snapshot()), roles, t)
    {
      n := n + 1;
      assert waitFor == 0 || n <= waitFor;
      if waitFor > 0 && n == waitFor {
        pc := pc[t := Exiting];
        UnblockThreads();
      } else {
        CondWait(t);
      }
    }

    /** releaseThreads(num) behind its lock. */
    method ReleaseThreads(t: nat, num: nat, ghost roles: Roles)
      requires Enabled(Snapshot(), t) && pc[t].Locked? && Inv(Snapshot(), roles) && roles[t] == Releaser(num)
      modifies this
      ensures Snapshot() == Step(old(Snapshot()), roles, t)
    {
      if n >= num {
        pc := pc[t := Exiting];
        UnblockThreads();
      } else {
        waitFor := num;
        CondWait(t);
      }
    }
  }

  // ----- any number of callers -----

  function Asleep(s: State, roles: Roles): set<nat> {
    set t | t in s.pc && t in roles && roles[t].Blocker? && s.pc[t].Waiting?
  }

  /** The mutex has one owner, and it is inside; `n` counts the sleeping block callers, and stays
      below the number waited for. */
  ghost predicate Inv(s: State, roles: Roles) {
    && s.pc.Keys == roles.Keys
    && (forall t :: t in s.pc ==> (s.owner == Some(t) <==> s.pc[t].Locked? || s.pc[t].Exiting?))
    && (s.owner.Some? ==> s.owner.value in s.pc)
    && s.n == |Asleep(s, roles)|
    && (s.waitFor == 0 || s.n < s.waitFor)
  }

  lemma InitialInv(roles: Roles)
    ensures Inv(Initial(roles), roles)
  {
    assert Asleep(Initial(roles), roles) == {};
  }

  lemma AsleepMore(s: State, roles: Roles, s': State, t: nat)
    requires t in s.pc && t in roles && roles[t].Blocker? && !s.pc[t].Waiting? && s'.pc == s.pc[t := Waiting]
    ensures |Asleep(s', roles)| == |Asleep(s, roles)| + 1
  {
    assert Asleep(s', roles) == Asleep(s, roles) + {t};
  }

  lemma AsleepSame(s: State, roles: Roles, s': State, t: nat)
    requires t in s.pc && s'.pc.Keys == s.pc.Keys && !s.pc[t].Waiting?
    requires forall u :: u in s.pc && u != t ==> s'.pc[u] == s.pc[u]
    requires t in roles && roles[t].Blocker? ==> !s'.pc[t].Waiting?
    ensures Asleep(s', roles) == Asleep(s, roles)
  {
  }

  lemma AsleepNone(s: State, roles: Roles)
    ensures Asleep(Unblock(s), roles) == {}
  {
  }

  lemma StepInv(s: State, roles: Roles, t: nat)
    requires Inv(s, roles) && Enabled(s, t)
    ensures Inv(Step(s, roles, t), roles)
  {
    var s' := Step(s, roles, t);
    if s.pc[t].Locked? {
      if s'.owner.Some? {
        AsleepNone(s'.(n := 1), roles);
        assert Asleep(s', roles) == {};
      } else if roles[t].Blocker? {
        AsleepMore(s, roles, s', t);
      } else {
        AsleepSame(s, roles, s', t);
      }
    } else {
      AsleepSame(s, roles, s', t);
    }
  }

  /** The invariant, for any callers and any interleaving; so the assertion in block never fails. */
  lemma {:induction false} AlwaysInv(s: State, roles: Roles, sched: seq<nat>)
    requires Inv(s, roles) && Possible(s, roles, sched)
    ensures Inv(After(s, roles, sched), roles)
    decreases |sched|
  {
    if sched != [] {
      StepInv(s, roles, sched[0]);
      AlwaysInv(Step(s, roles, sched[0]), roles, sched[1..]);
    }
  }

  /** The waits are not in a loop: a wakeup without broadcast would break the invariant. */
  lemma SpuriousWakeupBreaksInv()
    ensures exists s: State, roles: Roles, t: nat ::
              t in s.pc && s.pc[t].Waiting? && Inv(s, roles) && !Inv(s.(pc := s.pc[t := Woken]), roles)
  {
    var roles: Roles := map[0 := Blocker];
    var s := State(1, 0, None, map[0 := Waiting]);
    assert Asleep(s, roles) == {0};
    var s' := s.(pc := s.pc[0 := Woken]);
    assert Asleep(s', roles) == {};
    assert Inv(s, roles) && !Inv(s', roles);
  }

  // ----- k callers of block, one of releaseThreads(k) -----

  function Blockers(roles: Roles): set<nat> {
    set t | t in roles && roles[t].Blocker?
  }

  /** `r` is the only caller of releaseThreads, for as many threads as call block. */
  ghost predicate Program(roles: Roles, r: nat, k: nat) {
    && k >= 1 && r in roles && roles[r] == Releaser(k)
    && (forall t :: t in roles && t != r ==> roles[t].Blocker?)
    && |Blockers(roles)| == k
  }

  predicate Entering(p: Pc) {
    p.Start? || p.Locked? || p.Waiting?
  }

  /** Nobody has been released yet. */
  ghost predicate Gathering(s: State, r: nat, k: nat) {
    && r in s.pc
    && (forall t :: t in s.pc ==> Entering(s.pc[t]))
    && s.waitFor == (if s.pc[r].Waiting? then k else 0)
  }

  /** Everybody has been released. */
  ghost predicate Leaving(s: State) {
    && s.n == 0 && s.waitFor == 0
    && forall t :: t in s.pc ==> !Entering(s.pc[t])
  }

  lemma SameSet(a: set<nat>, b: set<nat>)
    requires a <= b && |a| >= |b|
    ensures a == b
  {
    assert b == a + (b - a);
    assert |b - a| == 0;
  }

  /** All block callers but `t` are asleep. */
  lemma AllOthersAsleep(s: State, roles: Roles, r: nat, k: nat, t: nat)
    requires Inv(s, roles) && Program(roles, r, k) && t in Blockers(roles) && !s.pc[t].Waiting? && s.n + 1 == k
    ensures forall u :: u in Blockers(roles) && u != t ==> s.pc[u].Waiting?
  {
    SameSet(Asleep(s, roles), Blockers(roles) - {t});
    assert forall u :: u in Blockers(roles) && u != t ==> u in Asleep(s, roles);
  }

  lemma AllAsleep(s: State, roles: Roles, r: nat, k: nat)
    requires Inv(s, roles) && Program(roles, r, k) && s.n >= k
    ensures forall u :: u in Blockers(roles) ==> s.pc[u].Waiting?
  {
    SameSet(Asleep(s, roles), Blockers(roles));
    assert forall u :: u in Blockers(roles) ==> u in Asleep(s, roles);
  }

  ghost predicate Phased(s: State, roles: Roles, r: nat, k: nat) {
    Inv(s, roles) && Program(roles, r, k) && (Gathering(s, r, k) || Leaving(s))
  }

  lemma StepPhased(s: State, roles: Roles, r: nat, k: nat, t: nat)
    requires Phased(s, roles, r, k) && Enabled(s, t)
    ensures Phased(Step(s, roles, t), roles, r, k)
  {
    StepInv(s, roles, t);
    var s' := Step(s, roles, t);
    if Gathering(s, r, k) && s.pc[t].Locked? {
      if roles[t].Blocker? {
        assert t in Blockers(roles);
        if s.waitFor > 0 && s.n + 1 == s.waitFor {
          AllOthersAsleep(s, roles, r, k, t);
          forall u | u in s'.pc
            ensures !Entering(s'.pc[u])
          {
            if u != t && u != r {
              assert u in Blockers(roles);
            }
          }
          assert Leaving(s');
        } else {
          assert Gathering(s', r, k);
        }
      } else if s.n >= k {
        AllAsleep(s, roles, r, k);
        forall u | u in s'.pc
          ensures !Entering(s'.pc[u])
        {
          if u != t {
            assert u in Blockers(roles);
          }
        }
        assert Leaving(s');
      } else {
        assert Gathering(s', r, k);
      }
    }
  }

  lemma {:induction false} AlwaysPhased(s: State, roles: Roles, r: nat, k: nat, sched: seq<nat>)
    requires Phased(s, roles, r, k) && Possible(s, roles, sched)
    ensures Phased(After(s, roles, sched), roles, r, k)
    decreases |sched|
  {
    hide Gathering, Leaving, Program, Enabled, Step;
    if sched != [] {
      StepPhased(s, roles, r, k, sched[0]);
      AlwaysPhased(Step(s, roles, sched[0]), roles, r, k, sched[1..]);
    }
  }

  lemma InitialPhased(roles: Roles, r: nat, k: nat)
    requires Program(roles, r, k)
    ensures Phased(Initial(roles), roles, r, k)
  {
    InitialInv(roles);
  }

  /**
    Safety, in every interleaving: as soon as anyone is on the way out, or gone, all k callers of
    block have entered and the release has been called.
  */
  lemma NobodyLeavesEarly(roles: Roles, r: nat, k: nat, sched: seq<nat>, t: nat)
    requires Program(roles, r, k) && Possible(Initial(roles), roles, sched) && t in roles
    ensures var s := After(Initial(roles), roles, sched);
            !Entering(s.pc[t]) ==> forall u :: u in s.pc ==> !s.pc[u].Start? && !s.pc[u].Locked?
  {
    InitialPhased(roles, r, k);
    AlwaysPhased(Initial(roles), roles, r, k, sched);
  }

  // ----- progress -----

  function Rank(p: Pc): nat {
    match p
    case Start => 5
    case Locked => 4
    case Waiting => 3
    case Woken => 2
    case Exiting => 1
    case Done => 0
  }

  /** The steps that the threads below `bound` still have to make, at most. */
  function Remaining(pc: map<nat, Pc>, bound: nat): nat {
    if bound == 0 then 0
    else Remaining(pc, bound - 1) + (if bound - 1 in pc then Rank(pc[bound - 1]) else 0)
  }

  lemma {:induction false} RemainingFalls(a: map<nat, Pc>, b: map<nat, Pc>, t: nat, bound: nat)
    requires a.Keys == b.Keys && t in a && Rank(b[t]) < Rank(a[t])
    requires forall u :: u in a ==> Rank(b[u]) <= Rank(a[u])
    ensures Remaining(b, bound) <= Remaining(a, bound)
    ensures t < bound ==> Remaining(b, bound) < Remaining(a, bound)
    decreases bound
  {
    if bound > 0 {
      RemainingFalls(a, b, t, bound - 1);
    }
  }

  /** Every step of anyone brings all callers closer to their return. */
  lemma StepFalls(s: State, roles: Roles, t: nat, bound: nat)
    requires Inv(s, roles) && Enabled(s, t) && t < bound
    ensures Remaining(Step(s, roles, t).pc, bound) < Remaining(s.pc, bound)
  {
    RemainingFalls(s.pc, Step(s, roles, t).pc, t, bound);
  }

  /** While someone has not returned, someone can make a step. */
  lemma NeverStuck(s: State, roles: Roles, r: nat, k: nat)
    requires Phased(s, roles, r, k) && exists t :: t in s.pc && !s.pc[t].Done?
    ensures exists t :: Enabled(s, t)
  {
    var t :| t in s.pc && !s.pc[t].Done?;
    if s.owner.Some? {
      assert Enabled(s, s.owner.value);
    } else if Leaving(s) {
      assert Enabled(s, t);
    } else if s.pc[r].Start? {
      assert Enabled(s, r);
    } else {
      var u := SomeoneIsAwake(s, roles, r, k);
      assert Enabled(s, u);
    }
  }

  /** The release waits only as long as some caller of block is not yet asleep. */
  lemma SomeoneIsAwake(s: State, roles: Roles, r: nat, k: nat) returns (u: nat)
    requires Inv(s, roles) && Program(roles, r, k) && s.waitFor == k
    ensures u in Blockers(roles) && !s.pc[u].Waiting?
  {
    assert Asleep(s, roles) != Blockers(roles);
    u :| u in Blockers(roles) && u !in Asleep(s, roles);
  }

  /**
    Liveness: from every reachable state every continuation ends after at most `Remaining` steps, and one
    that cannot be continued has returned all k + 1 callers.
  */
  lemma {:induction false} AllReturn(s: State, roles: Roles, r: nat, k: nat, sched: seq<nat>, bound: nat)
    requires Phased(s, roles, r, k) && Possible(s, roles, sched) && forall t :: t in roles ==> t < bound
    ensures |sched| + Remaining(After(s, roles, sched).pc, bound) <= Remaining(s.pc, bound)
    ensures var s' := After(s, roles, sched);
            (forall t :: !Enabled(s', t)) ==> forall t :: t in s'.pc ==> s'.pc[t].Done?
    decreases |sched|
  {
    hide Enabled, Step, Remaining, Asleep;
    if sched == [] {
      if t :| t in s.pc && !s.pc[t].Done? {
        NeverStuck(s, roles, r, k);
      }
    } else {
      StepPhased(s, roles, r, k, sched[0]);
      EnabledIsCaller(s, sched[0]);
      StepFalls(s, roles, sched[0], bound);
      AllReturn(Step(s, roles, sched[0]), roles, r, k, sched[1..], bound);
    }
  }

  lemma EnabledIsCaller(s: State, t: nat)
    requires Enabled(s, t)
    ensures t in s.pc
  {
  }

  lemma {:induction false} RemainingAtMost(pc: map<nat, Pc>, bound: nat)
    ensures Remaining(pc, bound) <= 5 * bound
    decreases bound
  {
    if bound > 0 {
      RemainingAtMost(pc, bound - 1);
    }
  }

  /**
    The whole program: no interleaving has more than five steps per thread number, and one that cannot go
    on has let all k callers of block, and the caller of releaseThreads, return.
  */
  lemma EveryoneReturns(roles: Roles, r: nat, k: nat, sched: seq<nat>, bound: nat)
    requires Program(roles, r, k) && Possible(Initial(roles), roles, sched) && forall t :: t in roles ==> t < bound
    ensures |sched| <= 5 * bound
    ensures var s := After(Initial(roles), roles, sched);
            (forall t :: !Enabled(s, t)) ==> forall t :: t in roles ==> s.pc[t].Done?
  {
    hide Phased, Program;
    InitialPhased(roles, r, k);
    AllReturn(Initial(roles), roles, r, k, sched, bound);
    RemainingAtMost(Initial(roles).pc, bound);
  }
}
