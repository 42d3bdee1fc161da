/**
  The chain of alias analyses. Every layer may answer some questions itself; the rest goes to the next
  layer, and the answers about calls are combined as bit masks. Soundness is stated against a
  concrete memory: the bytes that pointers denote and that instructions really touch.
*/
module AliasAnalysis {
  import opened Common

  type Value = nat
  type Address = int

  /** ~0U: nothing is known about the size. */
  const UNKNOWN: nat := 0xFFFF_FFFF

  datatype AliasResult = NoAlias | MayAlias | MustAlias

  /** The two bits Ref and Mod. */
  type ModRefResult = bv2

  const NO_MOD_REF: ModRefResult := 0
  const REF: ModRefResult := 1
  const MOD: ModRefResult := 2
  const MOD_REF: ModRefResult := 3

  datatype Behaviour =
    DoesNotAccessMemory | AccessesArguments | AccessesArgumentsAndGlobals | OnlyReadsMemory | UnknownBehaviour

  /** A called function: its attributes, and the behaviour of the intrinsic it may be. */
  datatype Function = Function(id: nat, noAccess: bool, onlyReads: bool, intrinsic: Option<Behaviour>)

  /** A call: its attributes, the function if it is known, and the arguments. */
  datatype CallSite = CallSite(id: nat, noAccess: bool, onlyReads: bool, callee: Option<Function>, args: seq<Value>)

  datatype Instr =
    | Load(ptr: Value, ty: nat)
    | Store(ptr: Value, ty: nat)
    | Call(cs: CallSite)
    | Invoke(cs: CallSite)
    | VAArg(id: nat)
    | Other

  /** What one analysis overrides; None stands for the inherited method. */
  datatype Layer = Layer(
    alias: Option<(Value, nat, Value, nat) -> AliasResult>,
    constant: Option<Value -> bool>,
    behaviour: Option<Function -> Behaviour>,
    typeSize: Option<nat -> nat>)

  /** An analysis, and the one it chains to. */
  datatype Chain = Chain(layer: Layer, next: Option<Chain>)

  /** The inherited methods assert that there is a next analysis; so the last one answers itself. */
  ghost predicate Closed(c: Chain) {
    if c.next.None? then c.layer.alias.Some? && c.layer.constant.Some? else Closed(c.next.value)
  }

  // ----- queries -----

  function Alias(c: Chain, v1: Value, s1: nat, v2: Value, s2: nat): AliasResult
    requires Closed(c)
  {
    match c.layer.alias
    case Some(f) => f(v1, s1, v2, s2)
    case None => Alias(c.next.value, v1, s1, v2, s2)
  }

  predicate PointsToConstantMemory(c: Chain, p: Value)
    requires Closed(c)
  {
    match c.layer.constant
    case Some(f) => f(p)
    case None => PointsToConstantMemory(c.next.value, p)
  }

  function TypeStoreSize(c: Chain, ty: nat): nat {
    if c.layer.typeSize.Some? then c.layer.typeSize.value(ty) else UNKNOWN
  }

  function FunctionBehaviour(c: Chain, f: Option<Function>): Behaviour {
    if f.None? then UnknownBehaviour
    else if c.layer.behaviour.Some? then c.layer.behaviour.value(f.value)
    else if f.value.noAccess then DoesNotAccessMemory
    else if f.value.onlyReads then OnlyReadsMemory
    else if f.value.intrinsic.Some? then f.value.intrinsic.value
    else UnknownBehaviour
  }

  function CallBehaviour(c: Chain, cs: CallSite): Behaviour {
    if cs.noAccess then DoesNotAccessMemory
    else
      var b := FunctionBehaviour(c, cs.callee);
      if b != DoesNotAccessMemory && cs.onlyReads then OnlyReadsMemory else b
  }

  predicate SomeArgumentAliases(c: Chain, args: seq<Value>, p: Value, size: nat)
    requires Closed(c)
  {
    exists i :: 0 <= i < |args| && Alias(c, args[i], UNKNOWN, p, size) != NoAlias
  }

  /** What this analysis knows about a call before it asks the next one. */
  function CallMask(c: Chain, cs: CallSite, p: Value, size: nat): ModRefResult
    requires Closed(c)
  {
    var b := CallBehaviour(c, cs);
    if b == DoesNotAccessMemory then NO_MOD_REF
    else if b == OnlyReadsMemory then REF
    else if b == AccessesArguments && !SomeArgumentAliases(c, cs.args, p, size) then NO_MOD_REF
    else MOD_REF
  }

  function CallModRef(c: Chain, cs: CallSite, p: Value, size: nat): ModRefResult
    requires Closed(c)
  {
    var mask := CallMask(c, cs, p, size);
    if mask == NO_MOD_REF || c.next.None? then mask
    else
      var mask' := if mask & MOD != 0 && PointsToConstantMemory(c.next.value, p) then mask & !MOD else mask;
      mask' & CallModRef(c.next.value, cs, p, size)
  }

  function InstrModRef(c: Chain, i: Instr, p: Value, size: nat): ModRefResult
    requires Closed(c)
  {
    match i
    case Load(q, ty) => if Alias(c, q, TypeStoreSize(c, ty), p, size) != NoAlias then REF else NO_MOD_REF
    case Store(q, ty) =>
      if Alias(c, q, TypeStoreSize(c, ty), p, size) == NoAlias then NO_MOD_REF
      else if PointsToConstantMemory(c, p) then NO_MOD_REF
      else MOD
    case Call(cs) => CallModRef(c, cs, p, size)
    case Invoke(cs) => CallModRef(c, cs, p, size)
    case VAArg(_) => MOD_REF
    case Other => NO_MOD_REF
  }

  // ----- what the answers are, exactly -----

  predicate Modifies(r: ModRefResult) {
    r & MOD != 0
  }

  predicate References(r: ModRefResult) {
    r & REF != 0
  }

  /** The four answers differ in their two bits. */
  lemma BitsMean()
    ensures !References(NO_MOD_REF) && !Modifies(NO_MOD_REF) && References(REF) && !Modifies(REF)
    ensures !References(MOD) && Modifies(MOD) && References(MOD_REF) && Modifies(MOD_REF)
    ensures NO_MOD_REF == 0 && REF == 1 && MOD == 2 && MOD_REF == 3
  {
    BitsOf(0);
    BitsOf(1);
    BitsOf(2);
    BitsOf(3);
  }

  lemma BitsOf(r: ModRefResult)
    ensures References(r) <==> r == 1 || r == 3
    ensures Modifies(r) <==> r == 2 || r == 3
    ensures r == 0 || r == 1 || r == 2 || r == 3
  {
  }

  lemma MaskBits(a: ModRefResult, b: ModRefResult)
    ensures References(a & b) <==> References(a) && References(b)
    ensures Modifies(a & b) <==> Modifies(a) && Modifies(b)
    ensures References(a & !MOD) <==> References(a)
    ensures !Modifies(a & !MOD)
  {
  }

  ghost function Length(c: Chain): nat {
    if c.next.None? then 1 else 1 + Length(c.next.value)
  }

  /** The analysis `k` steps down the chain. */
  ghost function From(c: Chain, k: nat): (d: Chain)
    requires Closed(c) && k < Length(c)
    ensures Closed(d)
  {
    if k == 0 then c else From(c.next.value, k - 1)
  }

  /** The first analysis that answers alias queries itself answers them, as they were asked. */
  lemma {:induction false} AliasIsFirst(c: Chain, k: nat, v1: Value, s1: nat, v2: Value, s2: nat)
    requires Closed(c) && k < Length(c) && From(c, k).layer.alias.Some?
    requires forall j :: 0 <= j < k ==> From(c, j).layer.alias.None?
    ensures Alias(c, v1, s1, v2, s2) == From(c, k).layer.alias.value(v1, s1, v2, s2)
    decreases k
  {
    if k > 0 {
      assert From(c, 0).layer.alias.None?;
      forall j | 0 <= j < k - 1
        ensures From(c.next.value, j).layer.alias.None?
      {
        assert From(c, j + 1).layer.alias.None?;
      }
      AliasIsFirst(c.next.value, k - 1, v1, s1, v2, s2);
    }
  }

  /** The same for constant memory. */
  lemma {:induction false} ConstantIsFirst(c: Chain, k: nat, p: Value)
    requires Closed(c) && k < Length(c) && From(c, k).layer.constant.Some?
    requires forall j :: 0 <= j < k ==> From(c, j).layer.constant.None?
    ensures PointsToConstantMemory(c, p) == From(c, k).layer.constant.value(p)
    decreases k
  {
    if k > 0 {
      assert From(c, 0).layer.constant.None?;
      forall j | 0 <= j < k - 1
        ensures From(c.next.value, j).layer.constant.None?
      {
        assert From(c, j + 1).layer.constant.None?;
      }
      ConstantIsFirst(c.next.value, k - 1, p);
    }
  }

  /** Attributes of the call come first, then those of the function, then its intrinsic. */
  lemma BehaviourIs(c: Chain, cs: CallSite)
    ensures var b, f := CallBehaviour(c, cs), cs.callee;
            && (cs.noAccess ==> b == DoesNotAccessMemory)
            && (!cs.noAccess && cs.onlyReads ==> b == DoesNotAccessMemory || b == OnlyReadsMemory)
            && (!cs.noAccess && f.None? ==> b == if cs.onlyReads then OnlyReadsMemory else UnknownBehaviour)
            && (!cs.noAccess && !cs.onlyReads && f.Some? && c.layer.behaviour.Some? ==>
              b == c.layer.behaviour.value(f.value))
            && (f.Some? && c.layer.behaviour.None? ==>
                  && (f.value.noAccess ==> b == DoesNotAccessMemory)
                  && (!cs.noAccess && !f.value.noAccess && f.value.onlyReads ==> b == OnlyReadsMemory)
                  && (!cs.noAccess && !f.value.noAccess && !cs.onlyReads && !f.value.onlyReads ==>
                        b == if f.value.intrinsic.Some? then f.value.intrinsic.value else UnknownBehaviour))
  {
  }

  /** As far as this analysis alone knows, the call may access what `p` points to. */
  ghost predicate MayAccess(c: Chain, cs: CallSite, p: Value, size: nat)
    requires Closed(c)
  {
    && CallBehaviour(c, cs) != DoesNotAccessMemory
    && (CallBehaviour(c, cs) == AccessesArguments ==>
          exists i :: 0 <= i < |cs.args| && Alias(c, cs.args[i], 0xFFFF_FFFF, p, size) != NoAlias)
  }

  /** And write to it; `first` is the analysis that is asked. */
  ghost predicate MayWrite(c: Chain, first: bool, cs: CallSite, p: Value, size: nat)
    requires Closed(c)
  {
    MayAccess(c, cs, p, size) && CallBehaviour(c, cs) != OnlyReadsMemory && (!first ==> !PointsToConstantMemory(c, p))
  }

  lemma MaskIs(c: Chain, cs: CallSite, p: Value, size: nat)
    requires Closed(c)
    ensures References(CallMask(c, cs, p, size)) <==> MayAccess(c, cs, p, size)
    ensures Modifies(CallMask(c, cs, p, size)) <==> MayAccess(c, cs, p, size) && CallBehaviour(c, cs) != OnlyReadsMemory
  {
    BitsMean();
  }

  ghost predicate AllMayAccess(c: Chain, cs: CallSite, p: Value, size: nat)
    requires Closed(c)
  {
    forall k :: 0 <= k < Length(c) ==> MayAccess(From(c, k), cs, p, size)
  }

  ghost predicate AllMayWrite(c: Chain, first: bool, cs: CallSite, p: Value, size: nat)
    requires Closed(c)
  {
    forall k :: 0 <= k < Length(c) ==> MayWrite(From(c, k), first && k == 0, cs, p, size)
  }

  lemma FirstAndRest(c: Chain, first: bool, cs: CallSite, p: Value, size: nat)
    requires Closed(c)
    ensures AllMayAccess(c, cs, p, size) <==>
            MayAccess(c, cs, p, size) && (c.next.Some? ==> AllMayAccess(c.next.value, cs, p, size))
    ensures AllMayWrite(c, first, cs, p, size) <==>
            MayWrite(c, first, cs, p, size) && (c.next.Some? ==> AllMayWrite(c.next.value, false, cs, p, size))
  {
    hide MayAccess, MayWrite;
    assert From(c, 0) == c;
    if c.next.Some? {
      assert forall k :: 0 <= k < Length(c.next.value) ==> From(c.next.value, k) == From(c, k + 1);
      assert forall k :: 0 < k < Length(c) ==> From(c, k) == From(c.next.value, k - 1);
    }
  }

  lemma ConstantOrNot(c: Chain, cs: CallSite, p: Value, size: nat)
    requires Closed(c)
    ensures AllMayWrite(c, false, cs, p, size) <==> AllMayWrite(c, true, cs, p, size) && !PointsToConstantMemory(c, p)
  {
    hide MayAccess, CallBehaviour;
    assert From(c, 0) == c && MayWrite(c, false, cs, p, size) <==>
      MayWrite(c, true, cs, p, size) && !PointsToConstantMemory(c, p);
    hide MayWrite;
    FirstAndRest(c, false, cs, p, size);
    FirstAndRest(c, true, cs, p, size);
  }

  /**
    The answer for a call, exactly: it may read if every analysis of the chain lets it access the pointer; it
    may write if, besides, none says that it only reads, and none behind the first that the memory is constant.
  */
  lemma {:induction false} CallAnswer(c: Chain, cs: CallSite, p: Value, size: nat)
    requires Closed(c)
    ensures References(CallModRef(c, cs, p, size)) <==> AllMayAccess(c, cs, p, size)
    ensures Modifies(CallModRef(c, cs, p, size)) <==> AllMayWrite(c, true, cs, p, size)
    decreases c
  {
    hide CallMask, MayAccess, CallBehaviour, Modifies, References, AllMayAccess, AllMayWrite;
    MaskIs(c, cs, p, size);
    BitsMean();
    FirstAndRest(c, true, cs, p, size);
    var mask := CallMask(c, cs, p, size);
    if c.next.Some? {
      var rest := CallModRef(c.next.value, cs, p, size);
      CallAnswer(c.next.value, cs, p, size);
      ConstantOrNot(c.next.value, cs, p, size);
      MaskBits(mask, rest);
      MaskBits(mask & !MOD, rest);
    }
  }

  /** An instruction may write to what `p` points to: any va_arg, a call as above, a store that may alias `p`. */
  ghost predicate MayModify(c: Chain, i: Instr, p: Value, size: nat)
    requires Closed(c)
  {
    || i.VAArg?
    || ((i.Call? || i.Invoke?) && AllMayWrite(c, true, i.cs, p, size))
    || (i.Store? && Alias(c, i.ptr, TypeStoreSize(c, i.ty), p, size) != NoAlias && !PointsToConstantMemory(c, p))
  }

  ghost predicate MayRead(c: Chain, i: Instr, p: Value, size: nat)
    requires Closed(c)
  {
    || i.VAArg?
    || ((i.Call? || i.Invoke?) && AllMayAccess(c, i.cs, p, size))
    || (i.Load? && Alias(c, i.ptr, TypeStoreSize(c, i.ty), p, size) != NoAlias)
  }

  /** So the answer for any instruction is exact too: no load modifies, and no store references. */
  lemma InstrAnswer(c: Chain, i: Instr, p: Value, size: nat)
    requires Closed(c)
    ensures Modifies(InstrModRef(c, i, p, size)) <==> MayModify(c, i, p, size)
    ensures References(InstrModRef(c, i, p, size)) <==> MayRead(c, i, p, size)
  {
    hide Modifies, References, AllMayAccess, AllMayWrite;
    BitsMean();
    if i.Call? || i.Invoke? {
      CallAnswer(c, i.cs, p, size);
    }
  }

  /** The size of a type is that of the target, or unknown. */
  lemma SizeIs(c: Chain, ty: nat)
    ensures c.layer.typeSize.Some? ==> TypeStoreSize(c, ty) == c.layer.typeSize.value(ty)
    ensures c.layer.typeSize.None? ==> TypeStoreSize(c, ty) == 0xFFFF_FFFF
  {
  }

  /** getModRefInfo of a call, as it is computed: a mask that shrinks, and a loop over the arguments. */
  method GetModRefInfo(c: Chain, cs: CallSite, p: Value, size: nat) returns (r: ModRefResult)
    requires Closed(c)
    ensures r == CallModRef(c, cs, p, size)
    decreases c
  {
    var mrb := CallBehaviour(c, cs);
    if mrb == DoesNotAccessMemory {
      return NO_MOD_REF;
    }
    var mask := MOD_REF;
    if mrb == OnlyReadsMemory {
      mask := REF;
    } else if mrb == AccessesArguments {
      var doesAlias := false;
      var i := 0;
      while i < |cs.args| && !doesAlias
        invariant 0 <= i <= |cs.args|
        invariant !doesAlias ==> forall k :: 0 <= k < i ==> Alias(c, cs.args[k], UNKNOWN, p, size) == NoAlias
        invariant doesAlias ==> SomeArgumentAliases(c, cs.args, p, size)
      {
        if Alias(c, cs.args[i], UNKNOWN, p, size) != NoAlias {
          doesAlias := true;
        }
        i := i + 1;
      }
      if !doesAlias {
        return NO_MOD_REF;
      }
    }
    if c.next.None? {
      return mask;
    }
    if mask & MOD != 0 && PointsToConstantMemory(c.next.value, p) {
      mask := mask & !MOD;
    }
    r := GetModRefInfo(c.next.value, cs, p, size);
    r := mask & r;
  }

  /** Can the instructions from `first` to `last`, both included, modify what `p` points to? */
  method CanInstructionRangeModify(c: Chain, block: seq<Instr>, first: nat, last: nat, p: Value, size: nat)
    returns (b: bool)
    requires Closed(c) && first <= last < |block|
    ensures b <==> exists i :: first <= i <= last && Modifies(InstrModRef(c, block[i], p, size))
    ensures b <==> exists i :: first <= i <= last && MayModify(c, block[i], p, size)
  {
    hide Modifies, InstrModRef, MayModify;
    var i := first;
    var end := last + 1;
    while i != end
      invariant first <= i <= end
      invariant forall k :: first <= k < i ==>
        !Modifies(InstrModRef(c, block[k], p, size)) && !MayModify(c, block[k], p, size)
      decreases end - i
    {
      InstrAnswer(c, block[i], p, size);
      if Modifies(InstrModRef(c, block[i], p, size)) {
        return true;
      }
      i := i + 1;
    }
    return false;
  }

  method CanBasicBlockModify(c: Chain, block: seq<Instr>, p: Value, size: nat) returns (b: bool)
    requires Closed(c) && block != []
    ensures b <==> exists i :: 0 <= i < |block| && Modifies(InstrModRef(c, block[i], p, size))
    ensures b <==> exists i :: 0 <= i < |block| && MayModify(c, block[i], p, size)
  {
    b := CanInstructionRangeModify(c, block, 0, |block| - 1, p, size);
  }

  // ----- a concrete memory -----

  /** The instructions that run, the bytes that a pointer denotes, and the bytes that calls and va_arg touch. */
  datatype World = World(
    runs: Instr -> bool,
    region: (Value, nat) -> set<Address>,
    storeSize: nat -> nat,
    callReads: CallSite -> set<Address>,
    callWrites: CallSite -> set<Address>,
    vaReads: nat -> set<Address>,
    vaWrites: nat -> set<Address>)

  function Reads(w: World, i: Instr): set<Address> {
    match i
    case Load(p, ty) => w.region(p, w.storeSize(ty))
    case Call(cs) => w.callReads(cs)
    case Invoke(cs) => w.callReads(cs)
    case VAArg(n) => w.vaReads(n)
    case _ => {}
  }

  function Writes(w: World, i: Instr): set<Address> {
    match i
    case Store(p, ty) => w.region(p, w.storeSize(ty))
    case Call(cs) => w.callWrites(cs)
    case Invoke(cs) => w.callWrites(cs)
    case VAArg(n) => w.vaWrites(n)
    case _ => {}
  }

  ghost predicate AliasSound(f: (Value, nat, Value, nat) -> AliasResult, w: World) {
    forall v1, s1, v2, s2 :: f(v1, s1, v2, s2) == NoAlias ==> w.region(v1, s1) !! w.region(v2, s2)
  }

  /** No instruction that runs writes into constant memory. */
  ghost predicate ConstantSound(f: Value -> bool, w: World) {
    forall p, size, i: Instr :: f(p) && w.runs(i) ==> Writes(w, i) !! w.region(p, size)
  }

  /** `b` says of a call to which only `cs` applies what it may touch. */
  ghost predicate Describes(b: Behaviour, cs: CallSite, w: World) {
    match b
    case DoesNotAccessMemory => w.callReads(cs) == {} && w.callWrites(cs) == {}
    case OnlyReadsMemory => w.callWrites(cs) == {}
    case AccessesArguments =>
      forall a :: a in w.callReads(cs) || a in w.callWrites(cs) ==>
        exists k :: 0 <= k < |cs.args| && a in w.region(cs.args[k], UNKNOWN)
    case _ => true
  }

  /** Attributes and intrinsic behaviours are true. */
  ghost predicate AttributesSound(w: World) {
    && (forall cs: CallSite :: cs.noAccess ==> Describes(DoesNotAccessMemory, cs, w))
    && (forall cs: CallSite :: cs.onlyReads ==> Describes(OnlyReadsMemory, cs, w))
    && (forall cs: CallSite :: cs.callee.Some? && cs.callee.value.noAccess ==> Describes(DoesNotAccessMemory, cs, w))
    && (forall cs: CallSite :: cs.callee.Some? && cs.callee.value.onlyReads ==> Describes(OnlyReadsMemory, cs, w))
    && (forall cs: CallSite :: cs.callee.Some? && cs.callee.value.intrinsic.Some? ==>
          Describes(cs.callee.value.intrinsic.value, cs, w))
  }

  ghost predicate LayerSound(l: Layer, w: World) {
    && (l.alias.Some? ==> AliasSound(l.alias.value, w))
    && (l.constant.Some? ==> ConstantSound(l.constant.value, w))
    && (l.behaviour.Some? ==>
          forall cs: CallSite :: cs.callee.Some? ==> Describes(l.behaviour.value(cs.callee.value), cs, w))
    && (l.typeSize.Some? ==> forall ty :: l.typeSize.value(ty) == w.storeSize(ty))
  }

  ghost predicate Sound(c: Chain, w: World) {
    && AttributesSound(w) && LayerSound(c.layer, w)
    && (forall v, s :: w.region(v, s) <= w.region(v, UNKNOWN))
    && (c.next.Some? ==> Sound(c.next.value, w))
  }

  // ----- soundness -----

  lemma {:induction false} AliasIsSound(c: Chain, w: World, v1: Value, s1: nat, v2: Value, s2: nat)
    requires Closed(c) && Sound(c, w) && Alias(c, v1, s1, v2, s2) == NoAlias
    ensures w.region(v1, s1) !! w.region(v2, s2)
    decreases c
  {
    if c.layer.alias.None? {
      AliasIsSound(c.next.value, w, v1, s1, v2, s2);
    }
  }

  lemma {:induction false} ConstantIsSound(c: Chain, w: World, p: Value, size: nat, i: Instr)
    requires Closed(c) && Sound(c, w) && PointsToConstantMemory(c, p) && w.runs(i)
    ensures Writes(w, i) !! w.region(p, size)
    decreases c
  {
    if c.layer.constant.None? {
      ConstantIsSound(c.next.value, w, p, size, i);
    }
  }

  /** Constant memory may have bytes, and may be read: a chain can be sound and have something constant to say. */
  lemma ConstantMayBeRead(p: Value, ty: nat) returns (c: Chain, w: World)
    ensures Closed(c) && Sound(c, w) && PointsToConstantMemory(c, p)
    ensures w.runs(Load(p, ty)) && Reads(w, Load(p, ty)) != {}
  {
    var layer := Layer(Some((v1: Value, s1: nat, v2: Value, s2: nat) => MayAlias),
      Some((v: Value) => v == p), None, None);
    c := Chain(layer, None);
    w := World((i: Instr) => i == Load(p, ty), (v: Value, size: nat) => if v == p then {0} else {}, (n: nat) => n,
               (cs: CallSite) => {}, (cs: CallSite) => {}, (n: nat) => {}, (n: nat) => {});
    assert 0 in Reads(w, Load(p, ty));
  }

  lemma BehaviourIsSound(c: Chain, w: World, cs: CallSite)
    requires Sound(c, w)
    ensures Describes(CallBehaviour(c, cs), cs, w)
  {
  }

  /** `r` covers every byte of `p` that is really read or written. */
  ghost predicate Covers(r: ModRefResult, readSet: set<Address>, writeSet: set<Address>, bytes: set<Address>) {
    && (!References(r) ==> readSet !! bytes)
    && (!Modifies(r) ==> writeSet !! bytes)
  }

  lemma CallMaskIsSound(c: Chain, w: World, cs: CallSite, p: Value, size: nat)
    requires Closed(c) && Sound(c, w)
    ensures Covers(CallMask(c, cs, p, size), w.callReads(cs), w.callWrites(cs), w.region(p, size))
  {
    BehaviourIsSound(c, w, cs);
    if CallBehaviour(c, cs) == AccessesArguments && !SomeArgumentAliases(c, cs.args, p, size) {
      forall k | 0 <= k < |cs.args|
        ensures w.region(cs.args[k], UNKNOWN) !! w.region(p, size)
      {
        AliasIsSound(c, w, cs.args[k], UNKNOWN, p, size);
      }
      forall a | a in w.callReads(cs) || a in w.callWrites(cs)
        ensures a !in w.region(p, size)
      {
        var k :| 0 <= k < |cs.args| && a in w.region(cs.args[k], UNKNOWN);
      }
    }
    assert References(REF) && !Modifies(REF) && References(MOD_REF) && Modifies(MOD_REF);
    assert !References(NO_MOD_REF) && !Modifies(NO_MOD_REF);
  }

  lemma {:induction false} CallModRefIsSound(c: Chain, w: World, cs: CallSite, p: Value, size: nat)
    requires Closed(c) && Sound(c, w) && (w.runs(Call(cs)) || w.runs(Invoke(cs)))
    ensures Covers(CallModRef(c, cs, p, size), w.callReads(cs), w.callWrites(cs), w.region(p, size))
    decreases c
  {
    CallMaskIsSound(c, w, cs, p, size);
    var mask := CallMask(c, cs, p, size);
    if mask != NO_MOD_REF && c.next.Some? {
      var rest := CallModRef(c.next.value, cs, p, size);
      CallModRefIsSound(c.next.value, w, cs, p, size);
      MaskBits(mask, rest);
      MaskBits(mask & !MOD, rest);
      if PointsToConstantMemory(c.next.value, p) {
        ConstantIsSound(c.next.value, w, p, size, if w.runs(Call(cs)) then Call(cs) else Invoke(cs));
      }
    }
  }

  /**
    Soundness of a chain of any length: if every layer's own answers are true of the memory, the composed
    answer covers every byte that an instruction that runs really reads or writes.
  */
  lemma ModRefCoversEffects(c: Chain, w: World, i: Instr, p: Value, size: nat)
    requires Closed(c) && Sound(c, w) && w.runs(i)
    ensures Covers(InstrModRef(c, i, p, size), Reads(w, i), Writes(w, i), w.region(p, size))
  {
    assert References(REF) && !Modifies(REF) && !References(MOD) && Modifies(MOD);
    assert References(MOD_REF) && Modifies(MOD_REF) && !References(NO_MOD_REF) && !Modifies(NO_MOD_REF);
    match i
    case Load(q, ty) =>
      if Alias(c, q, TypeStoreSize(c, ty), p, size) == NoAlias {
        AliasIsSound(c, w, q, TypeStoreSize(c, ty), p, size);
      }
    case Store(q, ty) =>
      if Alias(c, q, TypeStoreSize(c, ty), p, size) == NoAlias {
        AliasIsSound(c, w, q, TypeStoreSize(c, ty), p, size);
      } else if PointsToConstantMemory(c, p) {
        ConstantIsSound(c, w, p, size, i);
      }
    case Call(cs) => CallModRefIsSound(c, w, cs, p, size);
    case Invoke(cs) => CallModRefIsSound(c, w, cs, p, size);
    case VAArg(_) =>
    case Other =>
  }

  /** For a call, a chain is never less precise than the rest of the chain alone. */
  lemma NeverLessPrecise(c: Chain, cs: CallSite, p: Value, size: nat)
    requires Closed(c) && c.next.Some?
    ensures var r, delegate := CallModRef(c, cs, p, size), CallModRef(c.next.value, cs, p, size);
            (References(r) ==> References(delegate)) && (Modifies(r) ==> Modifies(delegate))
  {
    var mask, delegate := CallMask(c, cs, p, size), CallModRef(c.next.value, cs, p, size);
    MaskBits(mask, delegate);
    MaskBits(mask & !MOD, delegate);
    assert !References(NO_MOD_REF) && !Modifies(NO_MOD_REF);
  }

  // ----- executing a range -----

  type Memory = Address -> int

  /** Instruction `i` runs and changes nothing but the bytes it writes. */
  ghost predicate Executes(w: World, i: Instr, m: Memory, m': Memory) {
    w.runs(i) && forall a :: a !in Writes(w, i) ==> m'(a) == m(a)
  }

  /** The memories before, between and after the instructions of a range. */
  ghost predicate ExecutesAll(w: World, instrs: seq<Instr>, ms: seq<Memory>) {
    |ms| == |instrs| + 1 && forall i :: 0 <= i < |instrs| ==> Executes(w, instrs[i], ms[i], ms[i + 1])
  }

  /** If no instruction of the range can modify `p`, its bytes are what they were before, throughout. */
  lemma {:induction false} RangeLeavesBytes(c: Chain, w: World, instrs: seq<Instr>, p: Value, size: nat,
                                            ms: seq<Memory>, k: nat, a: Address)
    requires Closed(c) && Sound(c, w) && ExecutesAll(w, instrs, ms) && k <= |instrs|
    requires forall i :: 0 <= i < |instrs| ==> !Modifies(InstrModRef(c, instrs[i], p, size))
    requires a in w.region(p, size)
    ensures ms[k](a) == ms[0](a)
    decreases k
  {
    if k > 0 {
      RangeLeavesBytes(c, w, instrs, p, size, ms, k - 1, a);
      assert Executes(w, instrs[k - 1], ms[k - 1], ms[k]);
      ModRefCoversEffects(c, w, instrs[k - 1], p, size);
    }
  }
}
