/**
  The personality routine of ExceptionDemo: it finds the call site of a return address in a byte
  table, walks the action records of that call site, and says whether, or with which selector, to
  enter the landing pad. Pointers into the table are positions in its bytes.
*/
module ExceptionTables {
  import opened Common
  import opened Leb128

  /** The exception class "obj\0bas\0" of this runtime; every other class is foreign. */
  const OUR_CLASS: nat := 0x6F62_6A00_6261_7300
  const OMIT: Byte := 255

  datatype Exception = Exception(address: nat, kind: int)

  // ----- encoded pointers -----

  /** The `n` bytes at `pos`, least significant first. */
  function LittleEndian(data: seq<Byte>, pos: nat, n: nat): nat
    requires pos + n <= |data|
    decreases n
  {
    if n == 0 then 0 else data[pos] + 256 * LittleEndian(data, pos + 1, n - 1)
  }

  lemma BytesOfNumbers(data: seq<Byte>, pos: nat)
    requires pos + 4 <= |data|
    ensures var a: int, b: int, c: int, d: int := data[pos], data[pos + 1], data[pos + 2], data[pos + 3];
            && LittleEndian(data, pos, 2) == a + 0x100 * b
            && LittleEndian(data, pos, 4) == a + 0x100 * b + 0x1_0000 * c + 0x100_0000 * d
  {
    assert LittleEndian(data, pos + 4, 0) == 0;
    assert LittleEndian(data, pos + 3, 1) == data[pos + 3];
  }

  lemma OurClassIs()
    ensures OUR_CLASS == (((((((0x6F * 256 + 0x62) * 256 + 0x6A) * 256 + 0) * 256 + 0x62) * 256 + 0x61) * 256
      + 0x73) * 256 + 0)
  {
  }

  /** The size of a fixed-size format: absptr, udata2, udata4, udata8, sdata2, sdata4, sdata8. */
  function FixedSize(format: nat): (size: Option<nat>)
    ensures size.Some? ==> size.value > 0
  {
    match format
    case 0 => Some(8)
    case 2 => Some(2)
    case 3 => Some(4)
    case 4 => Some(8)
    case 10 => Some(2)
    case 11 => Some(4)
    case 12 => Some(8)
    case _ => None
  }

  /** A signed format fills the upper bytes with its sign. */
  function Widen(v: nat, size: nat, signed: bool): nat
    requires size > 0
  {
    if signed && size < 8 && v >= Pow2(8 * size - 1) then (v - Pow2(8 * size)) % U64 else v
  }

  /** Where the table lies in memory, and the words of that memory, by their addresses. */
  datatype Process = Process(base: nat, word: nat -> nat)

  /** The lower four bits: how the value is written. */
  function Format(encoding: Byte): nat {
    encoding % 16
  }

  /** The next three bits: what the value is relative to. */
  function Relative(encoding: Byte): nat {
    encoding / 16 % 8
  }

  const PCREL := 1

  /** The encodings that are understood; the program aborts on any other. */
  predicate Supported(encoding: Byte) {
    || encoding == OMIT
    || (&& (Format(encoding) == 1 || Format(encoding) == 9 || FixedSize(Format(encoding)).Some?)
        && Relative(encoding) <= PCREL)
  }

  /** The value at `pos` lies within the data and is read without undefined shifts. */
  predicate Readable(data: seq<Byte>, pos: nat, encoding: Byte) {
    encoding != OMIT ==>
      && (Format(encoding) == 1 ==> ULebDefined(data, pos))
      && (Format(encoding) == 9 ==> SLebDefined(data, pos))
      && (FixedSize(Format(encoding)).Some? ==> pos + FixedSize(Format(encoding)).value <= |data|)
  }

  predicate PointerDefined(data: seq<Byte>, pos: nat, encoding: Byte) {
    Supported(encoding) && Readable(data, pos, encoding)
  }

  /** The value as it is written. */
  function RawAt(data: seq<Byte>, pos: nat, encoding: Byte): nat
    requires encoding != OMIT && PointerDefined(data, pos, encoding)
  {
    if Format(encoding) == 1 then ULebAt(data, pos)
    else if Format(encoding) == 9 then SLebAt(data, pos)
    else
      var n := FixedSize(Format(encoding)).value;
      Widen(LittleEndian(data, pos, n), n, Format(encoding) >= 8)
  }

  /** The pointer: relative to its own address or not, and then perhaps the address of the pointer proper. */
  function PointerAt(pr: Process, data: seq<Byte>, pos: nat, encoding: Byte): nat
    requires PointerDefined(data, pos, encoding)
  {
    if encoding == OMIT then 0
    else
      var raw := RawAt(data, pos, encoding);
      var absolute := if Relative(encoding) == PCREL then (raw + pr.base + pos) % U64 else raw;
      if encoding >= 128 then pr.word(absolute) else absolute
  }

  function PointerEnd(data: seq<Byte>, pos: nat, encoding: Byte): (next: nat)
    requires PointerDefined(data, pos, encoding)
    ensures next >= pos
  {
    if encoding == OMIT then pos
    else if Format(encoding) == 1 || Format(encoding) == 9 then pos + LebLength(data, pos)
    else pos + FixedSize(Format(encoding)).value
  }

  /** Reads an encoded pointer; None stands for the call of abort. */
  method ReadEncodedPointer(pr: Process, data: seq<Byte>, pos: nat, encoding: Byte) returns (r: Option<(nat, nat)>)
    requires Readable(data, pos, encoding)
    ensures r == if Supported(encoding)
                 then Some((PointerAt(pr, data, pos, encoding), PointerEnd(data, pos, encoding)))
                 else None
  {
    hide ULebAt, SLebAt, LebLength, ULebDefined, SLebDefined, LittleEndian, Widen, FixedSize, Format, Relative;
    if encoding == OMIT {
      return Some((0, pos));
    }
    var result, p;
    match Format(encoding) {
      case 1 => result, p := ReadULEB128(data, pos);
      case 9 => result, p := ReadSLEB128(data, pos);
      case format =>
        match FixedSize(format) {
          case None => return None;
          case Some(n) => result, p := Widen(LittleEndian(data, pos, n), n, format >= 8), pos + n;
        }
    }
    match Relative(encoding) {
      case 0 =>
      case 1 => result := (result + pr.base + pos) % U64;
      case _ => return None;
    }
    if encoding >= 128 {
      result := pr.word(result);
    }
    r := Some((result, p));
  }

  // ----- the action table -----

  /** The action records from `pos` on, given by their type offsets: each record is followed by the
      distance, from that distance itself, to the next one, or by zero. */
  ghost predicate ChainAt(data: seq<Byte>, pos: nat, chain: seq<nat>)
    decreases |chain|
  {
    && chain != []
    && SLebDefined(data, pos) && ToS64(SLebAt(data, pos)) == chain[0]
    && var link := pos + LebLength(data, pos);
    && SLebDefined(data, link)
    && var distance := ToS64(SLebAt(data, link));
    if |chain| == 1 then distance == 0
    else distance != 0 && link + distance >= 0 && ChainAt(data, link + distance, chain[1..])
  }

  /** The type infos are numbered from one; zero stands for a cleanup. */
  predicate TypesKnown(chain: seq<nat>, classInfo: seq<int>) {
    forall i :: 0 <= i < |chain| ==> chain[i] <= |classInfo|
  }

  predicate Catches(offset: nat, classInfo: seq<int>, t: int)
    requires offset <= |classInfo|
  {
    offset > 0 && classInfo[offset - 1] == t
  }

  /** The 1-based position of the first record that catches type `t`, cleanups counted; 0 if none does. */
  function FirstMatch(chain: seq<nat>, classInfo: seq<int>, t: int): (n: nat)
    requires TypesKnown(chain, classInfo)
    ensures n <= |chain|
  {
    if chain == [] then 0
    else if Catches(chain[0], classInfo, t) then 1
    else
      var rest := FirstMatch(chain[1..], classInfo, t);
      if rest == 0 then 0 else rest + 1
  }

  lemma {:induction false} FirstMatchIsFirst(chain: seq<nat>, classInfo: seq<int>, t: int, i: nat)
    requires TypesKnown(chain, classInfo) && i < |chain|
    ensures FirstMatch(chain, classInfo, t) == i + 1 <==>
            Catches(chain[i], classInfo, t) && forall j :: 0 <= j < i ==> !Catches(chain[j], classInfo, t)
    decreases i
  {
    if i > 0 {
      var rest := chain[1..];
      FirstMatchIsFirst(rest, classInfo, t, i - 1);
      assert rest[i - 1] == chain[i];
      assert forall j :: 0 <= j < i - 1 ==> rest[j] == chain[j + 1];
      if forall j :: 0 <= j < i - 1 ==> !Catches(rest[j], classInfo, t) {
        forall j | 0 < j < i
          ensures !Catches(chain[j], classInfo, t)
        {
          assert rest[j - 1] == chain[j];
        }
      }
    }
  }

  /** The same, as far as a walk for type `t` goes: what lies behind the first match does not matter. */
  ghost predicate WalkAt(data: seq<Byte>, pos: nat, chain: seq<nat>, classInfo: seq<int>, t: int)
    requires TypesKnown(chain, classInfo)
    decreases |chain|
  {
    && chain != []
    && SLebDefined(data, pos) && ToS64(SLebAt(data, pos)) == chain[0]
    && var link := pos + LebLength(data, pos);
    && SLebDefined(data, link)
    && (|| Catches(chain[0], classInfo, t)
        || var distance := ToS64(SLebAt(data, link));
           if |chain| == 1 then distance == 0
           else distance != 0 && link + distance >= 0 && WalkAt(data, link + distance, chain[1..], classInfo, t))
  }

  lemma {:induction false} ChainIsWalk(data: seq<Byte>, pos: nat, chain: seq<nat>, classInfo: seq<int>, t: int)
    requires ChainAt(data, pos, chain) && TypesKnown(chain, classInfo)
    ensures WalkAt(data, pos, chain, classInfo, t)
    decreases |chain|
  {
    hide SLebAt, LebLength, SLebDefined;
    if |chain| > 1 {
      var link := pos + LebLength(data, pos);
      ChainIsWalk(data, link + ToS64(SLebAt(data, link)), chain[1..], classInfo, t);
    }
  }

  /**
    Walks the action records of an exception of this runtime. The walk ends because the records up to
    the first match are those of the finite chain `chain`.
  */
  method HandleActionValue(data: seq<Byte>, classInfo: seq<int>, actionEntry: nat, exceptionClass: nat,
                           exception: Option<Exception>, ghost chain: seq<nat>)
    returns (found: bool, actionValue: nat)
    requires exceptionClass == OUR_CLASS && exception.Some? ==>
               TypesKnown(chain, classInfo) && WalkAt(data, actionEntry, chain, classInfo, exception.value.kind)
    ensures exceptionClass != OUR_CLASS || exception.None? ==> !found
    ensures exceptionClass == OUR_CLASS && exception.Some? ==>
              && actionValue == FirstMatch(chain, classInfo, exception.value.kind)
              && (found <==> actionValue > 0)
  {
    hide SLebAt, LebLength, SLebDefined, LebGroups, LebEnds;
    found, actionValue := false, 0;
    if exception.None? || exceptionClass != OUR_CLASS {
      return;
    }
    var kind := exception.value.kind;
    var actionPos: nat := actionEntry;
    ghost var rest := chain;
    var i := 0;
    while true
      invariant TypesKnown(rest, classInfo) && WalkAt(data, actionPos, rest, classInfo, kind)
      invariant FirstMatch(chain, classInfo, kind)
             == (var n := FirstMatch(rest, classInfo, kind); if n == 0 then 0 else n + i)
      decreases |rest|
    {
      var raw;
      raw, actionPos := ReadSLEB128(data, actionPos);
      var typeOffset := ToS64(raw);
      var tempActionPos;
      raw, tempActionPos := ReadSLEB128(data, actionPos);
      var actionOffset := ToS64(raw);
      assert typeOffset >= 0;
      if typeOffset > 0 && kind == classInfo[typeOffset - 1] {
        return true, i + 1;
      }
      if actionOffset == 0 {
        return;
      }
      actionPos := actionPos + actionOffset;
      rest := rest[1..];
      i := i + 1;
    }
  }

  /** A record at `p` that can be read, and ends its chain or leads to an earlier one of `records`. */
  ghost predicate RecordAt(data: seq<Byte>, p: nat, records: set<nat>) {
    && SLebDefined(data, p) && ToS64(SLebAt(data, p)) >= 0
    && var link := p + LebLength(data, p);
    && SLebDefined(data, link)
    && var distance := ToS64(SLebAt(data, link));
    && (distance != 0 ==> 0 <= link + distance < p && link + distance in records)
  }

  /** If every link goes to an earlier record, as emitters write them, every walk is a finite chain. */
  lemma {:induction false} EarlierLinksEnd(data: seq<Byte>, records: set<nat>, p: nat) returns (chain: seq<nat>)
    requires forall q: nat :: q in records ==> RecordAt(data, q, records)
    requires p in records
    ensures ChainAt(data, p, chain)
    decreases p
  {
    hide SLebAt, LebLength, LebGroups, LebEnds, SLebDefined;
    assert RecordAt(data, p, records);
    var t: nat := ToS64(SLebAt(data, p));
    var link := p + LebLength(data, p);
    var distance := ToS64(SLebAt(data, link));
    if distance == 0 {
      chain := [t];
    } else {
      var rest := EarlierLinksEnd(data, records, link + distance);
      chain := [t] + rest;
      assert chain[1..] == rest;
    }
  }

  // ----- the call site table -----

  /** A call site: the code range, the landing pad, the action field, and the types of its action
      chain, which is empty exactly if the action field is zero. */
  datatype CallSite = CallSite(start: nat, length: nat, landingPad: nat, action: nat, chain: seq<nat>)

  /** One record of the table, encoded with `enc`. */
  ghost predicate SiteAt(pr: Process, data: seq<Byte>, pos: nat, enc: Byte, site: CallSite) {
    && PointerDefined(data, pos, enc) && PointerAt(pr, data, pos, enc) == site.start
    && var p1 := PointerEnd(data, pos, enc);
    && PointerDefined(data, p1, enc) && PointerAt(pr, data, p1, enc) == site.length
    && var p2 := PointerEnd(data, p1, enc);
    && PointerDefined(data, p2, enc) && PointerAt(pr, data, p2, enc) == site.landingPad
    && var p3 := PointerEnd(data, p2, enc);
    && ULebDefined(data, p3) && ULebAt(data, p3) == site.action
  }

  function SiteEnd(data: seq<Byte>, pos: nat, enc: Byte): nat
    requires PointerDefined(data, pos, enc)
    requires PointerDefined(data, PointerEnd(data, pos, enc), enc)
    requires PointerDefined(data, PointerEnd(data, PointerEnd(data, pos, enc), enc), enc)
    requires ULebDefined(data, PointerEnd(data, PointerEnd(data, PointerEnd(data, pos, enc), enc), enc))
  {
    var p3 := PointerEnd(data, PointerEnd(data, PointerEnd(data, pos, enc), enc), enc);
    p3 + LebLength(data, p3)
  }

  /** The bytes from `pos` to `end` are exactly the records of `sites`. */
  ghost predicate TableAt(pr: Process, data: seq<Byte>, pos: nat, end: nat, enc: Byte, sites: seq<CallSite>)
    decreases |sites|
  {
    if sites == [] then pos == end
    else
      && pos < end && SiteAt(pr, data, pos, enc, sites[0])
      && TableAt(pr, data, SiteEnd(data, pos, enc), end, enc, sites[1..])
  }

  /** Where the call site table lies and how it is encoded, as the header says. */
  datatype Layout = Layout(enc: Byte, start: nat, end: nat)

  ghost predicate HeaderAt(data: seq<Byte>, h: Layout) {
    && |data| > 0 && PointerDefined(data, 1, data[0])
    && var p1 := PointerEnd(data, 1, data[0]);
    && p1 < |data| && (data[p1] != OMIT ==> ULebDefined(data, p1 + 1))
    && var p2 := if data[p1] != OMIT then p1 + 1 + LebLength(data, p1 + 1) else p1 + 1;
    && p2 < |data| && data[p2] == h.enc && ULebDefined(data, p2 + 1)
    && h.start == p2 + 1 + LebLength(data, p2 + 1)
    && h.end == h.start + ULebAt(data, p2 + 1) % 0x1_0000_0000
  }

  // ----- what the personality routine decides -----

  predicate Covers(site: CallSite, pcOffset: nat) {
    && site.landingPad != 0
    && site.start <= pcOffset < (site.start + site.length) % U64
  }

  /** What is thrown, and from where: an exception of this runtime or not, its type, the offset of the call. */
  datatype Throw = Throw(ours: bool, kind: int, pcOffset: nat)

  /** The action field of the call site that covers the throw leads, behind the call site table, to the
      records of its chain, as far as they are walked. */
  ghost predicate ActionsAt(data: seq<Byte>, actionTable: nat, sites: seq<CallSite>, classInfo: seq<int>, x: Throw) {
    forall i :: 0 <= i < |sites| ==>
      && TypesKnown(sites[i].chain, classInfo)
      && (x.ours && Covers(sites[i], x.pcOffset) ==>
            && (sites[i].action == 0 <==> sites[i].chain == [])
            && (sites[i].action > 0 ==>
                  WalkAt(data, actionTable + sites[i].action - 1, sites[i].chain, classInfo, x.kind)))
  }

  /** The header says that there is no table of type infos. */
  ghost predicate NoTypes(data: seq<Byte>) {
    && |data| > 0 && PointerDefined(data, 1, data[0])
    && PointerEnd(data, 1, data[0]) < |data| && data[PointerEnd(data, 1, data[0])] == OMIT
  }

  /** A language specific data area that is well-formed as far as this throw goes. */
  ghost predicate LsdaAt(pr: Process, data: seq<Byte>, h: Layout, sites: seq<CallSite>, classInfo: seq<int>, x: Throw) {
    && HeaderAt(data, h) && (NoTypes(data) ==> classInfo == [])
    && TableAt(pr, data, h.start, h.end, h.enc, sites)
    && ActionsAt(data, h.end, sites, classInfo, x)
  }

  /** The first call site with a landing pad that covers `pcOffset`. */
  function Select(sites: seq<CallSite>, pcOffset: nat): Option<CallSite> {
    if sites == [] then None
    else if Covers(sites[0], pcOffset) then Some(sites[0])
    else Select(sites[1..], pcOffset)
  }

  datatype Verdict = ContinueUnwind | HandlerFound | Install(selector: nat, landingPad: nat)

  /** The selector of an exception at a call site: the matching action position, 0 for a cleanup. */
  function Selector(site: CallSite, classInfo: seq<int>, ours: bool, kind: int): nat
    requires TypesKnown(site.chain, classInfo)
  {
    if ours then FirstMatch(site.chain, classInfo, kind) else 0
  }

  function Personality(sites: seq<CallSite>, classInfo: seq<int>, search: bool, ours: bool, kind: int,
      pcOffset: nat): Verdict
    requires forall i :: 0 <= i < |sites| ==> TypesKnown(sites[i].chain, classInfo)
  {
    SelectIsSite(sites, pcOffset);
    match Select(sites, pcOffset)
    case None => ContinueUnwind
    case Some(site) =>
      var selector := Selector(site, classInfo, ours, kind);
      if !search then Install(selector, site.landingPad)
      else if selector > 0 then HandlerFound
      else ContinueUnwind
  }

  lemma {:induction false} SelectIsSite(sites: seq<CallSite>, pcOffset: nat)
    ensures Select(sites, pcOffset).None? <==> forall i :: 0 <= i < |sites| ==> !Covers(sites[i], pcOffset)
    ensures Select(sites, pcOffset).Some? ==>
              exists i :: 0 <= i < |sites| && Select(sites, pcOffset).value == sites[i] && Covers(sites[i], pcOffset)
                          && forall j :: 0 <= j < i ==> !Covers(sites[j], pcOffset)
    decreases |sites|
  {
    if sites != [] && !Covers(sites[0], pcOffset) {
      var rest := sites[1..];
      SelectIsSite(rest, pcOffset);
      if Select(rest, pcOffset).Some? {
        var i :| 0 <= i < |rest| && Select(rest, pcOffset).value == rest[i] && Covers(rest[i], pcOffset)
                 && forall j :: 0 <= j < i ==> !Covers(rest[j], pcOffset);
        assert sites[i + 1] == rest[i];
        forall j | 0 <= j < i + 1
          ensures !Covers(sites[j], pcOffset)
        {
          if j > 0 {
            assert sites[j] == rest[j - 1];
          }
        }
      } else {
        forall j | 0 <= j < |sites|
          ensures !Covers(sites[j], pcOffset)
        {
          if j > 0 {
            assert sites[j] == rest[j - 1];
          }
        }
      }
    }
  }

  /**
    The two phases agree. The search phase finds a handler exactly if the cleanup phase enters a
    landing pad with a positive selector. A foreign exception has no handler here, and enters
    landing pads with selector 0 only.
  */
  lemma PhasesAgree(sites: seq<CallSite>, classInfo: seq<int>, ours: bool, kind: int, pcOffset: nat)
    requires forall i :: 0 <= i < |sites| ==> TypesKnown(sites[i].chain, classInfo)
    ensures var search := Personality(sites, classInfo, true, ours, kind, pcOffset);
            var cleanup := Personality(sites, classInfo, false, ours, kind, pcOffset);
            && !search.Install? && !cleanup.HandlerFound?
            && (search.HandlerFound? <==> cleanup.Install? && cleanup.selector > 0)
            && (cleanup.Install? <==> exists i :: 0 <= i < |sites| && Covers(sites[i], pcOffset))
            && (!ours ==> search.ContinueUnwind? && (cleanup.Install? ==> cleanup.selector == 0))
  {
    SelectIsSite(sites, pcOffset);
  }

  // ----- the personality routine -----

  datatype ReasonCode = URC_HANDLER_FOUND | URC_INSTALL_CONTEXT | URC_CONTINUE_UNWIND

  /** The registers of the unwind context that the personality routine reads and writes. */
  class Context {
    var ip: nat
    var gr0: nat
    var gr1: nat
    const regionStart: nat

    constructor (ip: nat, regionStart: nat)
      ensures this.ip == ip && this.regionStart == regionStart
    {
      this.ip, this.regionStart, gr0, gr1 := ip, regionStart, 0, 0;
    }
  }

  /** The offset of the call within its function; unsigned, so it wraps around. */
  function PcOffset(ip: nat, regionStart: nat): nat {
    (ip - 1 - regionStart) % U64
  }

  // ----- the decision, by addresses -----

  /** The call that returns to `d` bytes behind the start of its function has a landing pad here. */
  ghost predicate CallWithin(site: CallSite, d: int) {
    site.landingPad != 0 && site.start < d <= site.start + site.length
  }

  ghost predicate FirstWithin(sites: seq<CallSite>, i: nat, d: int) {
    i < |sites| && CallWithin(sites[i], d) && forall j :: 0 <= j < i ==> !CallWithin(sites[j], d)
  }

  /** Record `n` is the first whose type info is that of `kind`; a record with offset 0 is a cleanup. */
  ghost predicate FirstOfKind(chain: seq<nat>, classInfo: seq<int>, kind: int, n: nat) {
    && n < |chain| && 0 < chain[n] <= |classInfo| && classInfo[chain[n] - 1] == kind
    && forall j :: 0 <= j < n && 0 < chain[j] <= |classInfo| ==> classInfo[chain[j] - 1] != kind
  }

  /** Addresses that do not wrap around. */
  ghost predicate Placed(sites: seq<CallSite>, ip: nat, regionStart: nat) {
    regionStart < ip < U64 && forall i :: 0 <= i < |sites| ==> sites[i].start + sites[i].length < U64
  }

  /**
    What is decided for a return address `d` bytes into the function. The first call site around the call
    counts, if it has a landing pad. The search phase stops if one of its records has the type of an exception
    of this runtime; the cleanup phase enters the landing pad of that site, with the number of the record.
  */
  ghost predicate DecidesAt(sites: seq<CallSite>, classInfo: seq<int>, search: bool, ours: bool, kind: int, d: int,
      v: Verdict) {
    && ((forall i :: 0 <= i < |sites| ==> !CallWithin(sites[i], d)) ==> v == ContinueUnwind)
    && forall i: nat :: FirstWithin(sites, i, d) ==>
         && (!search ==> v.Install? && v.landingPad == sites[i].landingPad)
         && (!ours || (forall n: nat :: !FirstOfKind(sites[i].chain, classInfo, kind, n)) ==>
               if search then v == ContinueUnwind else v.selector == 0)
         && (forall n: nat :: ours && FirstOfKind(sites[i].chain, classInfo, kind, n) ==>
               if search then v == HandlerFound else v.selector == n + 1)
  }

  lemma {:induction false} FirstMatchIsOfKind(chain: seq<nat>, classInfo: seq<int>, kind: int)
    requires TypesKnown(chain, classInfo)
    ensures var m := FirstMatch(chain, classInfo, kind);
            && (m > 0 ==> FirstOfKind(chain, classInfo, kind, m - 1))
            && forall n: nat :: FirstOfKind(chain, classInfo, kind, n) ==> m == n + 1
    decreases |chain|
  {
    if chain != [] {
      var rest := chain[1..];
      assert forall j :: 0 <= j < |rest| ==> rest[j] == chain[j + 1];
      FirstMatchIsOfKind(rest, classInfo, kind);
      forall n: nat | FirstOfKind(chain, classInfo, kind, n)
        ensures FirstMatch(chain, classInfo, kind) == n + 1
      {
        if n > 0 {
          assert FirstOfKind(rest, classInfo, kind, n - 1);
        }
      }
    }
  }

  lemma CoversIsCallWithin(site: CallSite, ip: nat, regionStart: nat)
    requires regionStart < ip < U64 && site.start + site.length < U64
    ensures Covers(site, PcOffset(ip, regionStart)) <==> CallWithin(site, ip - regionStart)
  {
  }

  lemma DecisionAtAddress(sites: seq<CallSite>, classInfo: seq<int>, search: bool, ours: bool, kind: int,
                          ip: nat, regionStart: nat)
    requires forall i :: 0 <= i < |sites| ==> TypesKnown(sites[i].chain, classInfo)
    requires Placed(sites, ip, regionStart)
    ensures DecidesAt(sites, classInfo, search, ours, kind, ip - regionStart,
                      Personality(sites, classInfo, search, ours, kind, PcOffset(ip, regionStart)))
  {
    var pcOffset, d := PcOffset(ip, regionStart), ip - regionStart;
    forall i | 0 <= i < |sites|
      ensures Covers(sites[i], pcOffset) <==> CallWithin(sites[i], d)
    {
      CoversIsCallWithin(sites[i], ip, regionStart);
    }
    SelectIsSite(sites, pcOffset);
    hide Covers, CallWithin, PcOffset, Select, FirstMatch, FirstOfKind;
    forall i: nat | FirstWithin(sites, i, d)
      ensures Select(sites, pcOffset) == Some(sites[i])
    {
      assert Covers(sites[i], pcOffset);
      var k :| 0 <= k < |sites| && Select(sites, pcOffset).value == sites[k] && Covers(sites[k], pcOffset)
               && forall j :: 0 <= j < k ==> !Covers(sites[j], pcOffset);
      assert k == i;
    }
    if Select(sites, pcOffset).Some? {
      FirstMatchIsOfKind(Select(sites, pcOffset).value.chain, classInfo, kind);
    }
  }

  lemma DefinedIsSupported(data: seq<Byte>, pos: nat, encoding: Byte)
    requires PointerDefined(data, pos, encoding)
    ensures Supported(encoding) && Readable(data, pos, encoding)
  {
  }

  /** Parses the header: the landing pad base and the type table are skipped. */
  method ReadHeader(pr: Process, data: seq<Byte>, ghost h: Layout)
    returns (callSiteEncoding: Byte, start: nat, end: nat)
    requires HeaderAt(data, h)
    ensures callSiteEncoding == h.enc && start == h.start && end == h.end
  {
    hide SLebAt, ULebAt, LebLength, SLebDefined, ULebDefined, LebGroups, PointerAt, PointerEnd, PointerDefined;
    DefinedIsSupported(data, 1, data[0]);
    var p: nat := 1;
    var skipped := ReadEncodedPointer(pr, data, p, data[0]);
    p := skipped.value.1;
    var ttypeEncoding := data[p];
    p := p + 1;
    var number;
    if ttypeEncoding != OMIT {
      number, p := ReadULEB128(data, p);
    }
    callSiteEncoding := data[p];
    number, start := ReadULEB128(data, p + 1);
    end := start + number % 0x1_0000_0000;
  }

  /** Reads one record of the call site table. */
  method ReadCallSite(pr: Process, data: seq<Byte>, pos: nat, enc: Byte, ghost site: CallSite)
    returns (start: nat, length: nat, landingPad: nat, actionEntry: nat, next: nat)
    requires SiteAt(pr, data, pos, enc, site)
    ensures start == site.start && length == site.length && landingPad == site.landingPad && actionEntry == site.action
    ensures next == SiteEnd(data, pos, enc)
  {
    hide SLebAt, ULebAt, LebLength, SLebDefined, ULebDefined, LebGroups, PointerAt, PointerEnd, PointerDefined;
    DefinedIsSupported(data, pos, enc);
    var r := ReadEncodedPointer(pr, data, pos, enc);
    start := r.value.0;
    DefinedIsSupported(data, r.value.1, enc);
    r := ReadEncodedPointer(pr, data, r.value.1, enc);
    length := r.value.0;
    DefinedIsSupported(data, r.value.1, enc);
    r := ReadEncodedPointer(pr, data, r.value.1, enc);
    landingPad := r.value.0;
    actionEntry, next := ReadULEB128(data, r.value.1);
  }

  /**
    Both phases over the bytes of a well-formed table: the decision is that of `Personality` on the
    abstract call sites, and the context is written only where a landing pad is to be entered.
  */
  method HandleLsda(pr: Process, lsda: Option<seq<Byte>>, search: bool, exceptionClass: nat, exception: Exception,
                    context: Context, classInfo: seq<int>, ghost h: Layout, ghost sites: seq<CallSite>)
    returns (ret: ReasonCode, ghost verdict: Verdict)
    requires lsda.Some? ==>
               LsdaAt(pr, lsda.value, h, sites, classInfo,
                      Throw(exceptionClass == OUR_CLASS, exception.kind, PcOffset(context.ip, context.regionStart)))
    modifies context
    ensures lsda.None? ==> verdict == ContinueUnwind
    ensures lsda.Some? ==>
              verdict == Personality(sites, classInfo, search, exceptionClass == OUR_CLASS, exception.kind,
                                     PcOffset(old(context.ip), context.regionStart))
    ensures lsda.Some? && Placed(sites, old(context.ip), context.regionStart) ==>
              DecidesAt(sites, classInfo, search, exceptionClass == OUR_CLASS, exception.kind,
                        old(context.ip) - context.regionStart, verdict)
    ensures match verdict
            case ContinueUnwind => ret == URC_CONTINUE_UNWIND && unchanged(context)
            case HandlerFound => ret == URC_HANDLER_FOUND && unchanged(context)
            case Install(selector, pad) =>
              && ret == URC_INSTALL_CONTEXT
              && context.gr0 == exception.address && context.gr1 == selector
              && context.ip == (context.regionStart + pad) % U64
  {
    hide WalkAt, FirstMatch, HeaderAt, SiteAt, SiteEnd, NoTypes, Placed, DecidesAt;
    ret, verdict := URC_CONTINUE_UNWIND, ContinueUnwind;
    if lsda.None? {
      return;
    }
    var data := lsda.value;
    var pcOffset := PcOffset(context.ip, context.regionStart);
    ghost var x := Throw(exceptionClass == OUR_CLASS, exception.kind, pcOffset);
    verdict := Personality(sites, classInfo, search, x.ours, x.kind, pcOffset);
    if Placed(sites, context.ip, context.regionStart) {
      DecisionAtAddress(sites, classInfo, search, x.ours, x.kind, context.ip, context.regionStart);
    }
    var callSiteEncoding, p, callSiteTableEnd := ReadHeader(pr, data, h);
    ghost var rest := sites;
    while p < callSiteTableEnd
      invariant callSiteTableEnd == h.end && callSiteEncoding == h.enc
      invariant p <= callSiteTableEnd && ret == URC_CONTINUE_UNWIND && unchanged(context)
      invariant TableAt(pr, data, p, h.end, h.enc, rest) && ActionsAt(data, h.end, rest, classInfo, x)
      invariant Select(rest, pcOffset) == Select(sites, pcOffset)
      decreases |rest|
    {
      var start, length, landingPad, actionEntry;
      start, length, landingPad, actionEntry, p := ReadCallSite(pr, data, p, callSiteEncoding, rest[0]);
      if exceptionClass != OUR_CLASS {
        actionEntry := 0;
      }
      if landingPad != 0 && start <= pcOffset < (start + length) % U64 {
        var exceptionMatched, actionValue := false, 0;
        if actionEntry != 0 {
          exceptionMatched, actionValue := HandleActionValue(data, classInfo, callSiteTableEnd + actionEntry - 1,
                                                             exceptionClass, Some(exception), rest[0].chain);
        }
        if !search {
          context.gr0 := exception.address;
          context.gr1 := if actionEntry == 0 || !exceptionMatched then 0 else actionValue;
          context.ip := (context.regionStart + landingPad) % U64;
          ret := URC_INSTALL_CONTEXT;
        } else if exceptionMatched {
          ret := URC_HANDLER_FOUND;
        }
        return;
      }
      rest := rest[1..];
    }
  }
}
