/**
  Tables as an emitter writes them. A serialized table is a well-formed one for the personality
  routine, with the call sites and action chains it was written from; so the walk over the bytes
  decides what `Personality` decides on the abstract entries.
*/
module ExceptionEncoding {
  import opened Common
  import opened Leb128
  import opened ExceptionTables

  const ULEB: Byte := 1
  const UDATA4: Byte := 3

  /** The `n` low bytes of `v`, least significant first. */
  function LeBytes(v: nat, n: nat): (s: seq<Byte>)
    ensures |s| == n
    decreases n
  {
    if n == 0 then [] else [v % 256] + LeBytes(v / 256, n - 1)
  }

  /** What a pointer of the encoding can hold and give back. */
  predicate Fits(enc: Byte, v: nat) {
    (enc == ULEB && v < 0x8000_0000) || (enc == UDATA4 && v < 0x1_0000_0000)
  }

  function Pointer(enc: Byte, v: nat): seq<Byte> {
    if enc == ULEB then EncodeU(v) else LeBytes(v, 4)
  }

  predicate SiteFits(enc: Byte, site: CallSite) {
    Fits(enc, site.start) && Fits(enc, site.length) && Fits(enc, site.landingPad) && site.action < 0x8000_0000
  }

  function Site(enc: Byte, site: CallSite): seq<Byte> {
    Pointer(enc, site.start) + (Pointer(enc, site.length) + (Pointer(enc, site.landingPad) + EncodeU(site.action)))
  }

  function Table(enc: Byte, sites: seq<CallSite>): seq<Byte> {
    if sites == [] then [] else Site(enc, sites[0]) + Table(enc, sites[1..])
  }

  lemma PointerReadsBack(pr: Process, data: seq<Byte>, pos: nat, enc: Byte, v: nat)
    requires Holds(data, pos, Pointer(enc, v)) && Fits(enc, v)
    ensures PointerDefined(data, pos, enc) && PointerAt(pr, data, pos, enc) == v
    ensures PointerEnd(data, pos, enc) == pos + |Pointer(enc, v)|
  {
    hide LebLength, ULebAt, ULebDefined, LittleEndian, LeBytes, EncodeU, Holds;
    FormatIs(enc);
    hide Format, Relative, FixedSize;
    if enc == ULEB {
      ULebRoundTrip(data, pos, v);
    } else {
      HoldsWithin(data, pos, LeBytes(v, 4));
      Pow2Sizes();
      LeBytesReadBack(data, pos, v, 4);
    }
  }

  /** Both encodings are absolute and direct. */
  lemma FormatIs(enc: Byte)
    requires enc == ULEB || enc == UDATA4
    ensures Format(enc) == enc && Relative(enc) == 0 && enc < 128
    ensures FixedSize(1) == None && FixedSize(3) == Some(4)
  {
  }

  lemma HoldsWithin(data: seq<Byte>, pos: nat, s: seq<Byte>)
    requires Holds(data, pos, s)
    ensures pos + |s| <= |data|
  {
  }

  lemma Pow2OfBytes(n: nat)
    ensures Pow2(8 * (n + 1)) == 256 * Pow2(8 * n)
  {
    Pow2Plus(8, 8 * n);
    Pow2Plus(1, 7);
    Pow2At31();
  }

  lemma {:induction false} LeBytesReadBack(data: seq<Byte>, pos: nat, v: nat, n: nat)
    requires Holds(data, pos, LeBytes(v, n)) && v < Pow2(8 * n)
    ensures LittleEndian(data, pos, n) == v
    decreases n
  {
    if n > 0 {
      HoldsParts(data, pos, [v % 256], LeBytes(v / 256, n - 1));
      HoldsOne(data, pos, v % 256);
      Pow2OfBytes(n - 1);
      LeBytesReadBack(data, pos + 1, v / 256, n - 1);
    }
  }

  // ----- all encodings -----

  /** How many bytes a fixed-size format has: absptr, udata2, udata4, udata8, sdata2, sdata4, sdata8. */
  function BytesOf(format: nat): nat {
    if format == 2 || format == 10 then 2
    else if format == 3 || format == 11 then 4
    else if format == 0 || format == 4 || format == 12 then 8
    else 0
  }

  /** The 64-bit value can be written in the format and read again. */
  predicate Writable(format: nat, raw: nat) {
    && raw < U64
    && match format
       case 1 => raw < 0x8000_0000
       case 9 => -0x800_0000 <= ToS64(raw) < 0x8000_0000
       case 2 => raw < 0x1_0000
       case 3 => raw < 0x1_0000_0000
       case 10 => -0x8000 <= ToS64(raw) < 0x8000
       case 11 => -0x8000_0000 <= ToS64(raw) < 0x8000_0000
       case _ => format == 0 || format == 4 || format == 12
  }

  /** The value as it is written: LEB128, or the low bytes of the number, which is signed in formats 9 to 12. */
  function Written(format: nat, raw: nat): seq<Byte>
    requires Writable(format, raw)
  {
    if format == 1 then EncodeU(raw)
    else if format == 9 then EncodeS(ToS64(raw))
    else if BytesOf(format) == 2 then LeBytes(raw % 0x1_0000, 2)
    else if BytesOf(format) == 4 then LeBytes(raw % 0x1_0000_0000, 4)
    else LeBytes(raw, 8)
  }

  lemma Pow2Sizes()
    ensures Pow2(15) == 0x8000 && Pow2(16) == 0x1_0000 && Pow2(31) == 0x8000_0000 && Pow2(32) == 0x1_0000_0000
    ensures Pow2(64) == U64
  {
    Pow2At31();
    Pow2Plus(7, 1);
    Pow2Plus(8, 7);
    Pow2Plus(15, 1);
    Pow2Plus(31, 1);
    Pow2Plus(32, 32);
  }

  lemma TwoBytesSpread(raw: nat)
    requires raw < 0x8000 || U64 - 0x8000 <= raw < U64
    ensures Widen(raw % 0x1_0000, 2, true) == raw
  {
    Pow2Sizes();
    hide Pow2;
    assert Pow2(8 * 2 - 1) == 0x8000 && Pow2(8 * 2) == 0x1_0000;
    var low := raw % 0x1_0000;
    assert low == if raw < 0x8000 then raw else raw - U64 + 0x1_0000;
  }

  lemma FourBytesSpread(raw: nat)
    requires raw < 0x8000_0000 || U64 - 0x8000_0000 <= raw < U64
    ensures Widen(raw % 0x1_0000_0000, 4, true) == raw
  {
    Pow2Sizes();
    hide Pow2;
    assert Pow2(8 * 4 - 1) == 0x8000_0000 && Pow2(8 * 4) == 0x1_0000_0000;
    var low := raw % 0x1_0000_0000;
    assert low == if raw < 0x8000_0000 then raw else raw - U64 + 0x1_0000_0000;
  }

  /** A number of fewer than eight bytes is spread with its sign if the format is signed. */
  lemma WidensBack(format: nat, raw: nat)
    requires Writable(format, raw) && BytesOf(format) > 0
    ensures FixedSize(format) == Some(BytesOf(format))
    ensures var n := BytesOf(format);
            var v := if n == 8 then raw else if n == 4 then raw % 0x1_0000_0000 else raw % 0x1_0000;
            v < Pow2(8 * n) && Widen(v, n, format >= 8) == raw
  {
    Pow2Sizes();
    hide Pow2;
    if format == 10 {
      TwoBytesSpread(raw);
      hide Widen;
    } else if format == 11 {
      FourBytesSpread(raw);
      hide Widen;
    }
  }

  lemma RawReadsBack(data: seq<Byte>, pos: nat, enc: Byte, raw: nat)
    requires enc != OMIT && enc / 16 % 8 <= 1 && Writable(enc % 16, raw) && Holds(data, pos, Written(enc % 16, raw))
    ensures PointerDefined(data, pos, enc) && RawAt(data, pos, enc) == raw
    ensures PointerEnd(data, pos, enc) == pos + |Written(enc % 16, raw)|
  {
    hide LebLength, ULebAt, SLebAt, ULebDefined, SLebDefined, LittleEndian, LeBytes, EncodeU, EncodeS, Holds, Widen;
    var format := enc % 16;
    NotFixed();
    if format == 1 {
      ULebRoundTrip(data, pos, raw);
    } else if format == 9 {
      SLebRoundTrip(data, pos, ToS64(raw));
      SLebBelow(data, pos);
    } else {
      WidensBack(format, raw);
      hide FixedSize;
      var n := BytesOf(format);
      var v := if n == 8 then raw else if n == 4 then raw % 0x1_0000_0000 else raw % 0x1_0000;
      HoldsWithin(data, pos, LeBytes(v, n));
      LeBytesReadBack(data, pos, v, n);
    }
  }

  lemma NotFixed()
    ensures FixedSize(1) == None && FixedSize(9) == None
  {
  }

  /**
    Every encoding that is supported: in format `format`, relative to the position or not, direct or through
    a pointer. What is written is the address, or its distance from the place where it is written.
  */
  lemma AnyPointerReadsBack(pr: Process, data: seq<Byte>, pos: nat, format: nat, pcrel: bool, indirect: bool,
      address: nat)
    requires format < 16 && address < U64
    requires var raw := if pcrel then (address - pr.base - pos) % U64 else address;
             Writable(format, raw) && Holds(data, pos, Written(format, raw))
    ensures var enc := format + (if pcrel then 16 else 0) + (if indirect then 128 else 0);
            var raw := if pcrel then (address - pr.base - pos) % U64 else address;
            && PointerDefined(data, pos, enc) && PointerEnd(data, pos, enc) == pos + |Written(format, raw)|
            && PointerAt(pr, data, pos, enc) == if indirect then pr.word(address) else address
  {
    hide RawAt, Writable, Written, PointerEnd, Readable, Holds, FixedSize;
    var enc := format + (if pcrel then 16 else 0) + (if indirect then 128 else 0);
    var raw := if pcrel then (address - pr.base - pos) % U64 else address;
    assert enc % 16 == format && enc / 16 % 8 == (if pcrel then 1 else 0);
    RawReadsBack(data, pos, enc, raw);
    if pcrel {
      ThereAndBack(address, pr.base + pos);
    }
  }

  lemma ThereAndBack(a: nat, b: nat)
    requires a < U64
    ensures ((a - b) % U64 + b) % U64 == a
  {
    var q := (a - b) / U64;
    assert (a - b) % U64 + b == a + -q * U64;
  }

  lemma SiteReadsBack(pr: Process, data: seq<Byte>, pos: nat, enc: Byte, site: CallSite)
    requires Holds(data, pos, Site(enc, site)) && SiteFits(enc, site)
    ensures SiteAt(pr, data, pos, enc, site) && SiteEnd(data, pos, enc) == pos + |Site(enc, site)|
  {
    hide PointerDefined, PointerAt, PointerEnd, Pointer, Fits, Holds;
    var a, b, c, d := Pointer(enc, site.start), Pointer(enc, site.length), Pointer(enc, site.landingPad),
      EncodeU(site.action);
    HoldsParts(data, pos, a, b + (c + d));
    HoldsParts(data, pos + |a|, b, c + d);
    HoldsParts(data, pos + |a| + |b|, c, d);
    PointerReadsBack(pr, data, pos, enc, site.start);
    PointerReadsBack(pr, data, pos + |a|, enc, site.length);
    PointerReadsBack(pr, data, pos + |a| + |b|, enc, site.landingPad);
    ULebRoundTrip(data, pos + |a| + |b| + |c|, site.action);
  }

  lemma {:induction false} TableReadsBack(pr: Process, data: seq<Byte>, pos: nat, enc: Byte, sites: seq<CallSite>)
    requires Holds(data, pos, Table(enc, sites))
    requires forall i :: 0 <= i < |sites| ==> SiteFits(enc, sites[i])
    ensures TableAt(pr, data, pos, pos + |Table(enc, sites)|, enc, sites)
    decreases |sites|
  {
    hide SiteAt, SiteEnd, SiteFits, Site, Holds;
    if sites != [] {
      var s := Site(enc, sites[0]);
      HoldsParts(data, pos, s, Table(enc, sites[1..]));
      SiteReadsBack(pr, data, pos, enc, sites[0]);
      TableReadsBack(pr, data, pos + |s|, enc, sites[1..]);
      SiteIsNotEmpty(enc, sites[0]);
    }
  }

  lemma SiteIsNotEmpty(enc: Byte, site: CallSite)
    ensures Site(enc, site) != []
  {
    assert |EncodeU(site.action)| > 0;
  }

  /** The records of a chain, each behind the other: the distance to the next is one byte. */
  function Chain(types: seq<nat>): seq<Byte>
    requires types != []
  {
    if |types| == 1 then EncodeS(types[0]) + EncodeS(0)
    else (EncodeS(types[0]) + EncodeS(1)) + Chain(types[1..])
  }

  predicate ChainFits(chain: seq<nat>) {
    forall i :: 0 <= i < |chain| ==> chain[i] < 0x8000_0000
  }

  lemma {:induction false} ChainReadsBack(data: seq<Byte>, pos: nat, types: seq<nat>)
    requires types != [] && Holds(data, pos, Chain(types)) && ChainFits(types)
    ensures ChainAt(data, pos, types)
    decreases |types|
  {
    hide SLebDefined, SLebAt, LebLength, LebEnds;
    var t, link := EncodeS(types[0]), EncodeS(if |types| == 1 then 0 else 1);
    if |types| > 1 {
      HoldsParts(data, pos, t + link, Chain(types[1..]));
    }
    HoldsParts(data, pos, t, link);
    SLebRoundTrip(data, pos, types[0]);
    SLebRoundTrip(data, pos + |t|, if |types| == 1 then 0 else 1);
    if |types| > 1 {
      assert |link| == 1;
      ChainReadsBack(data, pos + |t| + 1, types[1..]);
    }
  }

  /** The records of the chains of all call sites, in order. */
  function Actions(sites: seq<CallSite>): seq<Byte> {
    if sites == [] then [] else ActionsOf(sites[0]) + Actions(sites[1..])
  }

  function ActionsOf(site: CallSite): seq<Byte> {
    if site.chain == [] then [] else Chain(site.chain)
  }

  /** Every action field is one more than the distance to the records of the site; the first lie at `offset`. */
  predicate Linked(sites: seq<CallSite>, offset: nat) {
    sites != [] ==>
      && sites[0].action == (if sites[0].chain == [] then 0 else offset + 1)
      && Linked(sites[1..], offset + |ActionsOf(sites[0])|)
  }

  lemma {:induction false} ActionsReadBack(data: seq<Byte>, table: nat, offset: nat, sites: seq<CallSite>,
                                           classInfo: seq<int>, x: Throw)
    requires Holds(data, table + offset, Actions(sites)) && Linked(sites, offset)
    requires forall i :: 0 <= i < |sites| ==> ChainFits(sites[i].chain) && TypesKnown(sites[i].chain, classInfo)
    ensures ActionsAt(data, table, sites, classInfo, x)
    decreases |sites|
  {
    hide ActionsOf, WalkAt, Holds, Covers, ChainFits, TypesKnown;
    if sites != [] {
      var site, rest := sites[0], sites[1..];
      HoldsParts(data, table + offset, ActionsOf(site), Actions(rest));
      SiteActionsReadBack(data, table + offset, site, classInfo, x.kind);
      ActionsReadBack(data, table, offset + |ActionsOf(site)|, rest, classInfo, x);
      forall i | 0 < i < |sites|
        ensures sites[i] == rest[i - 1]
      {
      }
    }
  }

  lemma SiteActionsReadBack(data: seq<Byte>, pos: nat, site: CallSite, classInfo: seq<int>, kind: int)
    requires Holds(data, pos, ActionsOf(site)) && ChainFits(site.chain) && TypesKnown(site.chain, classInfo)
    ensures site.chain != [] ==> WalkAt(data, pos, site.chain, classInfo, kind)
  {
    hide Chain, ChainAt, WalkAt, Holds;
    if site.chain != [] {
      ChainReadsBack(data, pos, site.chain);
      ChainIsWalk(data, pos, site.chain, classInfo, kind);
    }
  }

  /** A whole area: no landing pad base, a type table at `typeOffset`, the call sites, the actions, the types. */
  function Lsda(enc: Byte, ttypeEncoding: Byte, typeOffset: nat, sites: seq<CallSite>, types: seq<Byte>): seq<Byte> {
    var table := Table(enc, sites);
    [OMIT, ttypeEncoding] + (EncodeU(typeOffset) + ([enc] + (EncodeU(|table|) + (table + (Actions(sites) + types)))))
  }

  lemma HoldsAll(data: seq<Byte>)
    ensures Holds(data, 0, data)
  {
    assert data[0..|data|] == data;
  }

  lemma HeaderPieces(data: seq<Byte>, enc: Byte, ttypeEncoding: Byte, t: seq<Byte>, l: seq<Byte>, rest: seq<Byte>)
    requires data == [OMIT, ttypeEncoding] + (t + ([enc] + (l + rest)))
    ensures |data| > 1 && data[0] == OMIT && data[1] == ttypeEncoding && Holds(data, 2, t)
    ensures 2 + |t| < |data| && data[2 + |t|] == enc && Holds(data, 3 + |t|, l)
    ensures Holds(data, 3 + |t| + |l|, rest)
  {
    HoldsAll(data);
    HoldsParts(data, 0, [OMIT, ttypeEncoding], t + ([enc] + (l + rest)));
    HoldsParts(data, 2, t, [enc] + (l + rest));
    HoldsParts(data, 2 + |t|, [enc], l + rest);
    HoldsParts(data, 3 + |t|, l, rest);
    HoldsOne(data, 2 + |t|, enc);
    hide Holds;
  }

  lemma HeaderReadsBack(data: seq<Byte>, enc: Byte, ttypeEncoding: Byte, typeOffset: nat, length: nat, rest: seq<Byte>)
    returns (h: Layout)
    requires data == [OMIT, ttypeEncoding] + (EncodeU(typeOffset) + ([enc] + (EncodeU(length) + rest)))
    requires (enc == ULEB || enc == UDATA4) && ttypeEncoding != OMIT
    requires typeOffset < 0x8000_0000 && length < 0x8000_0000
    ensures HeaderAt(data, h) && !NoTypes(data) && h.enc == enc && h.end == h.start + length
    ensures Holds(data, h.start, rest)
  {
    hide ULebDefined, ULebAt, LebLength, LebEnds, EncodeU, Holds;
    var t, l := EncodeU(typeOffset), EncodeU(length);
    HeaderPieces(data, enc, ttypeEncoding, t, l, rest);
    ULebRoundTrip(data, 2, typeOffset);
    ULebRoundTrip(data, 3 + |t|, length);
    h := Layout(enc, 3 + |t| + |l|, 3 + |t| + |l| + length);
  }

  lemma HoldsOne(data: seq<Byte>, pos: nat, b: Byte)
    requires Holds(data, pos, [b])
    ensures pos < |data| && data[pos] == b
  {
    assert data[pos..pos + 1][0] == b;
  }

  /**
    The walk over the bytes refines the lookup on the entries: any serialized area, in either
    encoding, is one on which `HandleLsda` decides as `Personality` does on the entries it was
    written from, whatever is thrown.
  */
  lemma SerializedIsWellFormed(pr: Process, enc: Byte, ttypeEncoding: Byte, typeOffset: nat, sites: seq<CallSite>,
                               types: seq<Byte>, classInfo: seq<int>, x: Throw) returns (h: Layout)
    requires (enc == ULEB || enc == UDATA4) && ttypeEncoding != OMIT
    requires typeOffset < 0x8000_0000 && |Table(enc, sites)| < 0x8000_0000
    requires forall i :: 0 <= i < |sites| ==>
               SiteFits(enc, sites[i]) && ChainFits(sites[i].chain) && TypesKnown(sites[i].chain, classInfo)
    requires Linked(sites, 0)
    ensures LsdaAt(pr, Lsda(enc, ttypeEncoding, typeOffset, sites, types), h, sites, classInfo, x)
  {
    hide HeaderAt, NoTypes, SiteFits, ActionsAt, ChainFits, TypesKnown, Linked, Holds, TableAt, Table, Actions;
    var data, table, actions := Lsda(enc, ttypeEncoding, typeOffset, sites, types), Table(enc, sites), Actions(sites);
    h := HeaderReadsBack(data, enc, ttypeEncoding, typeOffset, |table|, table + (actions + types));
    HoldsParts(data, h.start, table, actions + types);
    TableReadsBack(pr, data, h.start, enc, sites);
    HoldsParts(data, h.end, actions, types);
    ActionsReadBack(data, h.end, 0, sites, classInfo, x);
  }

  lemma OneByte(v: nat)
    ensures v < 128 ==> EncodeU(v) == [v]
    ensures v < 64 ==> EncodeS(v) == [v]
  {
  }

  lemma OneSite(site: CallSite)
    requires site.start < 128 && site.length < 128 && site.landingPad < 128 && site.action < 128
    ensures Table(ULEB, [site]) == [site.start, site.length, site.landingPad, site.action]
  {
    OneByte(site.start);
    OneByte(site.length);
    OneByte(site.landingPad);
    OneByte(site.action);
    hide EncodeU;
    assert [site][1..] == [] && Table(ULEB, []) == [];
    assert Site(ULEB, site) == [site.start, site.length, site.landingPad, site.action];
  }

  /** One area, byte by byte: a call site [0, 5) with its landing pad at 16, which catches the first type. */
  lemma ExampleArea()
    ensures Lsda(ULEB, 0, 8, [CallSite(0, 5, 16, 1, [1])], []) == [255, 0, 8, 1, 4, 0, 5, 16, 1, 1, 0]
  {
    var site := CallSite(0, 5, 16, 1, [1]);
    OneSite(site);
    OneByte(8);
    OneByte(4);
    OneByte(1);
    OneByte(0);
    hide EncodeU, EncodeS, Table;
    assert [site][1..] == [] && Actions([]) == [] && Chain([1]) == [1, 0];
    assert Actions([site]) == [1, 0];
    hide Actions;
    assert [4] + ([0, 5, 16, 1] + ([1, 0] + [])) == [4, 0, 5, 16, 1, 1, 0];
  }
}
