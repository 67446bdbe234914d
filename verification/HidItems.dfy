/**
 What an accepted HID descriptor means: an encoder of items that knows nothing of the parser (the
 short items of section 6.2.2.2 of the Device Class Definition for HID 1.11), and what the parser
 makes of what it writes.
 */
module HidItems {
  import opened Basics
  import opened Hid
  import opened HidLayout

  datatype Kind =
    | UsagePage | LogicalMinimum | LogicalMaximum | PhysicalMinimum | PhysicalMaximum
    | UnitExponent | Unit | ReportSize | ReportId | ReportCount
    | UsageOne | UsageMinimum | UsageMaximum

  /** A global or local item with one byte of data, or two. */
  datatype Entry = Entry(kind: Kind, wide: bool, value: int)

  // ---------- Writing items ----------

  predicate Signed(k: Kind) {
    k in {LogicalMinimum, LogicalMaximum, PhysicalMinimum, PhysicalMaximum}
  }

  /** The value can be written in that many bytes. */
  predicate Fits(e: Entry) {
    if Signed(e.kind) then
      if e.wide then -0x8000 <= e.value < 0x8000 else -0x80 <= e.value < 0x80
    else
      0 <= e.value < if e.wide then 0x10000 else 0x100
  }

  /** Tag and type of an item, as they stand in its first byte. */
  function Prefix(k: Kind): nat {
    match k
    case UsagePage => 0x04
    case LogicalMinimum => 0x14
    case LogicalMaximum => 0x24
    case PhysicalMinimum => 0x34
    case PhysicalMaximum => 0x44
    case UnitExponent => 0x54
    case Unit => 0x64
    case ReportSize => 0x74
    case ReportId => 0x84
    case ReportCount => 0x94
    case UsageOne => 0x08
    case UsageMinimum => 0x18
    case UsageMaximum => 0x28
  }

  /** The value in one byte or in two, low byte first; a negative one in two's complement. */
  function Data(wide: bool, value: int): (s: seq<uint8>)
    ensures |s| == if wide then 2 else 1
  {
    if wide then [(value % 0x100) as uint8, (value / 0x100 % 0x100) as uint8] else [(value % 0x100) as uint8]
  }

  function Encode(e: Entry): (s: seq<uint8>)
    ensures |s| == if e.wide then 3 else 2
  {
    [(Prefix(e.kind) + if e.wide then 2 else 1) as uint8] + Data(e.wide, e.value)
  }

  function EncodeAll(es: seq<Entry>): seq<uint8> {
    if es == [] then [] else EncodeAll(es[..|es| - 1]) + Encode(es[|es| - 1])
  }

  // ---------- What items mean ----------

  function Low8(v: int): uint8 {
    (v % 0x100) as uint8
  }

  /** The last value given for a setting. */
  function Last(es: seq<Entry>, k: Kind, before: int): int {
    if es == [] then before
    else if es[|es| - 1].kind == k then es[|es| - 1].value
    else Last(es[..|es| - 1], k, before)
  }

  /** Every setting has the last value given for it, those of the source's 8-bit fields in 8 bits. */
  function Settings(g: Global, es: seq<Entry>): Global {
    Global(Last(es, LogicalMinimum, g.logicalMinimum), Last(es, LogicalMaximum, g.logicalMaximum),
           Last(es, PhysicalMinimum, g.physicalMinimum), Last(es, PhysicalMaximum, g.physicalMaximum),
           Low8(Last(es, Unit, g.unit as int)), Low8(Last(es, ReportSize, g.reportSize as int)),
           Low8(Last(es, ReportCount, g.reportCount as int)), Low8(Last(es, ReportId, g.reportId as int)))
  }

  /** The usage page: the last one given, as a signed byte. */
  function Page(h: State, es: seq<Entry>): int {
    if es == [] then h.usagePage
    else if es[|es| - 1].kind == UsagePage then
      var u := es[|es| - 1].value % 0x100;
      if u < 0x80 then u else u - 0x100
    else Page(h, es[..|es| - 1])
  }

  function Minimum(h: State, es: seq<Entry>): uint8 {
    Low8(Last(es, UsageMinimum, h.local.usageMinimum as int))
  }

  /** The usages listed, one by one and by ranges; each has the page that was set when it came. */
  function Listed(h: State, es: seq<Entry>): seq<Usage> {
    if es == [] then h.local.usages
    else
      var before, e := es[..|es| - 1], es[|es| - 1];
      var c, p, v := Low8(h.current), Low8(Page(h, before)), Low8(e.value);
      Listed(h, before)
      + match e.kind
        case UsageOne => [Usage(c, p, v, v)]
        case UsageMaximum => [Usage(c, p, Minimum(h, before), v)]
        case _ => []
  }

  /** What makes a list of items unacceptable: a range that ends below its minimum, or a usage too many. */
  predicate Admissible(h: State, es: seq<Entry>) {
    es == []
    || var before, e := es[..|es| - 1], es[|es| - 1];
       && Admissible(h, before)
       && (e.kind == UsageOne || e.kind == UsageMaximum ==> |Listed(h, before)| < 32)
       && (e.kind == UsageMaximum ==> e.value >= Minimum(h, before) as int)
  }

  /** The state after the items. */
  function After(h: State, es: seq<Entry>): State {
    h.(usagePage := Page(h, es), global := Settings(h.global, es),
       local := Local(Listed(h, es), Minimum(h, es)))
  }

  // ---------- What the parser reads ----------

  lemma DataIsRead(desc: seq<uint8>, at: nat, wide: bool, value: int)
    requires at + 2 <= |desc| || (!wide && at + 1 <= |desc|)
    requires desc[at..at + if wide then 2 else 1] == Data(wide, value)
    ensures UnsignedData(desc, at, if wide then 2 else 1) == value % (if wide then 0x10000 else 0x100)
    ensures ByteAt(desc, at) == Low8(value)
  {
    var d := desc[at..at + if wide then 2 else 1];
    assert d[0] == desc[at];
    if wide {
      assert d[1] == desc[at + 1];
    }
  }

  lemma SignedByte(value: int)
    requires -0x80 <= value < 0x80
    ensures ToInt8(value % 0x100) == value
  {
  }

  lemma SignedWord(value: int)
    requires -0x8000 <= value < 0x8000
    ensures ToInt16(value % 0x10000) == value == ToInt16(value)
  {
  }

  lemma SignedIsRead(desc: seq<uint8>, at: nat, wide: bool, value: int)
    requires UnsignedData(desc, at, if wide then 2 else 1) == value % (if wide then 0x10000 else 0x100)
    requires if wide then -0x8000 <= value < 0x8000 else -0x80 <= value < 0x80
    ensures SignedData(desc, at, if wide then 2 else 1) == value == ToInt16(value)
  {
    hide UnsignedData, ToInt8, ToInt16;
    SignedWord(value);
    if !wide {
      SignedByte(value);
    }
  }

  /** The value that one item has for the parser. */
  lemma ValueIsRead(desc: seq<uint8>, at: nat, e: Entry)
    requires Fits(e) && at + |Encode(e)| <= |desc| && desc[at..at + |Encode(e)|] == Encode(e)
    ensures desc[at] as nat == Prefix(e.kind) + if e.wide then 2 else 1
    ensures ByteAt(desc, at + 1) == Low8(e.value)
    ensures var len := if e.wide then 2 else 1;
            if Signed(e.kind) then SignedData(desc, at + 1, len) == e.value == ToInt16(e.value)
            else UnsignedData(desc, at + 1, len) == e.value
  {
    hide UnsignedData, SignedData, Data;
    var n := if e.wide then 2 else 1;
    var s := desc[at..at + |Encode(e)|];
    assert s[0] == desc[at] && s[1..] == desc[at + 1..at + 1 + n];
    DataIsRead(desc, at + 1, e.wide, e.value);
    if Signed(e.kind) {
      SignedIsRead(desc, at + 1, e.wide, e.value);
    }
  }

  // ---------- One item ----------

  lemma LastOne(e: Entry, k: Kind, before: int)
    ensures Last([e], k, before) == if e.kind == k then e.value else before
  {
    assert [e][..0] == [];
  }

  lemma Low8Same(b: uint8)
    ensures Low8(b as int) == b
  {
  }

  /** What one item changes. */
  lemma SettingsOne(g: Global, e: Entry)
    ensures Settings(g, [e]) ==
      match e.kind
      case LogicalMinimum => g.(logicalMinimum := e.value)
      case LogicalMaximum => g.(logicalMaximum := e.value)
      case PhysicalMinimum => g.(physicalMinimum := e.value)
      case PhysicalMaximum => g.(physicalMaximum := e.value)
      case Unit => g.(unit := Low8(e.value))
      case ReportSize => g.(reportSize := Low8(e.value))
      case ReportCount => g.(reportCount := Low8(e.value))
      case ReportId => g.(reportId := Low8(e.value))
      case _ => g
  {
    hide Last, Low8;
    LastOne(e, LogicalMinimum, g.logicalMinimum);
    LastOne(e, LogicalMaximum, g.logicalMaximum);
    LastOne(e, PhysicalMinimum, g.physicalMinimum);
    LastOne(e, PhysicalMaximum, g.physicalMaximum);
    LastOne(e, Unit, g.unit as int);
    LastOne(e, ReportSize, g.reportSize as int);
    LastOne(e, ReportCount, g.reportCount as int);
    LastOne(e, ReportId, g.reportId as int);
    Low8Same(g.unit);
    Low8Same(g.reportSize);
    Low8Same(g.reportCount);
    Low8Same(g.reportId);
  }

  lemma LocalOne(h: State, e: Entry)
    ensures Minimum(h, [e]) == if e.kind == UsageMinimum then Low8(e.value) else h.local.usageMinimum
    ensures var c, p, v := Low8(h.current), Low8(h.usagePage), Low8(e.value);
            Listed(h, [e]) == h.local.usages
              + match e.kind
                case UsageOne => [Usage(c, p, v, v)]
                case UsageMaximum => [Usage(c, p, h.local.usageMinimum, v)]
                case _ => []
    ensures Page(h, [e]) == if e.kind == UsagePage then ToInt8(e.value) else h.usagePage
    ensures Admissible(h, [e]) <==>
      && (e.kind == UsageOne || e.kind == UsageMaximum ==> |h.local.usages| < 32)
      && (e.kind == UsageMaximum ==> e.value >= h.local.usageMinimum as int)
  {
    assert [e][..0] == [];
    LastOne(e, UsageMinimum, h.local.usageMinimum as int);
    Low8Same(h.local.usageMinimum);
    hide Low8;
  }

  lemma ByteIsInt8(v: int)
    ensures ToInt8(Low8(v) as int) == ToInt8(v)
  {
  }

  predicate IsLocal(k: Kind) {
    k in {UsageOne, UsageMinimum, UsageMaximum}
  }

  /** An encoded item goes to the right one of the parser's functions, with its tag and size. */
  lemma Dispatched(h: State, desc: seq<uint8>, at: nat, e: Entry)
    requires at < |desc| && desc[at] as nat == Prefix(e.kind) + if e.wide then 2 else 1
    ensures var n, tag := if e.wide then 2 else 1, Prefix(e.kind) / 4;
            DataSize(desc[at]) == n
            && Item(h, desc, at) == if IsLocal(e.kind) then LocalEntry(h, tag, desc, at + 1, n)
                                    else GlobalEntry(h, tag, desc, at + 1, n)
  {
    hide LocalEntry, GlobalEntry, MainEntry;
  }

  lemma GlobalItem(h: State, desc: seq<uint8>, at: nat, e: Entry)
    requires !IsLocal(e.kind) && ByteAt(desc, at) == Low8(e.value)
    requires var n := if e.wide then 2 else 1;
             if Signed(e.kind) then SignedData(desc, at, n) == e.value == ToInt16(e.value)
             else UnsignedData(desc, at, n) == e.value
    ensures Admissible(h, [e])
    ensures GlobalEntry(h, Prefix(e.kind) / 4, desc, at, if e.wide then 2 else 1) == Some(After(h, [e]))
  {
    SettingsOne(h.global, e);
    LocalOne(h, e);
    ByteIsInt8(e.value);
    hide UnsignedData, SignedData, Settings, Listed, Minimum, Page, Admissible, ToInt8, ToInt16, ByteAt;
    assert h.local.usages + [] == h.local.usages;
  }

  lemma AfterLocal(h: State, e: Entry)
    requires IsLocal(e.kind)
    ensures After(h, [e]) == h.(local := Local(Listed(h, [e]), Minimum(h, [e])))
  {
    SettingsOne(h.global, e);
    LocalOne(h, e);
    hide Settings, Listed, Minimum, Page;
  }

  lemma LocalItem(h: State, desc: seq<uint8>, at: nat, e: Entry)
    requires |h.local.usages| <= 32 && IsLocal(e.kind) && e.value >= 0
    requires UnsignedData(desc, at, if e.wide then 2 else 1) == e.value
    ensures LocalEntry(h, Prefix(e.kind) / 4, desc, at, if e.wide then 2 else 1)
         == if Admissible(h, [e]) then Some(After(h, [e])) else None
  {
    AfterLocal(h, e);
    LocalOne(h, e);
    hide UnsignedData, Settings, Listed, Minimum, Page, Admissible, After;
    if e.kind == UsageMinimum {
      assert h.local.usages + [] == h.local.usages;
    }
  }

  /** The parser on one encoded item. */
  lemma OneItem(h: State, desc: seq<uint8>, at: nat, e: Entry)
    requires |h.local.usages| <= 32 && Fits(e)
    requires at + |Encode(e)| <= |desc| && desc[at..at + |Encode(e)|] == Encode(e)
    ensures Item(h, desc, at) == if Admissible(h, [e]) then Some(After(h, [e])) else None
    ensures DataSize(desc[at]) == if e.wide then 2 else 1
  {
    ValueIsRead(desc, at, e);
    Dispatched(h, desc, at, e);
    hide UnsignedData, SignedData, Encode, After, Admissible, ToInt16, LocalEntry, GlobalEntry, Item, DataSize;
    if IsLocal(e.kind) {
      LocalItem(h, desc, at + 1, e);
    } else {
      GlobalItem(h, desc, at + 1, e);
    }
  }

  // ---------- Many items ----------

  lemma {:induction false} LastSnoc(es: seq<Entry>, e: Entry, k: Kind, before: int)
    ensures Last(es + [e], k, before) == Last([e], k, Last(es, k, before))
  {
    assert (es + [e])[..|es|] == es && [e][..0] == [];
  }

  lemma Low8Last(es: seq<Entry>, e: Entry, k: Kind, before: int)
    ensures Low8(Last(es + [e], k, before)) == Low8(Last([e], k, Low8(Last(es, k, before)) as int))
  {
    hide Last, Low8;
    LastSnoc(es, e, k, before);
    LastOne(e, k, Last(es, k, before));
    LastOne(e, k, Low8(Last(es, k, before)) as int);
    Low8Same(Low8(Last(es, k, before)));
  }

  lemma SettingsSnoc(g: Global, es: seq<Entry>, e: Entry)
    ensures Settings(g, es + [e]) == Settings(Settings(g, es), [e])
  {
    hide Last, Low8;
    LastSnoc(es, e, LogicalMinimum, g.logicalMinimum);
    LastSnoc(es, e, LogicalMaximum, g.logicalMaximum);
    LastSnoc(es, e, PhysicalMinimum, g.physicalMinimum);
    LastSnoc(es, e, PhysicalMaximum, g.physicalMaximum);
    Low8Last(es, e, Unit, g.unit as int);
    Low8Last(es, e, ReportSize, g.reportSize as int);
    Low8Last(es, e, ReportCount, g.reportCount as int);
    Low8Last(es, e, ReportId, g.reportId as int);
  }

  lemma LocalSnoc(h: State, es: seq<Entry>, e: Entry)
    ensures Listed(h, es + [e]) == Listed(After(h, es), [e])
    ensures Page(h, es + [e]) == Page(After(h, es), [e])
    ensures Admissible(h, es + [e]) <==> Admissible(h, es) && Admissible(After(h, es), [e])
  {
    LocalOne(After(h, es), e);
    assert (es + [e])[..|es|] == es;
    hide Settings, Last, Low8, Minimum;
  }

  lemma AfterSnoc(h: State, es: seq<Entry>, e: Entry)
    ensures After(h, es + [e]) == After(After(h, es), [e])
    ensures Admissible(h, es + [e]) <==> Admissible(h, es) && Admissible(After(h, es), [e])
  {
    SettingsSnoc(h.global, es, e);
    LocalSnoc(h, es, e);
    Low8Last(es, e, UsageMinimum, h.local.usageMinimum as int);
    hide Settings, Last, Low8, Listed, Page, Admissible;
  }

  lemma AfterNone(h: State)
    ensures After(h, []) == h && Admissible(h, []) && EncodeAll([]) == []
  {
    Low8Same(h.global.unit);
    Low8Same(h.global.reportSize);
    Low8Same(h.global.reportCount);
    Low8Same(h.global.reportId);
    Low8Same(h.local.usageMinimum);
    hide Low8;
  }

  /** These bytes stand in the descriptor at this place. */
  predicate Stands(desc: seq<uint8>, at: nat, s: seq<uint8>) {
    at + |s| <= |desc| && desc[at..at + |s|] == s
  }

  /** One step of the parser over an encoded item. */
  lemma ItemParsed(h: State, desc: seq<uint8>, at: nat, e: Entry, next: nat)
    requires |h.local.usages| <= 32 && Fits(e)
    requires Stands(desc, at, Encode(e)) && next == at + |Encode(e)|
    ensures ParseFrom(h, desc, at)
         == if Admissible(h, [e]) then ParseFrom(After(h, [e]), desc, next) else None
  {
    OneItem(h, desc, at, e);
    hide Item, Admissible, After;
  }

  lemma StandsBoth(desc: seq<uint8>, at: nat, a: seq<uint8>, b: seq<uint8>, mid: nat)
    requires Stands(desc, at, a + b) && mid == at + |a|
    ensures Stands(desc, at, a) && Stands(desc, mid, b)
  {
    var d := desc[at..at + |a + b|];
    assert d[..|a|] == a && d[|a|..] == b;
    assert desc[at..mid] == d[..|a|] && desc[mid..mid + |b|] == d[|a|..];
  }

  /** Encoded items anywhere in a descriptor are accepted exactly if they are admissible, and then
      the parser goes on behind them with every setting and usage as the items say. */
  lemma {:induction false} ItemsParsed(h: State, es: seq<Entry>, desc: seq<uint8>, at: nat, next: nat)
    requires |h.local.usages| <= 32 && forall e :: e in es ==> Fits(e)
    requires Stands(desc, at, EncodeAll(es)) && next == at + |EncodeAll(es)|
    ensures ParseFrom(h, desc, at) == if Admissible(h, es) then ParseFrom(After(h, es), desc, next) else None
    ensures Admissible(h, es) ==> |Listed(h, es)| <= 32
    decreases |es|
  {
    hide ParseFrom, Encode, Fits, Stands;
    if es == [] {
      AfterNone(h);
    } else {
      var front, e := es[..|es| - 1], es[|es| - 1];
      var mid := at + |EncodeAll(front)|;
      StandsBoth(desc, at, EncodeAll(front), Encode(e), mid);
      ItemsParsed(h, front, desc, at, mid);
      assert e in es && es == front + [e];
      AfterSnoc(h, front, e);
      hide EncodeAll, After, Admissible;
      if Admissible(h, front) {
        ItemParsed(After(h, front), desc, mid, e, next);
      }
    }
  }

  // ---------- An input item and its field ----------

  /** The fields and the size of the report with a given id; of no report, none and 0. */
  function FieldsOf(rs: seq<Report>, id: uint8): seq<Field> {
    var k := FindReport(rs, id);
    if k < |rs| then rs[k].fields else []
  }

  function SizeOf(rs: seq<Report>, id: uint8): nat {
    var k := FindReport(rs, id);
    if k < |rs| then rs[k].size else 0
  }

  /** The ids of the reports, in order. */
  function Ids(rs: seq<Report>): (ids: seq<uint8>)
    ensures |ids| == |rs| && forall i :: 0 <= i < |rs| ==> ids[i] == rs[i].id
  {
    seq(|rs|, i requires 0 <= i < |rs| => rs[i].id)
  }

  /** A new report comes behind those there are; no other changes its place. */
  lemma InputOrder(h: State, flags: uint8)
    ensures Ids(AddInput(h, flags).reports)
         == Ids(h.reports) + if h.global.reportId in Ids(h.reports) then [] else [h.global.reportId]
  {
    var id := h.global.reportId;
    RegisteredReport(h.reports, id);
    var rs := RegisterReport(h.reports, id);
    var k, k0 := FindReport(rs, id), FindReport(h.reports, id);
    assert k0 < |h.reports| ==> Ids(h.reports)[k0] == id;
    var h1 := AddInput(h, flags);
    assert rs == if k0 < |h.reports| then h.reports else h.reports + [Report(id, 0, [])];
    hide CountUsages, FindReport, RegisterReport, Global.Bits;
    assert h1.reports == rs[k := h1.reports[k]] && h1.reports[k].id == rs[k].id;
    assert Ids(h1.reports) == Ids(rs);
  }

  lemma ReportFound(rs: seq<Report>, id: uint8, k: nat)
    requires k <= |rs| && (k < |rs| ==> rs[k].id == id) && forall i :: 0 <= i < k ==> rs[i].id != id
    ensures FindReport(rs, id) == k
  {
  }

  /** With a new, empty report every id has the same fields and size as before. */
  lemma RegisteredSame(rs: seq<Report>, id: uint8, x: uint8)
    ensures FieldsOf(RegisterReport(rs, id), x) == FieldsOf(rs, x) && SizeOf(RegisterReport(rs, id), x) == SizeOf(rs, x)
  {
    if FindReport(rs, id) == |rs| {
      var k := FindReport(rs, x);
      var rs1 := rs + [Report(id, 0, [])];
      hide FindReport;
      ReportFound(rs1, x, if k < |rs| || x == id then k else k + 1);
    }
  }

  lemma ReplacedOnly(rs: seq<Report>, k: nat, r: Report, x: uint8)
    requires k < |rs| && FindReport(rs, r.id) == k
    ensures FieldsOf(rs[k := r], x) == if x == r.id then r.fields else FieldsOf(rs, x)
    ensures SizeOf(rs[k := r], x) == if x == r.id then r.size else SizeOf(rs, x)
  {
    var j := FindReport(rs, x);
    hide FindReport;
    assert j == k ==> x == r.id;
    ReportFound(rs[k := r], x, j);
  }

  /** hid_add_input in terms of ids: one report grows, by a field at its old end if there are usages;
      no other report changes. */
  lemma InputGrowsOne(h: State, flags: uint8, x: uint8)
    ensures var h1, g, before := AddInput(h, flags), h.global, h.reports;
            && h1 == h.(reports := h1.reports, total := h1.total)
            && (x != g.reportId ==>
                  FieldsOf(h1.reports, x) == FieldsOf(before, x) && SizeOf(h1.reports, x) == SizeOf(before, x))
            && (x == g.reportId ==>
                  SizeOf(h1.reports, x) == (SizeOf(before, x) + (g.reportSize as nat) * (g.reportCount as nat)) % 0x10000)
            && (x == g.reportId ==>
                  FieldsOf(h1.reports, x)
                  == FieldsOf(before, x) + if CountUsages(h.local.usages) > 0
                                        then [Field(flags, h.local.usages, SizeOf(before, x), g)] else [])
  {
    var id := h.global.reportId;
    RegisteredReport(h.reports, id);
    RegisteredSame(h.reports, id, x);
    var rs := RegisterReport(h.reports, id);
    var k := FindReport(rs, id);
    var r := AddInput(h, flags).reports[k];
    hide CountUsages, FindReport, RegisterReport;
    assert AddInput(h, flags).reports == rs[k := r] && r.id == id;
    ReplacedOnly(rs, k, r, x);
    assert FieldsOf(h.reports, id) + [] == FieldsOf(h.reports, id);
  }

  // ---------- Main items ----------

  predicate IsMain(prefix: uint8) {
    prefix == 0x81 || prefix == 0x91 || prefix == 0xA1 || prefix == 0xB1
  }

  lemma MainDispatched(h: State, desc: seq<uint8>, at: nat)
    requires at < |desc| && IsMain(desc[at])
    ensures DataSize(desc[at]) == 1
    ensures Item(h, desc, at) == MainEntry(h, desc[at] as int / 4, ByteAt(desc, at + 1))
  {
    hide MainEntry, LocalEntry, GlobalEntry, ByteAt;
  }

  lemma TwoBytes(desc: seq<uint8>, at: nat, a: uint8, b: uint8)
    requires Stands(desc, at, [a, b])
    ensures at + 2 <= |desc| && desc[at] == a && ByteAt(desc, at + 1) == b
  {
    var d := desc[at..at + 2];
    assert d[0] == desc[at] && d[1] == desc[at + 1];
  }

  /** A main item with one byte of data, 0x81 for input. */
  lemma MainParsed(h: State, desc: seq<uint8>, at: nat, tag: uint8, data: uint8, next: nat)
    requires Stands(desc, at, [tag, data]) && IsMain(tag) && next == at + 2
    ensures ParseFrom(h, desc, at)
         == match MainEntry(h, tag as int / 4, data) case None => None case Some(h1) => ParseFrom(h1, desc, next)
  {
    TwoBytes(desc, at, tag, data);
    MainDispatched(h, desc, at);
    hide Item, MainEntry, ByteAt, DataSize, IsMain, Stands;
  }

  lemma EndDispatched(h: State, desc: seq<uint8>, at: nat)
    requires at < |desc| && desc[at] == 0xC0
    requires h.usagePage > 0 && 0 <= h.current < |h.collections|
    ensures Item(h, desc, at) == Some(h.(current := h.collections[h.current].parent))
  {
    hide LocalEntry, GlobalEntry, ByteAt, AddInput;
  }

  /** The end of a collection. */
  lemma EndParsed(h: State, desc: seq<uint8>, at: nat, next: nat)
    requires Stands(desc, at, [0xC0]) && next == at + 1
    requires h.usagePage > 0 && 0 <= h.current < |h.collections|
    ensures ParseFrom(h, desc, at) == ParseFrom(h.(current := h.collections[h.current].parent), desc, next)
  {
    var d := desc[at..at + 1];
    assert d[0] == desc[at];
    EndDispatched(h, desc, at);
    hide Item, Stands;
  }

  /** The state after the items and an input item. */
  function WithInput(h: State, es: seq<Entry>, flags: uint8): State {
    var h1 := After(h, es);
    if h1.usagePage <= 0 then h1 else AddInput(h1, flags).(local := NO_LOCAL)
  }

  lemma InputParsed(h: State, es: seq<Entry>, flags: uint8, desc: seq<uint8>, at: nat, next: nat)
    requires |h.local.usages| <= 32 && forall e :: e in es ==> Fits(e)
    requires Stands(desc, at, EncodeAll(es) + [0x81, flags]) && next == at + |EncodeAll(es)| + 2
    ensures ParseFrom(h, desc, at) == if Admissible(h, es) then ParseFrom(WithInput(h, es, flags), desc, next) else None
  {
    var mid := at + |EncodeAll(es)|;
    hide After, AddInput, Admissible, EncodeAll, Stands, ParseFrom;
    StandsBoth(desc, at, EncodeAll(es), [0x81, flags], mid);
    ItemsParsed(h, es, desc, at, mid);
    if Admissible(h, es) {
      MainParsed(After(h, es), desc, mid, 0x81, flags, next);
    }
  }

  /** How an input item that came behind the items `es` has changed the report with id x. */
  ghost predicate InputSeen(h: State, es: seq<Entry>, flags: uint8, reports: seq<Report>, x: uint8) {
    var g := Settings(h.global, es);
    if x != g.reportId then FieldsOf(reports, x) == FieldsOf(h.reports, x) && SizeOf(reports, x) == SizeOf(h.reports, x)
    else
      && SizeOf(reports, x) == (SizeOf(h.reports, x) + (g.reportSize as nat) * (g.reportCount as nat)) % 0x10000
      && FieldsOf(reports, x)
         == FieldsOf(h.reports, x)
            + if CountUsages(Listed(h, es)) > 0 then [Field(flags, Listed(h, es), SizeOf(h.reports, x), g)] else []
  }

  lemma InputIsSeen(h: State, es: seq<Entry>, flags: uint8, x: uint8)
    ensures InputSeen(h, es, flags, AddInput(After(h, es), flags).reports, x)
  {
    hide AddInput, Settings, Listed, Page, Minimum, FieldsOf, SizeOf, CountUsages;
    InputGrowsOne(After(h, es), flags, x);
  }

  lemma KeepsOthers(h: State, flags: uint8)
    ensures var h1 := AddInput(h, flags); h1 == h.(reports := h1.reports, total := h1.total)
  {
  }

  /** Any items and an input item: from any state the parser accepts them exactly if they are
      admissible. The settings are then the last ones given. Unless the usage page is not positive,
      the report with the last id given has grown by the last size times the last count, with a
      field of exactly these settings and the usages listed since the last main item, every other
      report is as before, and a new one comes last. */
  lemma InputMeansItsItems(h: State, es: seq<Entry>, flags: uint8, desc: seq<uint8>)
    requires |h.local.usages| <= 32 && forall e :: e in es ==> Fits(e)
    requires desc == EncodeAll(es) + [0x81, flags]
    ensures ParseFrom(h, desc, 0).Some? <==> Admissible(h, es)
    ensures match ParseFrom(h, desc, 0)
            case None => true
            case Some(h1) =>
              && h1.usagePage == Page(h, es) && h1.global == Settings(h.global, es)
              && h1.current == h.current && h1.collections == h.collections
              && if Page(h, es) <= 0 then h1.reports == h.reports && h1.local.usages == Listed(h, es)
                 else
                   && h1.local == Local([], 0) && (forall x :: InputSeen(h, es, flags, h1.reports, x))
                   && var id := Settings(h.global, es).reportId;
                      Ids(h1.reports) == Ids(h.reports) + if id in Ids(h.reports) then [] else [id]
  {
    assert desc[0..|desc|] == desc;
    InputParsed(h, es, flags, desc, 0, |desc|);
    ParsedAll(WithInput(h, es, flags), desc);
    forall x ensures InputSeen(h, es, flags, AddInput(After(h, es), flags).reports, x) {
      InputIsSeen(h, es, flags, x);
    }
    KeepsOthers(After(h, es), flags);
    InputOrder(After(h, es), flags);
    hide ParseFrom, Settings, Listed, Page, Minimum, EncodeAll, AddInput, InputSeen, Admissible;
  }

  // ---------- Other items ----------

  /** Output and feature items only end the list of usages. */
  lemma OutputParsed(h: State, desc: seq<uint8>, at: nat, tag: uint8, data: uint8, next: nat)
    requires Stands(desc, at, [tag, data]) && (tag == 0x91 || tag == 0xB1) && next == at + 2
    ensures ParseFrom(h, desc, at)
         == ParseFrom(if h.usagePage <= 0 then h else h.(local := Local([], 0)), desc, next)
  {
    MainParsed(h, desc, at, tag, data, next);
  }

  /** The first bytes of items that the parser knows, but for the number of data bytes. */
  predicate Known(prefix: uint8) {
    (prefix - prefix % 4) in {
      0x04, 0x14, 0x24, 0x34, 0x44, 0x54, 0x64, 0x74, 0x84, 0x94,  // global
      0x08, 0x18, 0x28,                                            // local
      0x80, 0x90, 0xA0, 0xB0, 0xC0}                                // main
  }

  /** Every other item is an error, except that before there is a usage page main items are not
      looked at; long items are always an error. */
  lemma UnknownRejected(h: State, desc: seq<uint8>, at: nat)
    requires at < |desc| && !Known(desc[at])
    ensures Item(h, desc, at) == if desc[at] / 4 % 4 == 0 && desc[at] < 0xF0 && h.usagePage <= 0 then Some(h) else None
  {
    hide AddInput, AddLocalUsage, UnsignedData, SignedData, ToInt16, ToUint8;
  }

  /** An item whose data would reach behind the end of the descriptor is an error; its first byte
      says how many bytes of data it has: 0, 1, 2 or 4. */
  lemma CutItemRejected(h: State, desc: seq<uint8>, at: nat)
    requires at < |desc|
    requires var size := desc[at] % 4; |desc| < at + 1 + if size == 3 then 4 else size as nat
    ensures ParseFrom(h, desc, at) == None
  {
    hide Item;
  }

  /** So is the end of a collection outside any. */
  lemma EndOutsideRejected(h: State, desc: seq<uint8>, at: nat)
    requires at < |desc| && desc[at] == 0xC0 && h.usagePage > 0 && h.current == -1
    ensures Item(h, desc, at) == None
  {
    hide LocalEntry, GlobalEntry, ByteAt, AddInput;
  }
}
