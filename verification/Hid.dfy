/**
 The HID report-descriptor parser of esp32/main/hid_parse.c (items as in section 6.2.2 of the
 Device Class Definition for HID 1.11): what every item does to the parser's state.
 */
module Hid {
  import opened Basics

  const MAX_HID_USAGES := 32
  const MAX_COLLECTIONS := 8

  datatype Collection = Collection(parent: int, kind: uint8)

  datatype Usage = Usage(collection: uint8, page: uint8, min: uint8, max: uint8)

  datatype Global = Global(
    logicalMinimum: int, logicalMaximum: int, physicalMinimum: int, physicalMaximum: int,
    unit: uint8, reportSize: uint8, reportCount: uint8, reportId: uint8)
  {
    /** The size of an item in bits. */
    function Bits(): nat {
      (reportSize as nat) * (reportCount as nat)
    }
  }

  datatype Local = Local(usages: seq<Usage>, usageMinimum: uint8)

  datatype Field = Field(flags: uint8, usages: seq<Usage>, offset: nat, settings: Global)
  {
    /** The first bit behind the field. */
    function End(): nat {
      offset + settings.Bits()
    }
  }

  datatype Report = Report(id: uint8, size: nat, fields: seq<Field>)

  /** The parser's state. `total` is not in the source: it holds the bits added to every report,
      of which the report's own size, a 16-bit number, may have lost some. */
  datatype State = State(
    usagePage: int, current: int, collections: seq<Collection>,
    global: Global, local: Local, reports: seq<Report>, total: map<uint8, nat>)
  {
    function Total(id: uint8): nat {
      if id in total then total[id] else 0
    }
  }

  const NO_GLOBAL := Global(0, 0, 0, 0, 0, 0, 0, 0)
  const NO_LOCAL := Local([], 0)
  const INIT := State(0, -1, [], NO_GLOBAL, NO_LOCAL, [], map[])

  // ---------- Numbers ----------

  function ToUint8(v: int): uint8 {
    (v % 0x100) as uint8
  }

  function ToInt8(v: int): int {
    var u := v % 0x100;
    if u < 0x80 then u else u - 0x100
  }

  /** A byte of the descriptor; what lies behind its end reads as 0. */
  function ByteAt(desc: seq<uint8>, i: nat): uint8 {
    if i < |desc| then desc[i] else 0
  }

  /** hid_get_unsigned_data; data of four bytes reads as 0. */
  function UnsignedData(desc: seq<uint8>, at: nat, len: nat): nat {
    if len == 1 then ByteAt(desc, at) as nat
    else if len == 2 then FromLe16(ByteAt(desc, at), ByteAt(desc, at + 1))
    else 0
  }

  function SignedData(desc: seq<uint8>, at: nat, len: nat): int {
    if len == 1 then ToInt8(UnsignedData(desc, at, 1))
    else if len == 2 then ToInt16(UnsignedData(desc, at, 2))
    else 0
  }

  // ---------- Reports ----------

  /** The index of the report with this id, or the number of reports. */
  function FindReport(rs: seq<Report>, id: uint8): (k: nat)
    ensures k <= |rs|
    ensures k < |rs| ==> rs[k].id == id
    ensures forall i :: 0 <= i < k ==> rs[i].id != id
  {
    if rs == [] || rs[0].id == id then 0 else 1 + FindReport(rs[1..], id)
  }

  function RegisterReport(rs: seq<Report>, id: uint8): seq<Report> {
    if FindReport(rs, id) < |rs| then rs else rs + [Report(id, 0, [])]
  }

  /** The number of usages as the parser counts it; a range whose ends were truncated to 8 bits
      may count as negative. */
  function CountUsages(usages: seq<Usage>): int {
    if usages == [] then 0
    else CountUsages(usages[..|usages| - 1])
         + (usages[|usages| - 1].max as int - usages[|usages| - 1].min as int + 1)
  }

  lemma RegisteredReport(rs: seq<Report>, id: uint8)
    ensures FindReport(RegisterReport(rs, id), id) < |RegisterReport(rs, id)|
  {
    if FindReport(rs, id) == |rs| {
      assert (rs + [Report(id, 0, [])])[|rs|].id == id;
    }
  }

  /** hid_add_input: the report grows by the bits of the item, which become a field if it has
      usages and padding if not. */
  function AddInput(h: State, flags: uint8): State {
    var rs := RegisterReport(h.reports, h.global.reportId);
    var k := FindReport(rs, h.global.reportId);
    RegisteredReport(h.reports, h.global.reportId);
    var bits := h.global.Bits();
    var grown := rs[k].(size := (rs[k].size + bits) % 0x10000);
    var report :=
      if CountUsages(h.local.usages) <= 0 then grown
      else grown.(fields := grown.fields + [Field(flags, h.local.usages, rs[k].size, h.global)]);
    h.(reports := rs[k := report], total := h.total[h.global.reportId := h.Total(h.global.reportId) + bits])
  }

  // ---------- Items ----------

  /** parse_hid_main_entry; the 8-bit usage page must be positive. None is result -1. */
  function MainEntry(h: State, tag: int, data: uint8): Option<State> {
    if h.usagePage <= 0 then Some(h)
    else if tag == 0x28 then
      if |h.collections| >= MAX_COLLECTIONS then None
      else Some(h.(collections := h.collections + [Collection(h.current, data)], current := |h.collections|,
                   global := NO_GLOBAL, local := NO_LOCAL))
    else if tag == 0x30 then
      if 0 <= h.current < |h.collections| then Some(h.(current := h.collections[h.current].parent)) else None
    else if tag == 0x20 then Some(AddInput(h, data).(local := NO_LOCAL))
    else if tag == 0x24 || tag == 0x2C then Some(h.(local := NO_LOCAL))
    else None
  }

  function AddLocalUsage(h: State, min: nat, max: nat): Option<State> {
    if |h.local.usages| == MAX_HID_USAGES then None
    else
      var u := Usage(ToUint8(h.current), ToUint8(h.usagePage), ToUint8(min), ToUint8(max));
      Some(h.(local := h.local.(usages := h.local.usages + [u])))
  }

  function LocalEntry(h: State, tag: int, desc: seq<uint8>, at: nat, len: nat): Option<State> {
    var v := UnsignedData(desc, at, len);
    if tag == 0x02 then AddLocalUsage(h, v, v)
    else if tag == 0x06 then Some(h.(local := h.local.(usageMinimum := ToUint8(v))))
    else if tag == 0x0A then
      if v < h.local.usageMinimum as nat then None else AddLocalUsage(h, h.local.usageMinimum as nat, v)
    else None
  }

  function GlobalEntry(h: State, tag: int, desc: seq<uint8>, at: nat, len: nat): Option<State> {
    var u, s, g := UnsignedData(desc, at, len), ToInt16(SignedData(desc, at, len)), h.global;
    if tag == 0x01 then Some(h.(usagePage := ToInt8(ByteAt(desc, at) as int)))
    else if tag == 0x05 then Some(h.(global := g.(logicalMinimum := s)))
    else if tag == 0x09 then Some(h.(global := g.(logicalMaximum := s)))
    else if tag == 0x0D then Some(h.(global := g.(physicalMinimum := s)))
    else if tag == 0x11 then Some(h.(global := g.(physicalMaximum := s)))
    else if tag == 0x15 then Some(h)
    else if tag == 0x19 then Some(h.(global := g.(unit := ToUint8(u))))
    else if tag == 0x1D then Some(h.(global := g.(reportSize := ToUint8(u))))
    else if tag == 0x25 then Some(h.(global := g.(reportCount := ToUint8(u))))
    else if tag == 0x21 then Some(h.(global := g.(reportId := ToUint8(u))))
    else None
  }

  /** The number of data bytes an item prefix announces. */
  function DataSize(prefix: uint8): nat {
    if prefix % 4 == 3 then 4 else (prefix % 4) as nat
  }

  /** The item at position `at`. */
  function Item(h: State, desc: seq<uint8>, at: nat): Option<State>
    requires at < |desc|
  {
    var v := desc[at];
    var tag := v as int / 4;
    if v / 16 == 15 then None
    else if tag % 4 == 0 then MainEntry(h, tag, ByteAt(desc, at + 1))
    else if tag % 4 == 1 then GlobalEntry(h, tag, desc, at + 1, DataSize(v))
    else if tag % 4 == 2 then LocalEntry(h, tag, desc, at + 1, DataSize(v))
    else None
  }

  /** The whole descriptor from position `at` on; an item that is cut short is an error. */
  function ParseFrom(h: State, desc: seq<uint8>, at: nat): Option<State>
    requires at <= |desc|
    decreases |desc| - at
  {
    if at == |desc| then Some(h)
    else
      match Item(h, desc, at)
      case None => None
      case Some(h1) =>
        var next := at + 1 + DataSize(desc[at]);
        if next > |desc| then None else ParseFrom(h1, desc, next)
  }

  /** Data of four bytes counts for nothing: a global or local item has the same effect whatever
      they are. The usage page alone is read from the first of them. */
  lemma FourBytesIgnored(h: State, a: seq<uint8>, i: nat, b: seq<uint8>, j: nat)
    requires i < |a| && j < |b| && a[i] == b[j] && DataSize(a[i]) == 4
    requires a[i] as int / 4 % 4 in {1, 2} && a[i] as int / 4 != 0x01
    ensures Item(h, a, i) == Item(h, b, j)
    ensures match Item(h, a, i)
            case None => true
            case Some(h1) =>
              && (a[i] as int / 4 == 0x25 ==> h1.global.reportCount == 0)
              && (a[i] as int / 4 == 0x1D ==> h1.global.reportSize == 0)
  {
  }
}
