/** What holds of every descriptor the HID parser accepts. */
module HidLayout {
  import opened Basics
  import opened Hid

  // ---------- Collections and usages ----------

  /** No field has more usages than the array of a field has places. */
  ghost predicate UsagesFit(r: Report) {
    forall i :: 0 <= i < |r.fields| ==> |r.fields[i].usages| <= MAX_HID_USAGES
  }

  /** The collections form a forest in which parents come before their children. */
  ghost predicate WellFormed(h: State) {
    && |h.collections| <= MAX_COLLECTIONS && |h.local.usages| <= MAX_HID_USAGES
    && -1 <= h.current < |h.collections|
    && (forall i :: 0 <= i < |h.collections| ==> -1 <= h.collections[i].parent < i)
    && (forall i :: 0 <= i < |h.reports| ==> UsagesFit(h.reports[i]))
  }

  lemma InitWellFormed()
    ensures WellFormed(INIT)
  {
  }

  /** What AddInput does to the one report it is about, and to no other. */
  lemma AddInputReport(h: State, flags: uint8) returns (k: nat, rs: seq<Report>)
    ensures rs == RegisterReport(h.reports, h.global.reportId) && k < |rs|
    ensures rs == h.reports || rs == h.reports + [Report(h.global.reportId, 0, [])]
    ensures k == |h.reports| ==> forall i :: 0 <= i < k ==> h.reports[i].id != h.global.reportId
    ensures rs[k].id == h.global.reportId
    ensures var h1 := AddInput(h, flags);
            var grown := rs[k].(size := (rs[k].size + h.global.Bits()) % 0x10000);
            var field := Field(flags, h.local.usages, rs[k].size, h.global);
            && |h1.reports| == |rs| && h1.reports == rs[k := h1.reports[k]]
            && (h1.reports[k] == grown || h1.reports[k] == grown.(fields := rs[k].fields + [field]))
            && (CountUsages(h.local.usages) > 0 ==> h1.reports[k].fields == rs[k].fields + [field])
  {
    RegisteredReport(h.reports, h.global.reportId);
    rs := RegisterReport(h.reports, h.global.reportId);
    k := FindReport(rs, h.global.reportId);
    hide CountUsages, Global.Bits;
  }

  lemma AddInputKeepsWellFormed(h: State, flags: uint8)
    requires WellFormed(h)
    ensures WellFormed(AddInput(h, flags))
  {
    var h1 := AddInput(h, flags);
    assert h1 == h.(reports := h1.reports, total := h1.total);
    hide AddInput;
    var k, rs := AddInputReport(h, flags);
    assert UsagesFit(rs[k]);
    hide CountUsages, Global.Bits, RegisterReport;
    assert forall i :: 0 <= i < |rs| && i != k ==> h1.reports[i] == rs[i];
  }

  lemma MainKeepsWellFormed(h: State, tag: int, data: uint8)
    requires WellFormed(h)
    ensures match MainEntry(h, tag, data) case None => true case Some(h1) => WellFormed(h1)
  {
    hide AddInput, UsagesFit;
    AddInputKeepsWellFormed(h, data);
  }

  lemma ItemKeepsWellFormed(h: State, desc: seq<uint8>, at: nat)
    requires WellFormed(h) && at < |desc|
    ensures match Item(h, desc, at) case None => true case Some(h1) => WellFormed(h1)
  {
    hide UnsignedData, SignedData, ToInt8, ToUint8, ToInt16, MainEntry, UsagesFit;
    var tag := desc[at] as int / 4;
    if tag % 4 == 0 {
      MainKeepsWellFormed(h, tag, ByteAt(desc, at + 1));
    }
  }

  // ---------- Reports ----------

  /** The fields of a report are bit intervals in ascending order, none of which overlaps
      another or reaches beyond the report. */
  ghost predicate FieldsLaidOut(r: Report) {
    && (forall i :: 0 <= i < |r.fields| ==> r.fields[i].End() <= r.size)
    && (forall i, j :: 0 <= i < j < |r.fields| ==> r.fields[i].End() <= r.fields[j].offset)
  }

  ghost predicate UniqueIds(rs: seq<Report>) {
    forall i, j :: 0 <= i < j < |rs| ==> rs[i].id != rs[j].id
  }

  ghost predicate HasId(rs: seq<Report>, id: uint8) {
    exists i :: 0 <= i < |rs| && rs[i].id == id
  }

  /** The size of a report is the number of bits added to it, in 16 bits; if they are enough for
      that number, the fields are laid out. */
  ghost predicate Sized(r: Report, total: nat) {
    r.size == total % 0x10000 && (total < 0x10000 ==> FieldsLaidOut(r))
  }

  ghost predicate LaidOut(h: State) {
    && UniqueIds(h.reports)
    && (forall i :: 0 <= i < |h.reports| ==> Sized(h.reports[i], h.Total(h.reports[i].id)))
    && (forall id :: id in h.total ==> HasId(h.reports, id))
  }

  lemma RegisterKeepsUnique(rs: seq<Report>, id: uint8)
    requires UniqueIds(rs)
    ensures UniqueIds(RegisterReport(rs, id))
  {
  }

  lemma FieldAppended(r: Report, size: nat, f: Field)
    requires FieldsLaidOut(r) && f.offset == r.size <= f.End() == size
    ensures FieldsLaidOut(r.(size := size)) && FieldsLaidOut(r.(size := size, fields := r.fields + [f]))
  {
    hide Field.End;
  }

  /** A report grown by the bits of an item, with or without a new field for them. */
  lemma GrownIsSized(r: Report, total: nat, f: Field)
    requires Sized(r, total) && f.offset == r.size
    ensures var grown := r.(size := (r.size + f.settings.Bits()) % 0x10000);
            && Sized(grown, total + f.settings.Bits())
            && Sized(grown.(fields := r.fields + [f]), total + f.settings.Bits())
  {
    var bits := f.settings.Bits();
    assert f.End() == r.size + bits;
    hide Global.Bits, Field.End;
    Sum16(total, bits);
    if total + bits < 0x10000 {
      FieldAppended(r, r.size + bits, f);
    }
  }

  lemma EmptyIsSized(id: uint8)
    ensures Sized(Report(id, 0, []), 0)
  {
  }

  /** One report replaced by one with the same id. */
  lemma ReplacedKeeps(rs: seq<Report>, k: nat, r: Report)
    requires k < |rs| && rs[k].id == r.id && UniqueIds(rs)
    ensures UniqueIds(rs[k := r])
    ensures forall id :: HasId(rs, id) ==> HasId(rs[k := r], id)
  {
    forall id | HasId(rs, id) ensures HasId(rs[k := r], id) {
      var i :| 0 <= i < |rs| && rs[i].id == id;
      assert rs[k := r][i].id == id;
    }
  }

  lemma RegisteredHasId(rs: seq<Report>, id: uint8)
    ensures HasId(RegisterReport(rs, id), id)
    ensures forall x :: HasId(rs, x) ==> HasId(RegisterReport(rs, id), x)
  {
    RegisteredReport(rs, id);
    hide FindReport;
    forall x | HasId(rs, x) ensures HasId(RegisterReport(rs, id), x) {
      var i :| 0 <= i < |rs| && rs[i].id == x;
      assert RegisterReport(rs, id)[i].id == x;
    }
  }

  /** The reports of a laid-out state with a new, empty one. */
  lemma RegisteredIsSized(h: State, id: uint8)
    requires LaidOut(h)
    ensures var rs := RegisterReport(h.reports, id);
            forall i :: 0 <= i < |rs| ==> Sized(rs[i], h.Total(rs[i].id))
  {
    hide Sized;
    EmptyIsSized(id);
  }

  lemma TotalAfter(h: State, flags: uint8, id: uint8)
    ensures AddInput(h, flags).Total(id)
         == h.Total(id) + if id == h.global.reportId then h.global.Bits() else 0
  {
    hide RegisterReport, FindReport, CountUsages, Global.Bits;
  }

  lemma AddInputKeepsSizes(h: State, flags: uint8)
    requires LaidOut(h)
    ensures var h1 := AddInput(h, flags);
            forall i :: 0 <= i < |h1.reports| ==> Sized(h1.reports[i], h1.Total(h1.reports[i].id))
  {
    hide AddInput, Sized, State.Total, Global.Bits, CountUsages;
    var h1 := AddInput(h, flags);
    var k, rs := AddInputReport(h, flags);
    RegisterKeepsUnique(h.reports, h.global.reportId);
    RegisteredIsSized(h, h.global.reportId);
    hide RegisterReport, LaidOut;
    GrownIsSized(rs[k], h.Total(rs[k].id), Field(flags, h.local.usages, rs[k].size, h.global));
    forall i | 0 <= i < |rs| ensures Sized(h1.reports[i], h1.Total(h1.reports[i].id)) {
      TotalAfter(h, flags, rs[i].id);
      if i != k {
        assert h1.reports[i] == rs[i];
      }
    }
  }

  lemma AddInputKeepsLayout(h: State, flags: uint8)
    requires LaidOut(h)
    ensures LaidOut(AddInput(h, flags))
  {
    AddInputKeepsSizes(h, flags);
    var h1 := AddInput(h, flags);
    assert h1.total.Keys == h.total.Keys + {h.global.reportId};
    hide AddInput, Sized, State.Total, Global.Bits, CountUsages;
    var k, rs := AddInputReport(h, flags);
    RegisterKeepsUnique(h.reports, h.global.reportId);
    RegisteredHasId(h.reports, h.global.reportId);
    hide RegisterReport, HasId, UniqueIds;
    ReplacedKeeps(rs, k, h1.reports[k]);
  }

  lemma ItemKeepsLayout(h: State, desc: seq<uint8>, at: nat)
    requires LaidOut(h) && at < |desc|
    ensures match Item(h, desc, at) case None => true case Some(h1) => LaidOut(h1)
  {
    hide UnsignedData, SignedData, ToInt8, ToUint8, ToInt16, AddInput, Sized, UniqueIds;
    AddInputKeepsLayout(h, ByteAt(desc, at + 1));
  }

  lemma {:induction false} ParseKeeps(h: State, desc: seq<uint8>, at: nat)
    requires WellFormed(h) && LaidOut(h) && at <= |desc|
    ensures match ParseFrom(h, desc, at) case None => true case Some(h1) => WellFormed(h1) && LaidOut(h1)
    decreases |desc| - at
  {
    hide Item, WellFormed, LaidOut;
    if at < |desc| {
      ItemKeepsWellFormed(h, desc, at);
      ItemKeepsLayout(h, desc, at);
      match Item(h, desc, at)
      case None =>
      case Some(h1) =>
        if at + 1 + DataSize(desc[at]) <= |desc| {
          ParseKeeps(h1, desc, at + 1 + DataSize(desc[at]));
        }
    }
  }

  /** For every accepted descriptor: report ids are unique, collection parents precede their
      children, no field has more usages than it can hold, the size of every report is the bits
      added to it in 16 bits, and for every report that these bits do not outgrow its fields are
      ordered, disjoint bit intervals inside it. */
  lemma AcceptedIsLaidOut(desc: seq<uint8>)
    requires ParseFrom(INIT, desc, 0).Some?
    ensures var h := ParseFrom(INIT, desc, 0).value;
            && UniqueIds(h.reports) && WellFormed(h)
            && (forall r :: r in h.reports ==>
                  && r.size == h.Total(r.id) % 0x10000
                  && (h.Total(r.id) < 0x10000 ==> FieldsLaidOut(r))
                  && (forall f :: f in r.fields ==> |f.usages| <= MAX_HID_USAGES))
  {
    hide ParseFrom, FieldsLaidOut;
    InitWellFormed();
    ParseKeeps(INIT, desc, 0);
  }

  // ---------- Reports that outgrow 16 bits ----------

  /** The limit is sharp: a new field lies inside its report exactly if the size did not wrap. */
  lemma FieldInsideIffNoWrap(h: State, flags: uint8)
    requires CountUsages(h.local.usages) > 0
    ensures var rs := RegisterReport(h.reports, h.global.reportId);
            var k := FindReport(rs, h.global.reportId);
            k < |rs|
            && var r := AddInput(h, flags).reports[k];
               |r.fields| == |rs[k].fields| + 1
               && (r.fields[|rs[k].fields|].End() <= r.size <==> rs[k].size + h.global.Bits() < 0x10000)
  {
    hide CountUsages, FindReport, RegisterReport, Global.Bits;
    RegisteredReport(h.reports, h.global.reportId);
    var rs := RegisterReport(h.reports, h.global.reportId);
    var n := rs[FindReport(rs, h.global.reportId)].size + h.global.Bits();
    assert n >= 0x10000 ==> n % 0x10000 < n;
  }

  /** Usage page 1, and twice usage 0x30 and an input of 255 items of 255 bits. */
  const OUTGROWN: seq<uint8> := [0x05, 0x01, 0x75, 0xFF, 0x95, 0xFF, 0x09, 0x30, 0x81, 0x02, 0x09, 0x30, 0x81, 0x02]

  lemma NextItem(h: State, desc: seq<uint8>, at: nat, h1: State)
    requires at + 2 <= |desc| && desc[at] % 4 == 1 && Item(h, desc, at) == Some(h1)
    ensures ParseFrom(h, desc, at) == ParseFrom(h1, desc, at + 2)
  {
    hide Item;
  }

  lemma ParsedAll(h: State, desc: seq<uint8>)
    ensures ParseFrom(h, desc, |desc|) == Some(h)
  {
  }

  /** The state after the first three items of OUTGROWN, with given reports. */
  function Outgrowing(reports: seq<Report>, total: map<uint8, nat>): State {
    INIT.(usagePage := 1, global := NO_GLOBAL.(reportSize := 255, reportCount := 255), reports := reports, total := total)
  }

  const X_AXIS := Usage(255, 1, 0x30, 0x30)

  lemma OneUsage(reports: seq<Report>, total: map<uint8, nat>)
    ensures var h := Outgrowing(reports, total);
            AddLocalUsage(h, 0x30, 0x30) == Some(h.(local := Local([X_AXIS], 0)))
  {
    assert [] + [X_AXIS] == [X_AXIS];
  }

  lemma OneInput(h: State, size: nat, fields: seq<Field>)
    requires h.local == Local([X_AXIS], 0) && h.global == Outgrowing([], map[]).global
    requires RegisterReport(h.reports, 0) == [Report(0, size, fields)]
    ensures var field := Field(2, [X_AXIS], size, h.global);
            AddInput(h, 2) == h.(reports := [Report(0, (size + 65025) % 0x10000, fields + [field])],
                                 total := h.total[0 := h.Total(0) + 65025])
  {
    assert CountUsages([X_AXIS]) == 1 by { assert CountUsages([X_AXIS][..0]) == 0; }
    assert FindReport([Report(0, size, fields)], 0) == 0;
  }

  /** The usage and the input that follow each other twice in the descriptor. */
  lemma UsageAndInput(reports: seq<Report>, total: map<uint8, nat>, at: nat)
    requires at + 4 <= |OUTGROWN| && OUTGROWN[at] == 0x09 && OUTGROWN[at + 1] == 0x30
    requires OUTGROWN[at + 2] == 0x81 && OUTGROWN[at + 3] == 0x02
    ensures var h := Outgrowing(reports, total).(local := Local([X_AXIS], 0));
            ParseFrom(Outgrowing(reports, total), OUTGROWN, at)
            == ParseFrom(AddInput(h, 2).(local := NO_LOCAL), OUTGROWN, at + 4)
  {
    hide ParseFrom, AddInput, AddLocalUsage;
    var h := Outgrowing(reports, total).(local := Local([X_AXIS], 0));
    OneUsage(reports, total);
    NextItem(Outgrowing(reports, total), OUTGROWN, at, h);
    NextItem(h, OUTGROWN, at + 2, AddInput(h, 2).(local := NO_LOCAL));
  }

  lemma FirstItems()
    ensures ParseFrom(INIT, OUTGROWN, 0) == ParseFrom(Outgrowing([], map[]), OUTGROWN, 6)
  {
    hide ParseFrom;
    var h := Outgrowing([], map[]);
    var g := h.(global := h.global.(reportCount := 0));
    NextItem(INIT, OUTGROWN, 0, INIT.(usagePage := 1));
    NextItem(INIT.(usagePage := 1), OUTGROWN, 2, g);
    NextItem(g, OUTGROWN, 4, h);
  }

  /** A descriptor of 14 bytes that is accepted although both fields of its only report reach
      beyond the report. */
  lemma OutgrownIsAccepted()
    ensures var h := ParseFrom(INIT, OUTGROWN, 0);
            && h.Some? && |h.value.reports| == 1
            && var r := h.value.reports[0];
               && h.value.Total(r.id) == 130050 && r.size == 64514
               && |r.fields| == 2 && r.fields[0].End() == 65025 && r.fields[1].End() == 130050
  {
    hide ParseFrom, AddInput;
    FirstItems();
    var h := Outgrowing([], map[]).(local := Local([X_AXIS], 0));
    UsageAndInput([], map[], 6);
    OneInput(h, 0, []);
    var f := Field(2, [X_AXIS], 0, h.global);
    assert [] + [f] == [f];
    var rs, total := [Report(0, 65025, [f])], map[0 := 65025];
    var h1 := h.(reports := rs, total := total);
    UsageAndInput(rs, total, 10);
    OneInput(h1, 65025, [f]);
    ParsedAll(AddInput(h1, 2).(local := NO_LOCAL), OUTGROWN);
  }
}
