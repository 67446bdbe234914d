/** The parser itself, a struct that every item updates. */
module HidParser {
  import opened Basics
  import opened Hid
  import opened HidLayout

  lemma FoundAt(rs: seq<Report>, id: uint8, k: nat)
    requires k <= |rs| && (k < |rs| ==> rs[k].id == id) && forall i :: 0 <= i < k ==> rs[i].id != id
    ensures FindReport(rs, id) == k
  {
  }

  class Parser {
    var usagePage: int
    var current: int
    var collections: seq<Collection>
    var global: Global
    var local: Local
    var reports: seq<Report>
    ghost var total: map<uint8, nat>

    ghost function Abs(): State
      reads this
    {
      State(usagePage, current, collections, global, local, reports, total)
    }

    constructor ()
      ensures Abs() == INIT
    {
      usagePage, current, collections := 0, -1, [];
      global, local, reports, total := NO_GLOBAL, NO_LOCAL, [], map[];
    }

    /** hid_register_report: the position of the report with this id, appended if it is new. */
    method Register(id: uint8) returns (k: nat)
      modifies this`reports
      ensures reports == RegisterReport(old(reports), id) && k == FindReport(reports, id) < |reports|
    {
      RegisteredReport(reports, id);
      k := 0;
      while k < |reports| && reports[k].id != id
        invariant k <= |reports|
        invariant forall i :: 0 <= i < k ==> reports[i].id != id
      {
        k := k + 1;
      }
      FoundAt(reports, id, k);
      if k == |reports| {
        reports := reports + [Report(id, 0, [])];
        FoundAt(reports, id, k);
      }
    }

    method CountLocalUsages() returns (cnt: int)
      ensures cnt == CountUsages(local.usages)
    {
      cnt := 0;
      for i := 0 to |local.usages|
        invariant cnt == CountUsages(local.usages[..i])
      {
        assert local.usages[..i + 1][..i] == local.usages[..i];
        cnt := cnt + (local.usages[i].max as int - local.usages[i].min as int + 1);
      }
      assert local.usages[..|local.usages|] == local.usages;
    }

    method AddInput(flags: uint8)
      modifies this`reports, this`total
      ensures Abs() == Hid.AddInput(old(Abs()), flags)
    {
      hide CountUsages, FindReport, RegisterReport;
      var k := Register(global.reportId);
      var usageEntries := CountLocalUsages();
      var offset := reports[k].size;
      var bits := (global.reportSize as nat) * (global.reportCount as nat);
      var report := reports[k].(size := (offset + bits) % 0x10000);
      reports := reports[k := report];
      total := total[global.reportId := Abs().Total(global.reportId) + bits];
      if usageEntries <= 0 {
        return;
      }
      var field := Field(flags, local.usages, offset, global);
      reports := reports[k := report.(fields := report.fields + [field])];
    }

    method ParseMainEntry(tag: int, data: uint8) returns (r: int)
      requires -1 <= current < |collections|
      modifies this
      ensures r == if MainEntry(old(Abs()), tag, data).Some? then 0 else -1
      ensures r == 0 ==> Some(Abs()) == MainEntry(old(Abs()), tag, data)
    {
      hide Hid.AddInput;
      if usagePage > 0 {
        if tag == 0x28 {
          if |collections| >= MAX_COLLECTIONS {
            return -1;
          }
          var parent := current;
          current := |collections|;
          collections := collections + [Collection(parent, data)];
          global, local := NO_GLOBAL, NO_LOCAL;
        } else if tag == 0x30 {
          if current == -1 {
            return -1;
          }
          current := collections[current].parent;
        } else if tag == 0x20 {
          AddInput(data);
          local := NO_LOCAL;
        } else if tag == 0x24 || tag == 0x2C {
          local := NO_LOCAL;
        } else {
          local := local.(usages := []);
          return -1;
        }
      }
      return 0;
    }

    method AddLocalUsage(min: nat, max: nat) returns (r: int)
      modifies this`local
      ensures r == if Hid.AddLocalUsage(old(Abs()), min, max).Some? then 0 else -1
      ensures r == 0 ==> Some(Abs()) == Hid.AddLocalUsage(old(Abs()), min, max)
    {
      if |local.usages| == MAX_HID_USAGES {
        return -1;
      }
      var u := Usage(ToUint8(current), ToUint8(usagePage), ToUint8(min), ToUint8(max));
      local := local.(usages := local.usages + [u]);
      return 0;
    }

    method ParseLocalEntry(tag: int, desc: seq<uint8>, at: nat, len: nat) returns (r: int)
      modifies this`local
      ensures r == if LocalEntry(old(Abs()), tag, desc, at, len).Some? then 0 else -1
      ensures r == 0 ==> Some(Abs()) == LocalEntry(old(Abs()), tag, desc, at, len)
    {
      hide Hid.AddLocalUsage;
      var v := UnsignedData(desc, at, len);
      if tag == 0x02 {
        r := AddLocalUsage(v, v);
      } else if tag == 0x06 {
        local := local.(usageMinimum := ToUint8(v));
        r := 0;
      } else if tag == 0x0A {
        var count := v - local.usageMinimum as int;
        if count < 0 {
          return -1;
        }
        r := AddLocalUsage(local.usageMinimum as nat, v);
      } else {
        r := -1;
      }
    }

    method ParseGlobalEntry(tag: int, desc: seq<uint8>, at: nat, len: nat) returns (r: int)
      modifies this`usagePage, this`global
      ensures r == if GlobalEntry(old(Abs()), tag, desc, at, len).Some? then 0 else -1
      ensures r == 0 ==> Some(Abs()) == GlobalEntry(old(Abs()), tag, desc, at, len)
    {
      hide UnsignedData, SignedData;
      var u, s := UnsignedData(desc, at, len), ToInt16(SignedData(desc, at, len));
      r := 0;
      match tag
      case 0x01 => usagePage := ToInt8(ByteAt(desc, at) as int);
      case 0x05 => global := global.(logicalMinimum := s);
      case 0x09 => global := global.(logicalMaximum := s);
      case 0x0D => global := global.(physicalMinimum := s);
      case 0x11 => global := global.(physicalMaximum := s);
      case 0x15 =>
      case 0x19 => global := global.(unit := ToUint8(u));
      case 0x1D => global := global.(reportSize := ToUint8(u));
      case 0x25 => global := global.(reportCount := ToUint8(u));
      case 0x21 => global := global.(reportId := ToUint8(u));
      case _ => r := -1;
    }
  }

  /** hid__parse: the parser if the descriptor was accepted, otherwise null. */
  method Parse(desc: seq<uint8>) returns (h: Parser?)
    ensures h != null ==> fresh(h)
    ensures match ParseFrom(INIT, desc, 0)
            case None => h == null
            case Some(state) => h != null && h.Abs() == state
  {
    hide MainEntry, LocalEntry, GlobalEntry;
    var p := new Parser();
    var at: nat, len: int, r: int := 0, |desc|, 0;
    InitWellFormed();
    while len > 0
      invariant fresh(p) && at + len == |desc| && r == 0
      invariant len >= 0 ==> ParseFrom(INIT, desc, 0) == ParseFrom(p.Abs(), desc, at) && WellFormed(p.Abs())
      invariant len < 0 ==> ParseFrom(INIT, desc, 0) == None
      decreases len
    {
      var v := desc[at];
      at := at + 1;
      len := len - 1;
      var tlen: nat := (v % 4) as nat;
      if tlen == 3 {
        tlen := tlen + 1;
      }
      ItemKeepsWellFormed(p.Abs(), desc, at - 1);
      if v / 16 == 15 {
        return null;
      }
      var tag := v as int / 4;
      if tag % 4 == 0 {
        r := p.ParseMainEntry(tag, ByteAt(desc, at));
      } else if tag % 4 == 1 {
        r := p.ParseGlobalEntry(tag, desc, at, tlen);
      } else if tag % 4 == 2 {
        r := p.ParseLocalEntry(tag, desc, at, tlen);
      } else {
        r := -1;
      }
      if r < 0 {
        return null;
      }
      len := len - tlen;
      at := at + tlen;
    }
    if len < 0 {
      return null;
    }
    return p;
  }
}
