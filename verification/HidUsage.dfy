/** Looking up the usage of a report entry, hid__field_get_usage. */
module HidUsage {
  import opened Basics
  import opened Hid

  const NO_USAGE := Usage(0, 0, 0, 0)

  /** A usage number with its page in the high byte. */
  function Code(u: Usage, offset: nat): nat {
    0x100 * u.page as nat + (u.min as nat + offset) % 0x100
  }

  /** The usages of one range, in order. A range whose minimum is above its maximum, as truncation
      to 8 bits can make it, is taken for its minimum alone. */
  function Range(u: Usage): (r: seq<nat>)
    ensures |r| == if u.min <= u.max then u.max as nat - u.min as nat + 1 else 1
    ensures forall i :: 0 <= i < |r| ==> r[i] == Code(u, i)
  {
    seq(if u.min <= u.max then u.max as nat - u.min as nat + 1 else 1, i requires i >= 0 => Code(u, i))
  }

  /** All usages of a field, range after range. */
  function Flat(usages: seq<Usage>): seq<nat> {
    if usages == [] then [] else Range(usages[0]) + Flat(usages[1..])
  }

  /** hid__field_get_usage: the range of usages for entry number reportIndex, or None for -1. The
      loop looks one usage past those in use, which the parser has left zero. */
  function GetUsage(field: Field, reportIndex: int): Option<(nat, nat)> {
    if field.flags / 2 % 2 == 1 then
      var all := Flat(field.usages + [NO_USAGE]);
      if 0 <= reportIndex < |all| then Some((all[reportIndex], all[reportIndex])) else None
    else if |field.usages| != 1 then None
    else
      var u := field.usages[0];
      Some((Code(u, 0), 0x100 * u.page as nat + u.max as nat))
  }

  lemma {:induction false} FlatConcat(a: seq<Usage>, b: seq<Usage>)
    ensures Flat(a + b) == Flat(a) + Flat(b)
  {
    hide Range;
    if a == [] {
      assert a + b == b;
    } else {
      assert (a + b)[1..] == a[1..] + b;
      FlatConcat(a[1..], b);
    }
  }

  lemma FlatFrom(usages: seq<Usage>, k: nat)
    requires k < |usages|
    ensures Flat(usages[k..]) == Range(usages[k]) + Flat(usages[k + 1..])
  {
    assert usages[k..][1..] == usages[k + 1..];
  }

  lemma FlatNone(s: seq<Usage>)
    requires s == []
    ensures Flat(s) == []
  {
  }

  /** The loop of hid__field_get_usage. It may look at the place behind the usages in use, so
      that must be in the array unless the entry is found before. */
  method FindUsage(usages: array<Usage>, usageIndex: nat, reportIndex: int) returns (r: Option<(nat, nat)>)
    requires usageIndex <= usages.Length
    requires usageIndex < usages.Length || 0 <= reportIndex < |Flat(usages[..])|
    ensures var all := Flat(if usageIndex < usages.Length then usages[..usageIndex + 1] else usages[..]);
            r == if 0 <= reportIndex < |all| then Some((all[reportIndex], all[reportIndex])) else None
  {
    hide Flat;
    ghost var s := if usageIndex < usages.Length then usages[..usageIndex + 1] else usages[..];
    if s == [] {
      FlatNone(s);
    }
    var index, offset, i := reportIndex, 0, 0;
    ghost var all := Flat(s);
    ghost var before := 0;
    assert s[0..] == s;
    while true
      invariant 0 <= i < |s| && 0 <= before
      invariant 0 <= offset < |Range(s[i])|
      invariant before + |Flat(s[i..])| == |all| && Flat(s[i..]) == all[before..]
      invariant index == reportIndex - before - offset && (reportIndex >= 0 ==> index >= 0)
      decreases |s| - i, 256 - offset
    {
      var usage := usages[i];
      FlatFrom(s, i);
      assert all[before..][offset] == Range(usage)[offset];
      if index == 0 {
        return Some((Code(usage, offset), Code(usage, offset)));
      }
      index := index - 1;
      offset := offset + 1;
      if usage.min as int + offset > usage.max as int {
        before := before + offset;
        assert all[before..] == all[before - offset..][offset..];
        offset := 0;
        i := i + 1;
        if i == |s| {
          FlatNone(s[i..]);
        }
        if i > usageIndex {
          return None;
        }
      }
    }
  }

  lemma FlatOne(u: Usage)
    ensures Flat([u]) == Range(u)
  {
    FlatNone([u][1..]);
    assert Range(u) + [] == Range(u);
  }

  lemma FlatPadded(usages: seq<Usage>)
    ensures Flat(usages + [NO_USAGE]) == Flat(usages) + [0]
  {
    hide Flat;
    FlatConcat(usages, [NO_USAGE]);
    FlatOne(NO_USAGE);
    assert Range(NO_USAGE) == [0];
  }

  /** hid__field_get_usage; the array of a field has 32 places. */
  method FieldGetUsage(field: Field, reportIndex: int) returns (r: Option<(nat, nat)>)
    requires |field.usages| <= MAX_HID_USAGES
    requires |field.usages| < MAX_HID_USAGES || field.flags / 2 % 2 == 0 || 0 <= reportIndex < |Flat(field.usages)|
    ensures r == GetUsage(field, reportIndex)
  {
    hide Flat, Range;
    if field.flags / 2 % 2 == 1 {
      FlatPadded(field.usages);
      var usages := new Usage[MAX_HID_USAGES](i => if 0 <= i < |field.usages| then field.usages[i] else NO_USAGE);
      assert |field.usages| == MAX_HID_USAGES ==> usages[..] == field.usages;
      assert |field.usages| < MAX_HID_USAGES ==> usages[..|field.usages| + 1] == field.usages + [NO_USAGE];
      r := FindUsage(usages, |field.usages|, reportIndex);
    } else {
      if |field.usages| != 1 {
        return None;
      }
      var u := field.usages[0];
      return Some((Code(u, 0), 0x100 * u.page as nat + u.max as nat));
    }
  }

  // ---------- Counted and found usages ----------

  ghost predicate Proper(usages: seq<Usage>) {
    forall u :: u in usages ==> u.min <= u.max
  }

  lemma {:induction false} CountedIsFlat(usages: seq<Usage>)
    ensures CountUsages(usages) <= |Flat(usages)|
    ensures CountUsages(usages) == |Flat(usages)| <==> Proper(usages)
  {
    if usages != [] {
      var before, u := usages[..|usages| - 1], usages[|usages| - 1];
      CountedIsFlat(before);
      assert usages == before + [u];
      FlatConcat(before, [u]);
      FlatOne(u);
      assert Proper(usages) <==> Proper(before) && u.min <= u.max;
    }
  }

  /** For a variable field whose ranges are proper, entry i below the counted total has the i-th
      usage of the flattened ranges; the total is counted right exactly for such fields. */
  lemma UsageOfEntry(field: Field, i: nat)
    requires field.flags / 2 % 2 == 1 && i < |Flat(field.usages)|
    ensures GetUsage(field, i) == Some((Flat(field.usages)[i], Flat(field.usages)[i]))
    ensures CountUsages(field.usages) == |Flat(field.usages)| <==> Proper(field.usages)
  {
    hide Flat, Range;
    FlatPadded(field.usages);
    CountedIsFlat(field.usages);
  }

  /** Entry number n, one past the last usage, is not refused: it gets usage 0 of page 0. */
  lemma UsagePastTheEnd(field: Field)
    requires field.flags / 2 % 2 == 1
    ensures GetUsage(field, |Flat(field.usages)|) == Some((0, 0))
    ensures forall i :: i > |Flat(field.usages)| ==> GetUsage(field, i) == None
  {
    hide Flat, Range;
    FlatPadded(field.usages);
  }

  // ---------- In numbers ----------

  lemma {:induction false} ProperPrefix(usages: seq<Usage>, r: nat)
    requires Proper(usages) && r < |usages|
    ensures Proper(usages[..r]) && |Flat(usages[..r])| == CountUsages(usages[..r])
    ensures Flat(usages) == Flat(usages[..r]) + (Range(usages[r]) + Flat(usages[r + 1..]))
  {
    hide Flat, Range;
    CountedIsFlat(usages[..r]);
    assert usages == usages[..r] + usages[r..];
    FlatConcat(usages[..r], usages[r..]);
    FlatFrom(usages, r);
  }

  /** Entry number o of range number r of a variable field is usage minimum + o, with the page in the
      high byte. The entries of the ranges before it come first. */
  lemma EntryInNumbers(field: Field, r: nat, o: nat)
    requires field.flags / 2 % 2 == 1 && Proper(field.usages) && r < |field.usages|
    requires o <= field.usages[r].max as nat - field.usages[r].min as nat
    ensures var code := field.usages[r].page as nat * 256 + field.usages[r].min as nat + o;
            GetUsage(field, CountUsages(field.usages[..r]) + o) == Some((code, code))
  {
    ProperPrefix(field.usages, r);
    hide Flat, GetUsage;
    var before, range := Flat(field.usages[..r]), Range(field.usages[r]);
    var i := |before| + o;
    assert Flat(field.usages)[i] == range[o];
    UsageOfEntry(field, i);
  }

  /** An array field has its one range; with none or several it is refused. */
  lemma ArrayInNumbers(field: Field, i: int)
    requires field.flags / 2 % 2 == 0
    ensures GetUsage(field, i)
         == if |field.usages| == 1 then
              var u := field.usages[0];
              Some((u.page as nat * 256 + u.min as nat, u.page as nat * 256 + u.max as nat))
            else None
  {
  }
}
