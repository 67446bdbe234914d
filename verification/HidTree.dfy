/** The collections of a HID descriptor: written as a tree, and found again by the parser. */
module HidTree {
  import opened Basics
  import opened Hid
  import opened HidItems
  import opened HidLayout

  /** Items with an input item behind them, or with a collection. */
  datatype Part = Leaf(es: seq<Entry>, flags: uint8) | Group(es: seq<Entry>, kind: uint8, parts: seq<Part>)

  function EncodePart(p: Part): seq<uint8>
    decreases p
  {
    match p
    case Leaf(es, flags) => EncodeAll(es) + [0x81, flags]
    case Group(es, kind, parts) => EncodeAll(es) + [0xA1, kind] + (EncodeParts(parts) + [0xC0])
  }

  function EncodeParts(ps: seq<Part>): seq<uint8>
    decreases ps
  {
    if ps == [] then [] else EncodePart(ps[0]) + EncodeParts(ps[1..])
  }

  /** The collections of one part in the order in which they begin; `parent` is the number of the
      collection around them, -1 for none, and the first one gets the number `base`. */
  function Subtree(p: Part, parent: int, base: nat): seq<Collection>
    decreases p
  {
    match p
    case Leaf(_, _) => []
    case Group(_, kind, parts) => [Collection(parent, kind)] + Tree(parts, base, base + 1)
  }

  function Tree(ps: seq<Part>, parent: int, base: nat): seq<Collection>
    decreases ps
  {
    if ps == [] then []
    else
      var first := Subtree(ps[0], parent, base);
      first + Tree(ps[1..], parent, base + |first|)
  }

  /** Values that can be written, and usage pages that are positive for the parser. */
  predicate Sound(es: seq<Entry>) {
    forall e :: e in es ==> Fits(e) && (e.kind == UsagePage ==> 0 < e.value % 0x100 < 0x80)
  }

  predicate AllSound(ps: seq<Part>)
    decreases ps
  {
    forall i :: 0 <= i < |ps| ==> Sound(ps[i].es) && (ps[i].Group? ==> AllSound(ps[i].parts))
  }

  lemma {:induction false} PageStaysPositive(h: State, es: seq<Entry>)
    requires Sound(es) && h.usagePage > 0
    ensures Page(h, es) > 0
  {
    if es != [] {
      assert es[|es| - 1] in es;
      PageStaysPositive(h, es[..|es| - 1]);
    }
  }

  /** Between two parts: what the parser needs and keeps. */
  predicate Between(h: State) {
    h.usagePage > 0 && |h.local.usages| <= 32 && -1 <= h.current < |h.collections|
  }

  /** What parsing parts has done to a state: they have added these collections. */
  predicate Added(h: State, tree: seq<Collection>, h1: State) {
    Between(h1) && h1.current == h.current && h1.collections == h.collections + tree
  }

  lemma LeafKeeps(h: State, es: seq<Entry>, flags: uint8)
    requires Between(h) && Sound(es)
    ensures var h1 := WithInput(h, es, flags);
            Between(h1) && h1.current == h.current && h1.collections == h.collections
  {
    PageStaysPositive(h, es);
    KeepsOthers(After(h, es), flags);
    hide AddInput, Settings, Listed, Page;
  }

  /** A collection begins: exactly if there are fewer than eight so far. */
  lemma GroupBegins(h: State, es: seq<Entry>, kind: uint8, desc: seq<uint8>, at: nat, next: nat)
    requires Between(h) && Sound(es)
    requires Stands(desc, at, EncodeAll(es) + [0xA1, kind]) && next == at + |EncodeAll(es)| + 2
    ensures Page(h, es) > 0
    ensures var h1 := State(Page(h, es), |h.collections|, h.collections + [Collection(h.current, kind)],
                            Global(0, 0, 0, 0, 0, 0, 0, 0), Local([], 0), h.reports, h.total);
            ParseFrom(h, desc, at)
            == if Admissible(h, es) && |h.collections| < 8 then ParseFrom(h1, desc, next) else None
  {
    PageStaysPositive(h, es);
    var mid := at + |EncodeAll(es)|;
    StandsBoth(desc, at, EncodeAll(es), [0xA1, kind], mid);
    ItemsParsed(h, es, desc, at, mid);
    if Admissible(h, es) {
      MainParsed(After(h, es), desc, mid, 0xA1, kind, next);
    }
    hide ParseFrom, Settings, Listed, Page, Minimum, EncodeAll, Stands, Admissible;
  }

  lemma AddedBoth(h: State, first: seq<Collection>, h1: State, rest: seq<Collection>, h2: State)
    requires Added(h, first, h1) && Added(h1, rest, h2)
    ensures Added(h, first + rest, h2)
  {
    Assoc(h.collections, first, rest);
  }

  /** The parser goes through the parts, or rejects them; if not, it is in the same collection as
      before, and has found their tree. */
  lemma {:induction false} PartsParsed(h: State, ps: seq<Part>, desc: seq<uint8>, at: nat, next: nat)
    returns (r: Option<State>)
    requires Between(h) && AllSound(ps)
    requires Stands(desc, at, EncodeParts(ps)) && next == at + |EncodeParts(ps)|
    ensures ParseFrom(h, desc, at) == match r case None => None case Some(h1) => ParseFrom(h1, desc, next)
    ensures r.Some? ==> Added(h, Tree(ps, h.current, |h.collections|), r.value)
    decreases ps
  {
    hide ParseFrom, Stands, EncodeAll, Admissible;
    if ps == [] {
      r := Some(h);
      assert h.collections + [] == h.collections;
    } else {
      var mid := at + |EncodePart(ps[0])|;
      StandsBoth(desc, at, EncodePart(ps[0]), EncodeParts(ps[1..]), mid);
      assert AllSound(ps[1..]) && Sound(ps[0].es);
      var r1 := PartParsed(h, ps[0], desc, at, mid);
      if r1.Some? {
        r := PartsParsed(r1.value, ps[1..], desc, mid, next);
        if r.Some? {
          var first := Subtree(ps[0], h.current, |h.collections|);
          AddedBoth(h, first, r1.value, Tree(ps[1..], h.current, |r1.value.collections|), r.value);
        }
      } else {
        r := None;
      }
    }
  }

  lemma GroupEnds(h: State, p: Part, h1: State, h2: State)
    requires p.Group? && Between(h)
    requires h1.current == |h.collections| && h1.collections == h.collections + [Collection(h.current, p.kind)]
    requires Added(h1, Tree(p.parts, |h.collections|, |h.collections| + 1), h2)
    ensures h2.collections[h2.current].parent == h.current
    ensures Added(h, Subtree(p, h.current, |h.collections|), h2.(current := h.current))
  {
    Assoc(h.collections, [Collection(h.current, p.kind)], Tree(p.parts, |h.collections|, |h.collections| + 1));
  }

  lemma {:induction false} PartParsed(h: State, p: Part, desc: seq<uint8>, at: nat, next: nat)
    returns (r: Option<State>)
    requires Between(h) && Sound(p.es) && (p.Group? ==> AllSound(p.parts))
    requires Stands(desc, at, EncodePart(p)) && next == at + |EncodePart(p)|
    ensures ParseFrom(h, desc, at) == match r case None => None case Some(h1) => ParseFrom(h1, desc, next)
    ensures r.Some? ==> Added(h, Subtree(p, h.current, |h.collections|), r.value)
    decreases p
  {
    hide ParseFrom, Stands, EncodeAll, Admissible, WithInput;
    match p
    case Leaf(es, flags) =>
      InputParsed(h, es, flags, desc, at, next);
      LeafKeeps(h, es, flags);
      r := if Admissible(h, es) then Some(WithInput(h, es, flags)) else None;
      assert h.collections + [] == h.collections;
    case Group(es, kind, parts) =>
      var m1 := at + |EncodeAll(es)| + 2;
      var m2 := m1 + |EncodeParts(parts)|;
      StandsBoth(desc, at, EncodeAll(es) + [0xA1, kind], EncodeParts(parts) + [0xC0], m1);
      StandsBoth(desc, m1, EncodeParts(parts), [0xC0], m2);
      GroupBegins(h, es, kind, desc, at, m1);
      if Admissible(h, es) && |h.collections| < 8 {
        var h1 := State(Page(h, es), |h.collections|, h.collections + [Collection(h.current, kind)],
                        Global(0, 0, 0, 0, 0, 0, 0, 0), Local([], 0), h.reports, h.total);
        var r1 := PartsParsed(h1, parts, desc, m1, m2);
        if r1.Some? {
          EndParsed(r1.value, desc, m2, next);
          GroupEnds(h, p, h1, r1.value);
          r := Some(r1.value.(current := h.current));
        } else {
          r := None;
        }
      } else {
        r := None;
      }
  }

  /** A descriptor that sets a usage page and goes on with a tree of collections: if it is accepted,
      the parser has found exactly that tree, and is outside it again. */
  lemma CollectionsFound(page: uint8, ps: seq<Part>, desc: seq<uint8>)
    requires 0 < page < 0x80 && AllSound(ps)
    requires desc == [0x05, page] + EncodeParts(ps)
    ensures match ParseFrom(INIT, desc, 0)
            case None => true
            case Some(h) => h.collections == Tree(ps, -1, 0) && h.current == -1 && |h.collections| <= 8
  {
    var h1 := INIT.(usagePage := page as int);
    assert desc[0] == 0x05 && desc[1] == page && desc[2..] == EncodeParts(ps);
    assert desc[2..2 + |EncodeParts(ps)|] == EncodeParts(ps);
    NextItem(INIT, desc, 0, h1);
    var r := PartsParsed(h1, ps, desc, 2, |desc|);
    if r.Some? {
      ParsedAll(r.value, desc);
      assert [] + Tree(ps, -1, 0) == Tree(ps, -1, 0);
      AcceptedIsLaidOut(desc);
    }
  }
}
