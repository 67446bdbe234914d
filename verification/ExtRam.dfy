/** The external RAM behind the FPGA: any address can be written, and block writes succeed. */
module ExtRam {
  /** Memory m with the block s stored from address a on. */
  function Store<T>(m: map<nat, T>, a: nat, s: seq<T>): (r: map<nat, T>)
    ensures forall k: nat :: a <= k < a + |s| ==> k in r && r[k] == s[k - a]
    ensures forall k: nat :: !(a <= k < a + |s|) ==> (k in r <==> k in m) && (k in m ==> r[k] == m[k])
    decreases |s|
  {
    if s == [] then m else Store(m[a := s[0]], a + 1, s[1..])
  }

  lemma StoreEmpty<T>(m: map<nat, T>, a: nat)
    ensures Store(m, a, []) == m
  {
  }

  /** Storing two blocks next to each other is storing their concatenation. */
  lemma StoreNext<T>(m: map<nat, T>, a: nat, s: seq<T>, t: seq<T>)
    ensures Store(Store(m, a, s), a + |s|, t) == Store(m, a, s + t)
  {
    var l, r := Store(Store(m, a, s), a + |s|, t), Store(m, a, s + t);
    assert forall k: nat :: k in l <==> k in r;
    assert forall k: nat :: k in l ==> l[k] == r[k];
  }

  class Ram<T> {
    var mem: map<nat, T>

    constructor ()
    {
    }

    /** fpga__write_extram_block. */
    method WriteBlock(address: nat, data: seq<T>)
      modifies this
      ensures mem == Store(old(mem), address, data)
    {
      mem := Store(mem, address, data);
    }
  }
}
