/** How a packet buffer grows: it is replaced only when a request exceeds it, and then
    by the requested length plus a fixed increment. */
module Growth {

  /** The size of a buffer, how often it was replaced, and the longest length asked of it. */
  datatype Growth = Growth(size: nat, reallocations: nat, longest: nat) {

    function Ask(increment: nat, length: nat): Growth {
      var longest' := if length > longest then length else longest;
      if length > size then Growth(length + increment, reallocations + 1, longest')
      else Growth(size, reallocations, longest')
    }

    /** The growth after all of `requests`, in order. */
    function AskAll(increment: nat, requests: seq<nat>): Growth {
      if requests == [] then this
      else AskAll(increment, requests[..|requests| - 1]).Ask(increment, requests[|requests| - 1])
    }
  }

  function New(initial: nat): Growth { Growth(initial, 0, 0) }

  lemma AskMore(g: Growth, increment: nat, requests: seq<nat>, length: nat)
    ensures g.AskAll(increment, requests + [length]) == g.AskAll(increment, requests).Ask(increment, length)
  {
    assert (requests + [length])[..|requests|] == requests;
  }

  /** The buffer holds every length asked for, never shrinks, and overshoots by at most one
      increment. */
  lemma {:induction false} SizeBounds(initial: nat, increment: nat, requests: seq<nat>)
    ensures var g := New(initial).AskAll(increment, requests);
            && initial <= g.size && g.longest <= g.size
            && (g.size == initial || g.size <= g.longest + increment)
            && forall r :: r in requests ==> r <= g.longest
  {
    if requests != [] {
      SizeBounds(initial, increment, requests[..|requests| - 1]);
      assert requests == requests[..|requests| - 1] + [requests[|requests| - 1]];
    }
  }

  /** Reallocation is rare: with a first size of one increment, the reallocations so far,
      each worth one increment, stay below the longest length ever asked for. */
  lemma {:induction false} ReallocationsAreRare(increment: nat, requests: seq<nat>)
    requires 0 < increment
    ensures var g := New(increment).AskAll(increment, requests);
            && (g.reallocations + 1) * increment <= g.size
            && (g.reallocations == 0 || g.reallocations * increment < g.longest)
  {
    if requests != [] {
      var before := requests[..|requests| - 1];
      ReallocationsAreRare(increment, before);
      var n := New(increment).AskAll(increment, before).reallocations;
      assert (n + 1 + 1) * increment == (n + 1) * increment + increment;
    }
  }
}
