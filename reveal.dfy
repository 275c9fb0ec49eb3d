/**
 * Scroll-reveal animations, `initScrollReveal`: every target is hidden, then
 * revealed on its first intersecting observer entry and unobserved; without
 * `IntersectionObserver` every target is revealed at once.
 */
module Reveal {

  /** One IntersectionObserver entry: the index of its target, in document
      order, and `isIntersecting`. */
  datatype Entry = Entry(target: nat, isIntersecting: bool)

  /** The targets that some entry reports as intersecting. */
  function Intersecting(entries: seq<Entry>): set<nat> {
    set k | 0 <= k < |entries| && entries[k].isIntersecting :: entries[k].target
  }

  class ScrollReveal {
    /** Per target: opacity 1 (revealed) rather than opacity 0 (hidden). */
    const revealed: array<bool>
    /** The targets the current observer still observes. */
    var observed: set<nat>

    /** A target is observed exactly while it is hidden. */
    ghost predicate Valid()
      reads this, revealed
    {
      && (forall t :: 0 <= t < revealed.Length ==> (t in observed <==> !revealed[t]))
      && (forall t :: t in observed ==> t < revealed.Length)
    }

    /** The page's `count` targets, before any binding. */
    constructor (count: nat)
      ensures fresh(revealed) && revealed.Length == count && observed == {}
      ensures Valid() && forall t :: 0 <= t < revealed.Length ==> revealed[t]
    {
      revealed := new bool[count](_ => true);
      observed := {};
    }

    /** `initScrollReveal()`: every target is set hidden; then either all are
        revealed (no `IntersectionObserver`) or all are observed. A second
        binding, such as the one after the footer loads, hides again targets
        already revealed. */
    method Bind(hasObserver: bool)
      modifies this, revealed
      ensures Valid()
      ensures hasObserver ==> forall t :: 0 <= t < revealed.Length ==> !revealed[t] && t in observed
      ensures !hasObserver ==> observed == {} && forall t :: 0 <= t < revealed.Length ==> revealed[t]
    {
      var n := revealed.Length;
      for i := 0 to n
        invariant forall t :: 0 <= t < i ==> !revealed[t]
      {
        revealed[i] := false;
      }
      if !hasObserver {
        for i := 0 to n
          invariant forall t :: 0 <= t < i ==> revealed[t]
        {
          revealed[i] := true;
        }
        observed := {};
        return;
      }
      observed := {};
      for i := 0 to n
        invariant forall t :: t in observed <==> 0 <= t < i
        invariant forall t :: 0 <= t < n ==> !revealed[t]
      {
        observed := observed + {i};
      }
    }

    /** The observer callback on a batch of entries: an intersecting entry
        reveals its target and unobserves it; nothing is ever hidden. */
    method OnEntries(entries: seq<Entry>)
      requires Valid()
      requires forall k :: 0 <= k < |entries| ==> entries[k].target < revealed.Length
      modifies this, revealed
      ensures Valid()
      ensures forall t :: 0 <= t < revealed.Length ==>
        revealed[t] == (old(revealed[t]) || t in Intersecting(entries))
      ensures observed == old(observed) - Intersecting(entries)
    {
      var k := 0;
      while k < |entries|
        invariant 0 <= k <= |entries|
        invariant Valid()
        invariant forall t :: 0 <= t < revealed.Length ==>
          revealed[t] == (old(revealed[t]) || t in Intersecting(entries[..k]))
        invariant observed == old(observed) - Intersecting(entries[..k])
      {
        var e := entries[k];
        if e.isIntersecting {
          revealed[e.target] := true;
          observed := observed - {e.target};
        }
        assert Intersecting(entries[..k + 1]) == Intersecting(entries[..k]) + (if e.isIntersecting then {e.target} else {}) by {
          assert entries[..k + 1] == entries[..k] + [e];
        }
        k := k + 1;
      }
      assert entries[..k] == entries;
    }
  }
}
