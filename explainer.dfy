/**
 * The explainer's constraint set.  Only `add_constraint` and the
 * minimal-solution switch have an implementation in the base explainer; the
 * contradiction check they rely on is supplied by a concrete explainer and is
 * modelled here as a predicate over the constraint list given at construction.
 */
module Explainers {
  import opened Traces

  /** The index of the first element of `s` equal to `x`. */
  function FirstIndex<C(==)>(s: seq<C>, x: C): (i: nat)
    requires x in s
    ensures i < |s| && s[i] == x
    ensures forall j :: 0 <= j < i ==> s[j] != x
  {
    if s[0] == x then 0 else 1 + FirstIndex(s[1..], x)
  }

  /**
   * Python's `list.remove`: the list without its first element equal to `x`.
   * Exactly one copy of `x` goes and the rest keep their order.
   */
  function RemoveFirst<C(==)>(s: seq<C>, x: C): (r: seq<C>)
    requires x in s
    ensures |r| == |s| - 1
    ensures multiset(r) == multiset(s) - multiset{x}
    ensures var i := FirstIndex(s, x);
      && (forall j :: 0 <= j < i ==> r[j] == s[j])
      && (forall j :: i <= j < |r| ==> r[j] == s[j + 1])
  {
    var i := FirstIndex(s, x);
    MultisetWithout(s, i);
    s[..i] + s[i + 1..]
  }

  lemma MultisetWithout<C>(s: seq<C>, i: nat)
    requires i < |s|
    ensures multiset(s[..i] + s[i + 1..]) == multiset(s) - multiset{s[i]}
  {
    assert s == s[..i] + [s[i]] + s[i + 1..];
  }

  /** Removing the element just appended gives back the list when it held no copy of it. */
  lemma RemoveFirstAppendedNew<C>(s: seq<C>, x: C)
    requires x !in s
    ensures RemoveFirst(s + [x], x) == s
  {
  }

  /**
   * When the list already held a copy of `x`, removing `x` from the extended
   * list takes out the earlier copy and keeps the one just appended.
   */
  lemma RemoveFirstAppendedDuplicate<C>(s: seq<C>, x: C)
    requires x in s
    ensures RemoveFirst(s + [x], x) == RemoveFirst(s, x) + [x]
  {
    var i := FirstIndex(s, x);
    var j := FirstIndex(s + [x], x);
    assert (s + [x])[..i] == s[..i];
    assert (s + [x])[i] == x;
    assert j == i;
    assert (s + [x])[i + 1..] == s[i + 1..] + [x];
  }

  class Explainer<C(==)> {
    /** The constraints, in the order they were accepted. */
    var constraints: seq<C>
    /** A trace conforming to the constraints, once one has been produced. */
    var adherentTrace: Trace?
    /** Conforming traces produced so far. */
    var adherentTraces: seq<Trace>
    /** Whether explanations must be minimal rather than the first one found. */
    var minimalSolution: bool
    /** The concrete explainer's contradiction check, as a predicate over the constraint list. */
    const contradicts: seq<C> -> bool

    constructor (contradicts: seq<C> -> bool)
      ensures this.contradicts == contradicts
      ensures constraints == [] && adherentTrace == null && adherentTraces == []
      ensures !minimalSolution
    {
      this.contradicts := contradicts;
      constraints := [];
      adherentTrace := null;
      adherentTraces := [];
      minimalSolution := false;
    }

    method SetMinimalSolution(minimal: bool)
      modifies this`minimalSolution
      ensures minimalSolution == minimal
    {
      minimalSolution := minimal;
    }

    /**
     * Appends `constr`, then takes it out again when the extended constraint
     * set is contradictory.  Taking it out removes the first equal constraint,
     * so the constraint multiset is back to what it was in that case.
     */
    method AddConstraint(constr: C)
      modifies this`constraints
      ensures !contradicts(old(constraints) + [constr]) ==> constraints == old(constraints) + [constr]
      ensures contradicts(old(constraints) + [constr]) ==>
        constraints == RemoveFirst(old(constraints) + [constr], constr) &&
        multiset(constraints) == multiset(old(constraints))
      ensures contradicts(old(constraints) + [constr]) && constr !in old(constraints) ==>
        constraints == old(constraints)
    {
      constraints := constraints + [constr];
      if contradicts(constraints) {
        constraints := RemoveFirst(constraints, constr);
        if constr !in old(constraints) {
          RemoveFirstAppendedNew(old(constraints), constr);
        }
      }
    }
  }
}
