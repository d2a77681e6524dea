/**
 * The string set of the sentence pipeline: a Go map from string to the empty
 * struct, shared by reference and updated in place by `add`.
 */
module StrSets {
  import opened Collections

  class StrSet {
    var members: set<string>

    /** `newSet`: a fresh, empty set. */
    constructor ()
      ensures members == {}
    {
      members := {};
    }

    /** `has`: a member makes the set non-empty. */
    predicate Has(text: string): (b: bool)
      reads this
      ensures b ==> Len() > 0
    {
      text in members
    }

    /** `len`: zero exactly for the empty set. */
    function Len(): (n: nat)
      reads this
      ensures n == 0 <==> members == {}
    {
      |members|
    }

    /**
     * `add`: afterwards `text` is a member; every other string keeps its
     * membership, so adding a member twice changes nothing.
     */
    method Add(text: string)
      modifies this
      ensures Has(text)
      ensures forall x :: x != text ==> (Has(x) <==> old(Has(x)))
      ensures old(Has(text)) ==> members == old(members)
      ensures members == old(members) + {text}
    {
      if text !in members {
        members := members + {text};
      }
    }

    /** `elems`: every member exactly once, in no particular order. */
    method Elems() returns (els: seq<string>)
      ensures Distinct(els)
      ensures forall x :: x in els <==> Has(x)
      ensures |els| == Len()
    {
      els := [];
      var rest := members;
      while rest != {}
        invariant rest <= members
        invariant Distinct(els)
        invariant forall x :: x in els <==> x in members && x !in rest
        decreases |rest|
      {
        var k :| k in rest;
        els := els + [k];
        rest := rest - {k};
      }
      DistinctCardinality(els);
      assert Elements(els) == members;
    }

    /**
     * `intersect`: a fresh set holding exactly the strings in both sets;
     * neither operand changes (the method modifies nothing but the result).
     */
    method Intersect(o: StrSet) returns (r: StrSet)
      ensures fresh(r)
      ensures forall x :: r.Has(x) <==> Has(x) && o.Has(x)
      ensures r.members == members * o.members
      ensures r.Len() <= Len() && r.Len() <= o.Len()
    {
      r := new StrSet();
      var rest := members;
      while rest != {}
        invariant rest <= members
        invariant fresh(r) && r != o
        invariant r.members == (members - rest) * o.members
        decreases |rest|
      {
        var k :| k in rest;
        if o.Has(k) {
          r.Add(k);
        }
        rest := rest - {k};
      }
      IntersectCommutes(members, o.members);
    }
  }

  /** Intersection does not depend on which operand is the receiver. */
  lemma IntersectCommutes(a: set<string>, b: set<string>)
    ensures a * b == b * a
    ensures |a * b| <= |a| && |a * b| <= |b|
  {
    SubsetCardinality(a * b, a);
    SubsetCardinality(a * b, b);
  }
}
