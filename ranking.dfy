/**
 * Ranked results and the order they are reported in. Both pipelines sort the
 * result of `rank` by the reverse of one comparator: lower weight first, and
 * on equal weights the lexicographically smaller text first.
 */
module Ranking {
  import opened Text
  import opened Sorting

  /** A node label with its (normalised) score. */
  datatype Ranked = Ranked(text: string, weight: real)

  /** The comparator of `Sentences.Less`: by weight, ties broken by text. */
  predicate ScoreLess(w1: real, t1: string, w2: real, t2: string)
  {
    if w1 == w2 then StrLess(t1, t2) else w1 < w2
  }

  predicate RankedLess(a: Ranked, b: Ranked)
  {
    ScoreLess(a.weight, a.text, b.weight, b.text)
  }

  /** `sort.Reverse`: `a` comes before `b` when `b` is less than `a`. */
  predicate RankedBefore(a: Ranked, b: Ranked)
  {
    RankedLess(b, a)
  }

  function Texts(rs: seq<Ranked>): (ts: seq<string>)
    ensures |ts| == |rs|
    ensures forall i :: 0 <= i < |rs| ==> ts[i] == rs[i].text
  {
    seq(|rs|, i requires 0 <= i < |rs| => rs[i].text)
  }

  lemma StrLessIsStrictTotal()
    ensures StrictTotalOrder(StrLess)
  {
    forall x ensures !StrLess(x, x) {
      StrLessIrreflexive(x);
    }
    forall x, y, z | StrLess(x, y) && StrLess(y, z) ensures StrLess(x, z) {
      StrLessTransitive(x, y, z);
    }
    forall x, y | x != y ensures StrLess(x, y) || StrLess(y, x) {
      StrLessConnected(x, y);
    }
  }

  /** The comparator is irreflexive and never holds in both directions. */
  lemma ScoreLessStrict(w1: real, t1: string, w2: real, t2: string)
    ensures !ScoreLess(w1, t1, w1, t1)
    ensures ScoreLess(w1, t1, w2, t2) ==> !ScoreLess(w2, t2, w1, t1)
  {
    StrLessIrreflexive(t1);
    if ScoreLess(w1, t1, w2, t2) && w1 == w2 {
      StrLessAsymmetric(t1, t2);
    }
  }

  /** Any two different results are ordered one way or the other. */
  lemma ScoreLessConnected(w1: real, t1: string, w2: real, t2: string)
    requires w1 != w2 || t1 != t2
    ensures ScoreLess(w1, t1, w2, t2) || ScoreLess(w2, t2, w1, t1)
  {
    if w1 == w2 {
      StrLessConnected(t1, t2);
    }
  }

  lemma ScoreLessTransitive(a: Ranked, b: Ranked, c: Ranked)
    requires RankedLess(a, b) && RankedLess(b, c)
    ensures RankedLess(a, c)
  {
    if a.weight == b.weight && b.weight == c.weight {
      StrLessTransitive(a.text, b.text, c.text);
    }
  }

  lemma RankedBeforeIsStrictTotal()
    ensures StrictTotalOrder(RankedBefore)
  {
    forall x ensures !RankedBefore(x, x) {
      ScoreLessStrict(x.weight, x.text, x.weight, x.text);
    }
    forall x, y, z | RankedBefore(x, y) && RankedBefore(y, z) ensures RankedBefore(x, z) {
      ScoreLessTransitive(z, y, x);
    }
    forall x, y | x != y ensures RankedBefore(x, y) || RankedBefore(y, x) {
      ScoreLessConnected(x.weight, x.text, y.weight, y.text);
    }
  }
}
