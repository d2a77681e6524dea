/**
 * `Sentence` and `Sentences`: a sentence's position, text, word set and
 * weight; the similarity between two sentences; and the slice order used to
 * sort ranked sentences.
 */
module Sentences {
  import opened Text
  import opened Ranking
  import StrSets

  /**
   * A sentence record. `text` and `weight` are what `Text()` and `Weight()`
   * return; the word set is held by value.
   */
  datatype Sentence = Sentence(pos: int, text: string, words: set<string>, weight: real)

  /**
   * What the model needs of `math.Log` on word counts: Log(1) is zero and the
   * log of any larger count is positive. Log(0), minus infinity in Go, is not
   * consulted (see `Similarity`).
   */
  ghost predicate LogLaws(log: nat -> real)
  {
    && log(1) == 0.0
    && forall n: nat :: n > 1 ==> log(n) > 0.0
  }

  /**
   * `Similarity`: the number of shared words over the sum of the logs of the
   * two word counts, or the sentinel -1 when that sum is zero. With an empty
   * word set Go divides zero by minus infinity, giving (negative) zero.
   */
  function Similarity(s: Sentence, t: Sentence, log: nat -> real): (r: real)
    ensures r > 0.0 ==> s.words * t.words != {}
    ensures s.words == {} || t.words == {} ==> r == 0.0
  {
    var ww := |s.words * t.words|;
    if |s.words| == 0 || |t.words| == 0 then 0.0
    else
      var ss := log(|s.words|) + log(|t.words|);
      if ss == 0.0 then -1.0 else ww as real / ss
  }

  /** The numerator is at most either word count. */
  lemma SharedWordsBound(s: Sentence, t: Sentence)
    ensures |s.words * t.words| <= |s.words|
    ensures |s.words * t.words| <= |t.words|
  {
    StrSets.IntersectCommutes(s.words, t.words);
  }

  /** Similarity does not depend on the order of its arguments. */
  lemma SimilaritySymmetric(s: Sentence, t: Sentence, log: nat -> real)
    ensures Similarity(s, t, log) == Similarity(t, s, log)
  {
    assert s.words * t.words == t.words * s.words;
  }

  /**
   * The sentinel comes back exactly when both sentences have a single word;
   * otherwise the result is never negative (with no words it is zero).
   */
  lemma SimilaritySentinel(s: Sentence, t: Sentence, log: nat -> real)
    requires LogLaws(log)
    ensures Similarity(s, t, log) == -1.0 <==> |s.words| == 1 && |t.words| == 1
    ensures Similarity(s, t, log) != -1.0 ==> Similarity(s, t, log) >= 0.0
  {
    if s.words != {} && t.words != {} {
      assert log(|s.words|) >= 0.0 && log(|t.words|) >= 0.0;
      if |s.words| > 1 || |t.words| > 1 {
        assert log(|s.words|) + log(|t.words|) > 0.0;
      }
    }
  }

  /**
   * A sentence with at least two words is similar to itself, so the
   * all-pairs loop gives it a self-edge.
   */
  lemma SelfSimilarityPositive(s: Sentence, log: nat -> real)
    requires LogLaws(log)
    requires |s.words| >= 2
    ensures Similarity(s, s, log) > 0.0
  {
    assert s.words * s.words == s.words;
    assert log(|s.words|) > 0.0;
  }

  /** `Sentences.Less`: by weight, and by text when the weights are equal. */
  predicate Less(ss: seq<Sentence>, i: int, j: int): (r: bool)
    requires 0 <= i < |ss| && 0 <= j < |ss|
    ensures r <==> RankedLess(Ranked(ss[i].text, ss[i].weight), Ranked(ss[j].text, ss[j].weight))
    ensures r ==> ss[i].weight != ss[j].weight || ss[i].text != ss[j].text
  {
    ScoreLessStrict(ss[i].weight, ss[i].text, ss[j].weight, ss[j].text);
    ScoreLess(ss[i].weight, ss[i].text, ss[j].weight, ss[j].text)
  }

  lemma LessIrreflexive(ss: seq<Sentence>, i: int)
    requires 0 <= i < |ss|
    ensures !Less(ss, i, i)
  {
    ScoreLessStrict(ss[i].weight, ss[i].text, ss[i].weight, ss[i].text);
  }

  lemma LessAsymmetric(ss: seq<Sentence>, i: int, j: int)
    requires 0 <= i < |ss| && 0 <= j < |ss|
    ensures Less(ss, i, j) ==> !Less(ss, j, i)
  {
    ScoreLessStrict(ss[i].weight, ss[i].text, ss[j].weight, ss[j].text);
  }

  /** Two sentences with different texts are always ordered one way or the other. */
  lemma LessConnected(ss: seq<Sentence>, i: int, j: int)
    requires 0 <= i < |ss| && 0 <= j < |ss|
    requires ss[i].text != ss[j].text
    ensures Less(ss, i, j) || Less(ss, j, i)
  {
    ScoreLessConnected(ss[i].weight, ss[i].text, ss[j].weight, ss[j].text);
  }

  /** `Sentences.Swap`: exchanges positions i and j and nothing else. */
  method Swap(ss: array<Sentence>, i: int, j: int)
    requires 0 <= i < ss.Length && 0 <= j < ss.Length
    modifies ss
    ensures ss[i] == old(ss[j]) && ss[j] == old(ss[i])
    ensures forall k :: 0 <= k < ss.Length && k != i && k != j ==> ss[k] == old(ss[k])
  {
    ss[i], ss[j] := ss[j], ss[i];
  }
}
