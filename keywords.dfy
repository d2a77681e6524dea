/**
 * The keyword pipeline (`TextRankWithPOS`, `TextRank`, `TopTextRank`,
 * `SimHashRank`): count co-occurring token pairs inside a look-ahead window,
 * turn every counted pair into one undirected edge, rank, keep the top K.
 * The segmenter's output is the input sequence `pairs`; the power iteration
 * behind the scores is the function `score`.
 */
module Keywords {
  import opened Text
  import opened Collections
  import opened Sorting
  import opened Ranking
  import opened Graph

  /** The look-ahead window: token j pairs with token i when i < j < i + Span. */
  const Span: nat := 5

  /** Minimum length, in code points, of the first token of a counted pair. */
  const DefaultMinWordLength: nat := 2

  /** The tags `TextRank` and `TopTextRank` allow: names, places, organisations, nouns. */
  const DefaultAllowPOS: seq<string> := ["nr", "nrf", "nrfg", "ns", "nsf", "nt", "nz", "nl", "ng", "n", "vn"]

  /** Which pairs a pipeline counts: the tag and length filter, or none at all. */
  datatype Rule = WithPOS(allow: set<string>) | Unfiltered

  type Key = (string, string)

  /**
   * Position pair (i, j) is counted: j lies in the window after i and, under
   * the filter, both tags are allowed and token i (only token i) is at least
   * two code points long.
   */
  predicate Qualifies(rule: Rule, p: seq<Token>, i: nat, j: nat)
  {
    && i < j < i + Span && j < |p|
    && (rule.WithPOS? ==>
          && p[i].pos in rule.allow
          && p[j].pos in rule.allow
          && |p[i].text| >= DefaultMinWordLength)
  }

  /** The accumulator key of a position pair: the ordered pair of texts. */
  function KeyAt(p: seq<Token>, i: nat, j: nat): Key
    requires i < |p| && j < |p|
  {
    (p[i].text, p[j].text)
  }

  /** Where the window of token i ends (exclusive). */
  function RowEnd(n: nat, i: nat): nat
  {
    if i + Span < n then i + Span else n
  }

  /** Counted pairs (i, j) with key `key` and i < j < jEnd. */
  function RowCount(rule: Rule, p: seq<Token>, key: Key, i: nat, jEnd: nat): nat
    decreases jEnd
  {
    if jEnd <= i + 1 then 0
    else RowCount(rule, p, key, i, jEnd - 1)
         + (if Qualifies(rule, p, i, jEnd - 1) && KeyAt(p, i, jEnd - 1) == key then 1 else 0)
  }

  /** Counted pairs (i, j) with key `key` and i < iEnd. */
  function PrefixCount(rule: Rule, p: seq<Token>, key: Key, iEnd: nat): nat
  {
    if iEnd == 0 then 0
    else PrefixCount(rule, p, key, iEnd - 1) + RowCount(rule, p, key, iEnd - 1, RowEnd(|p|, iEnd - 1))
  }

  /** The weight the accumulator ends with for `key`, in the order the loops visit pairs. */
  function Count(rule: Rule, p: seq<Token>, key: Key): nat
  {
    PrefixCount(rule, p, key, |p|)
  }

  /** Independent reference: the set of counted position pairs whose texts are `key`. */
  ghost function QualifyingPairs(rule: Rule, p: seq<Token>, key: Key): set<(nat, nat)>
  {
    set i: nat, j: nat | i < |p| && j < |p| && Qualifies(rule, p, i, j) && KeyAt(p, i, j) == key :: (i, j)
  }

  /** All keys that some counted position pair produces. */
  ghost function PairKeys(rule: Rule, p: seq<Token>): set<Key>
  {
    set i: nat, j: nat | i < |p| && j < |p| && Qualifies(rule, p, i, j) :: KeyAt(p, i, j)
  }

  function Lookup(cm: map<Key, nat>, key: Key): nat
  {
    if key in cm then cm[key] else 0
  }

  /** The accumulator has counted every pair before row i, and row i up to jEnd. */
  ghost predicate Tallied(cm: map<Key, nat>, rule: Rule, p: seq<Token>, i: nat, jEnd: nat)
  {
    && (forall key :: Lookup(cm, key) == PrefixCount(rule, p, key, i) + RowCount(rule, p, key, i, jEnd))
    && (forall key :: key in cm ==> cm[key] > 0)
  }

  // ----- Counting: the accumulator loops -----

  lemma {:induction false} RowCountZero(rule: Rule, p: seq<Token>, key: Key, i: nat, jEnd: nat)
    requires rule.WithPOS? && i < |p| && p[i].pos !in rule.allow
    ensures RowCount(rule, p, key, i, jEnd) == 0
    decreases jEnd
  {
    if jEnd > i + 1 {
      RowCountZero(rule, p, key, i, jEnd - 1);
    }
  }

  /** One more occurrence of `key` in the accumulator. */
  function Bump(cm: map<Key, nat>, key: Key): map<Key, nat>
  {
    if key !in cm then cm[key := 1] else cm[key := cm[key] + 1]
  }

  /** One step of an inner loop: pair (i, j) is counted exactly when it qualifies. */
  lemma TallyStep(cm: map<Key, nat>, rule: Rule, p: seq<Token>, i: nat, j: nat)
    requires i < |p| && i + 1 <= j < RowEnd(|p|, i)
    requires Tallied(cm, rule, p, i, j)
    ensures Qualifies(rule, p, i, j) ==> Tallied(Bump(cm, KeyAt(p, i, j)), rule, p, i, j + 1)
    ensures !Qualifies(rule, p, i, j) ==> Tallied(cm, rule, p, i, j + 1)
  {
  }

  /** A row whose first token's tag is not allowed counts nothing. */
  lemma RowSkipped(cm: map<Key, nat>, rule: Rule, p: seq<Token>, i: nat)
    requires rule.WithPOS? && i < |p| && p[i].pos !in rule.allow
    requires Tallied(cm, rule, p, i, 0)
    ensures Tallied(cm, rule, p, i, RowEnd(|p|, i))
  {
    forall key ensures RowCount(rule, p, key, i, RowEnd(|p|, i)) == 0 {
      RowCountZero(rule, p, key, i, RowEnd(|p|, i));
    }
  }

  /** After the last row, the accumulator holds exactly the positive counts. */
  lemma TalliedAll(cm: map<Key, nat>, rule: Rule, p: seq<Token>)
    requires Tallied(cm, rule, p, |p|, 0)
    ensures forall key :: key in cm <==> Count(rule, p, key) > 0
    ensures forall key :: key in cm ==> cm[key] == Count(rule, p, key)
  {
    forall key ensures Lookup(cm, key) == Count(rule, p, key) {
      assert RowCount(rule, p, key, |p|, 0) == 0;
    }
  }

  /** A finished row is part of the prefix. */
  lemma RowDone(cm: map<Key, nat>, rule: Rule, p: seq<Token>, i: nat)
    requires i < |p|
    requires Tallied(cm, rule, p, i, RowEnd(|p|, i))
    ensures Tallied(cm, rule, p, i + 1, 0)
  {
  }

  /**
   * The nested loops of `TextRankWithPOS`: the accumulator maps each ordered
   * pair of texts to the number of counted position pairs with those texts,
   * and holds no other key.
   */
  method CountWithPOS(pairs: seq<Token>, posFilt: set<string>) returns (cm: map<Key, nat>)
    ensures forall key :: key in cm <==> Count(WithPOS(posFilt), pairs, key) > 0
    ensures forall key :: key in cm ==> cm[key] == Count(WithPOS(posFilt), pairs, key)
  {
    ghost var rule := WithPOS(posFilt);
    cm := map[];
    for i := 0 to |pairs|
      invariant Tallied(cm, rule, pairs, i, 0)
    {
      if pairs[i].pos in posFilt {
        var j := i + 1;
        while j < i + Span && j < |pairs|
          invariant i + 1 <= j <= RowEnd(|pairs|, i)
          invariant Tallied(cm, rule, pairs, i, j)
        {
          TallyStep(cm, rule, pairs, i, j);
          if pairs[j].pos !in posFilt {
            j := j + 1;
            continue;
          }
          if |pairs[i].text| < DefaultMinWordLength {
            j := j + 1;
            continue;
          }
          var key := (pairs[i].text, pairs[j].text);
          cm := if key !in cm then cm[key := 1] else cm[key := cm[key] + 1];
          j := j + 1;
        }
      } else {
        RowSkipped(cm, rule, pairs, i);
      }
      RowDone(cm, rule, pairs, i);
    }
    TalliedAll(cm, rule, pairs);
  }

  /** The loops of `SimHashRank`: the same accumulator with no tag or length filter. */
  method CountAll(pairs: seq<Token>) returns (cm: map<Key, nat>)
    ensures forall key :: key in cm <==> Count(Unfiltered, pairs, key) > 0
    ensures forall key :: key in cm ==> cm[key] == Count(Unfiltered, pairs, key)
  {
    cm := map[];
    for i := 0 to |pairs|
      invariant Tallied(cm, Unfiltered, pairs, i, 0)
    {
      var j := i + 1;
      while j < i + Span && j < |pairs|
        invariant i + 1 <= j <= RowEnd(|pairs|, i)
        invariant Tallied(cm, Unfiltered, pairs, i, j)
      {
        TallyStep(cm, Unfiltered, pairs, i, j);
        var key := (pairs[i].text, pairs[j].text);
        cm := if key !in cm then cm[key := 1] else cm[key := cm[key] + 1];
        j := j + 1;
      }
      RowDone(cm, Unfiltered, pairs, i);
    }
    TalliedAll(cm, Unfiltered, pairs);
  }

  // ----- What the counts mean -----

  /** Position pair (i, j) is counted under `key`. */
  ghost predicate Hit(rule: Rule, p: seq<Token>, key: Key, i: nat, j: nat)
  {
    i < |p| && j < |p| && Qualifies(rule, p, i, j) && KeyAt(p, i, j) == key
  }

  ghost function RowSet(rule: Rule, p: seq<Token>, key: Key, i: nat, jEnd: nat): set<(nat, nat)>
  {
    set j: nat | j < jEnd && Hit(rule, p, key, i, j) :: (i, j)
  }

  ghost function PrefixSet(rule: Rule, p: seq<Token>, key: Key, iEnd: nat): set<(nat, nat)>
  {
    set i: nat, j: nat | i < iEnd && j < |p| && Hit(rule, p, key, i, j) :: (i, j)
  }

  /** The counted pairs of row i before jEnd + 1 are those before jEnd and possibly (i, jEnd). */
  lemma RowSetSplit(rule: Rule, p: seq<Token>, key: Key, i: nat, j: nat)
    requires j >= i + 1
    ensures |RowSet(rule, p, key, i, j + 1)|
         == |RowSet(rule, p, key, i, j)| + (if Hit(rule, p, key, i, j) then 1 else 0)
  {
    var front := RowSet(rule, p, key, i, j);
    var last: set<(nat, nat)> := if Hit(rule, p, key, i, j) then {(i, j)} else {};
    forall x | x in RowSet(rule, p, key, i, j + 1) ensures x in front + last {
      if x.1 < j {
        assert x in front;
      }
    }
    assert RowSet(rule, p, key, i, j + 1) == front + last;
    assert (i, j) !in front;
  }

  lemma {:induction false} RowSetSize(rule: Rule, p: seq<Token>, key: Key, i: nat, jEnd: nat)
    ensures |RowSet(rule, p, key, i, jEnd)| == RowCount(rule, p, key, i, jEnd)
    decreases jEnd
  {
    if jEnd <= i + 1 {
      assert RowSet(rule, p, key, i, jEnd) == {};
    } else {
      RowSetSize(rule, p, key, i, jEnd - 1);
      RowSetSplit(rule, p, key, i, jEnd - 1);
    }
  }

  /** The counted pairs before row i + 1 are those before row i and those of row i. */
  lemma PrefixSetSplit(rule: Rule, p: seq<Token>, key: Key, i: nat)
    ensures |PrefixSet(rule, p, key, i + 1)| == |PrefixSet(rule, p, key, i)| + |RowSet(rule, p, key, i, RowEnd(|p|, i))|
  {
    var row := RowSet(rule, p, key, i, RowEnd(|p|, i));
    var before := PrefixSet(rule, p, key, i);
    forall x | x in PrefixSet(rule, p, key, i + 1) ensures x in before + row {
      if x.0 == i {
        assert x.1 < RowEnd(|p|, i);
        assert x in row;
      } else {
        assert x in before;
      }
    }
    assert PrefixSet(rule, p, key, i + 1) == before + row;
    assert before !! row;
  }

  lemma PrefixSetEmpty(rule: Rule, p: seq<Token>, key: Key)
    ensures PrefixSet(rule, p, key, 0) == {}
  {
  }

  lemma {:induction false} PrefixSetSize(rule: Rule, p: seq<Token>, key: Key, iEnd: nat)
    ensures |PrefixSet(rule, p, key, iEnd)| == PrefixCount(rule, p, key, iEnd)
  {
    if iEnd == 0 {
      PrefixSetEmpty(rule, p, key);
    } else {
      var i := iEnd - 1;
      PrefixSetSize(rule, p, key, i);
      RowSetSize(rule, p, key, i, RowEnd(|p|, i));
      PrefixSetSplit(rule, p, key, i);
    }
  }

  /** The accumulated weight of a key is the number of counted position pairs with those texts. */
  lemma CountIsNumberOfPairs(rule: Rule, p: seq<Token>, key: Key)
    ensures Count(rule, p, key) == |QualifyingPairs(rule, p, key)|
  {
    PrefixSetSize(rule, p, key, |p|);
    assert PrefixSet(rule, p, key, |p|) == QualifyingPairs(rule, p, key);
  }

  /** A key is accumulated exactly when some counted position pair has those texts. */
  lemma CountedKeys(rule: Rule, p: seq<Token>, key: Key)
    ensures Count(rule, p, key) > 0 <==> key in PairKeys(rule, p)
  {
    CountIsNumberOfPairs(rule, p, key);
    if key in PairKeys(rule, p) {
      var i: nat, j: nat :| i < |p| && j < |p| && Qualifies(rule, p, i, j) && KeyAt(p, i, j) == key;
      assert (i, j) in QualifyingPairs(rule, p, key);
    }
    if Count(rule, p, key) > 0 {
      var ij :| ij in QualifyingPairs(rule, p, key);
      var i: nat, j: nat := ij.0, ij.1;
      assert i < |p| && j < |p| && Qualifies(rule, p, i, j) && KeyAt(p, i, j) == key;
    }
  }

  /** The filter only removes pairs: no key weighs more than in `SimHashRank`. */
  lemma FilteredCountAtMostUnfiltered(allow: set<string>, p: seq<Token>, key: Key)
    ensures Count(WithPOS(allow), p, key) <= Count(Unfiltered, p, key)
  {
    CountIsNumberOfPairs(WithPOS(allow), p, key);
    CountIsNumberOfPairs(Unfiltered, p, key);
    SubsetCardinality(QualifyingPairs(WithPOS(allow), p, key), QualifyingPairs(Unfiltered, p, key));
  }

  /**
   * Keys are ordered and only the first token's length is checked: with
   * tokens "ab" then "c", the pair ("ab", "c") is counted once, while
   * ("c", "ab") is never counted.
   */
  lemma OrderedKeyExample()
    ensures Count(WithPOS({"n"}), [Token("ab", "n"), Token("c", "n")], ("ab", "c")) == 1
    ensures Count(WithPOS({"n"}), [Token("ab", "n"), Token("c", "n")], ("c", "ab")) == 0
  {
    var p := [Token("ab", "n"), Token("c", "n")];
    assert RowEnd(2, 0) == 2 && RowEnd(2, 1) == 2;
    assert Qualifies(WithPOS({"n"}), p, 0, 1);
  }

  // ----- The pipelines -----

  /**
   * The top-K cut: the first `topK` entries when `topK` is positive and the
   * list is longer, otherwise the whole list.
   */
  function TopK<T>(tags: seq<T>, topK: int): (r: seq<T>)
    ensures r <= tags
    ensures |r| == if 0 < topK < |tags| then topK else |tags|
  {
    if topK > 0 && |tags| > topK then tags[..topK] else tags
  }

  /** The `posFilt` lookup table built from the allowed tags. */
  method AllowSet(allowPOS: seq<string>) returns (posFilt: set<string>)
    ensures forall t :: t in posFilt <==> t in allowPOS
  {
    posFilt := {};
    for k := 0 to |allowPOS|
      invariant forall t :: t in posFilt <==> t in allowPOS[..k]
    {
      assert allowPOS[..k + 1] == allowPOS[..k] + [allowPOS[k]];
      posFilt := posFilt + {allowPOS[k]};
    }
    assert allowPOS[..|allowPOS|] == allowPOS;
  }

  /**
   * `TextRankWithPOS`: `ranked` is the graph's ranking, one entry per
   * endpoint of the counted pairs, scored, best first; the keywords are its
   * first `topK` entries (all of them unless `topK` is positive and smaller).
   */
  method TextRankWithPOS(pairs: seq<Token>, topK: int, allowPOS: seq<string>, score: string -> real)
    returns (tags: seq<Ranked>, ghost ranked: seq<Ranked>)
    ensures forall n :: n in Texts(ranked) <==> n in Endpoints(PairKeys(WithPOS(Elements(allowPOS)), pairs))
    ensures |ranked| == |Endpoints(PairKeys(WithPOS(Elements(allowPOS)), pairs))|
    ensures Distinct(Texts(ranked))
    ensures forall i :: 0 <= i < |ranked| ==> ranked[i].weight == score(ranked[i].text)
    ensures StrictlySorted(ranked, RankedBefore)
    ensures tags == TopK(ranked, topK)
    ensures |tags| == if 0 < topK < |ranked| then topK else |ranked|
    ensures forall n :: n in Texts(tags) ==> n in Texts(ranked)
    ensures Distinct(Texts(tags))
    ensures forall i :: 0 <= i < |tags| ==> tags[i].weight == score(tags[i].text)
    ensures StrictlySorted(tags, RankedBefore)
  {
    var posFilt := AllowSet(allowPOS);
    assert posFilt == Elements(allowPOS);
    var cm := CountWithPOS(pairs, posFilt);
    KeysOfCount(WithPOS(posFilt), pairs, cm);
    var all := RankPairs(cm, score);
    ranked := all;
    tags := all;
    if topK > 0 && |tags| > topK {
      tags := tags[..topK];
    }
    assert tags == TopK(all, topK);
    PrefixFacts(all, tags);
  }

  /** `TextRank`: `TextRankWithPOS` with the default tags and no cut, so the whole ranking. */
  method TextRank(pairs: seq<Token>, score: string -> real) returns (tags: seq<Ranked>)
    ensures forall n :: n in Texts(tags) <==> n in Endpoints(PairKeys(WithPOS(Elements(DefaultAllowPOS)), pairs))
    ensures |tags| == |Endpoints(PairKeys(WithPOS(Elements(DefaultAllowPOS)), pairs))|
    ensures Distinct(Texts(tags))
    ensures forall i :: 0 <= i < |tags| ==> tags[i].weight == score(tags[i].text)
    ensures StrictlySorted(tags, RankedBefore)
  {
    ghost var ranked;
    tags, ranked := TextRankWithPOS(pairs, -1, DefaultAllowPOS, score);
  }

  /** `TopTextRank`: `TextRankWithPOS` with the default tags. */
  method TopTextRank(pairs: seq<Token>, topK: int, score: string -> real)
    returns (tags: seq<Ranked>, ghost ranked: seq<Ranked>)
    ensures forall n :: n in Texts(ranked) <==> n in Endpoints(PairKeys(WithPOS(Elements(DefaultAllowPOS)), pairs))
    ensures |ranked| == |Endpoints(PairKeys(WithPOS(Elements(DefaultAllowPOS)), pairs))|
    ensures Distinct(Texts(ranked))
    ensures forall i :: 0 <= i < |ranked| ==> ranked[i].weight == score(ranked[i].text)
    ensures StrictlySorted(ranked, RankedBefore)
    ensures tags == TopK(ranked, topK)
    ensures |tags| == if 0 < topK < |ranked| then topK else |ranked|
    ensures Distinct(Texts(tags))
    ensures forall i :: 0 <= i < |tags| ==> tags[i].weight == score(tags[i].text)
    ensures StrictlySorted(tags, RankedBefore)
  {
    tags, ranked := TextRankWithPOS(pairs, topK, DefaultAllowPOS, score);
  }

  /** `SimHashRank`: every windowed pair counts; the whole ranked list is returned. */
  method SimHashRank(pairs: seq<Token>, score: string -> real) returns (tags: seq<Ranked>)
    ensures forall n :: n in Texts(tags) <==> n in Endpoints(PairKeys(Unfiltered, pairs))
    ensures |tags| == |Endpoints(PairKeys(Unfiltered, pairs))|
    ensures Distinct(Texts(tags))
    ensures forall i :: 0 <= i < |tags| ==> tags[i].weight == score(tags[i].text)
    ensures StrictlySorted(tags, RankedBefore)
  {
    var cm := CountAll(pairs);
    KeysOfCount(Unfiltered, pairs, cm);
    tags := RankPairs(cm, score);
  }

  /** The accumulator's keys are the keys of the counted position pairs. */
  lemma KeysOfCount(rule: Rule, p: seq<Token>, cm: map<Key, nat>)
    requires forall key :: key in cm <==> Count(rule, p, key) > 0
    ensures cm.Keys == PairKeys(rule, p)
  {
    forall key ensures key in cm <==> key in PairKeys(rule, p) {
      CountedKeys(rule, p, key);
    }
  }

  /** What a prefix of a ranked list keeps. */
  lemma PrefixFacts(ranked: seq<Ranked>, tags: seq<Ranked>)
    requires tags <= ranked
    ensures forall n :: n in Texts(tags) ==> n in Texts(ranked)
    ensures Distinct(Texts(ranked)) ==> Distinct(Texts(tags))
    ensures StrictlySorted(ranked, RankedBefore) ==> StrictlySorted(tags, RankedBefore)
  {
    forall n | n in Texts(tags) ensures n in Texts(ranked) {
      var k :| 0 <= k < |tags| && Texts(tags)[k] == n;
      assert Texts(ranked)[k] == n;
    }
  }
}
