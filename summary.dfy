/**
 * The sentence pipeline: sentences are ranked by how many words they share,
 * the best-ranked ones are taken while their length fits the limit, and the
 * kept sentences are reported in document order.
 */
module Summary {
  import opened Text
  import opened Collections
  import opened Sorting
  import opened Ranking
  import opened Graph
  import opened StrSets
  import opened Sentences
  import opened SentenceSplit

  /** `defaultAllowPOS`: the tags put into the package's filter set. */
  const DefaultAllowPOS: seq<string> := ["ns", "n", "vn", "v"]

  /** `init`: the filter set holds exactly the default tags. */
  method InitPosFilter() returns (posFilter: StrSet)
    ensures fresh(posFilter)
    ensures forall tag :: posFilter.Has(tag) <==> tag in DefaultAllowPOS
  {
    posFilter := new StrSet();
    for i := 0 to |DefaultAllowPOS|
      invariant fresh(posFilter)
      invariant forall tag :: posFilter.Has(tag) <==> tag in DefaultAllowPOS[..i]
    {
      assert DefaultAllowPOS[..i + 1] == DefaultAllowPOS[..i] + [DefaultAllowPOS[i]];
      posFilter.Add(DefaultAllowPOS[i]);
    }
    assert DefaultAllowPOS[..|DefaultAllowPOS|] == DefaultAllowPOS;
  }

  type Pair = (string, string)

  /**
   * If sentences `a` and `b` have a positive similarity, `cm` holds it under
   * the pair of their texts.
   */
  ghost predicate Recorded(cm: map<Pair, real>, ss: seq<Sentence>, log: nat -> real, a: int, b: int)
  {
    0 <= a < |ss| && 0 <= b < |ss| && Similarity(ss[a], ss[b], log) > 0.0 ==>
      (ss[a].text, ss[b].text) in cm && cm[(ss[a].text, ss[b].text)] == Similarity(ss[a], ss[b], log)
  }

  /** The entry `k` of `cm` is the positive similarity of sentences `a` and `b`. */
  ghost predicate Produces(cm: map<Pair, real>, ss: seq<Sentence>, log: nat -> real, k: Pair, a: int, b: int)
  {
    && 0 <= a < |ss| && 0 <= b < |ss|
    && k == (ss[a].text, ss[b].text)
    && Similarity(ss[a], ss[b], log) > 0.0
    && k in cm && cm[k] == Similarity(ss[a], ss[b], log)
  }

  /**
   * `cm` holds, for every ordered pair of sentences with a positive
   * similarity, that similarity under the pair of their texts, and nothing
   * else.
   */
  ghost predicate IsSimilarityMap(cm: map<Pair, real>, ss: seq<Sentence>, log: nat -> real)
  {
    && (forall a, b :: Recorded(cm, ss, log, a, b))
    && (forall k :: k in cm ==> exists a, b :: Produces(cm, ss, log, k, a, b))
  }

  /** Every key of `cm` is recorded in `origin` with the pair of sentences that produced it. */
  ghost predicate Witnessed(cm: map<Pair, real>, origin: map<Pair, (int, int)>, ss: seq<Sentence>, log: nat -> real)
  {
    forall k :: k in cm ==> k in origin && Produces(cm, ss, log, k, origin[k].0, origin[k].1)
  }

  /** Pairs are visited row by row: (a', b') comes before (a, b). */
  predicate Before(a': int, b': int, a: int, b: int)
  {
    a' < a || (a' == a && b' < b)
  }

  /** One step of the inner loop keeps both loop invariants. */
  lemma PairStep(cm: map<Pair, real>, origin: map<Pair, (int, int)>, ss: seq<Sentence>, log: nat -> real,
                 a: int, b: int)
    requires Distinct(SentenceTexts(ss))
    requires 0 <= a < |ss| && 0 <= b < |ss|
    requires Witnessed(cm, origin, ss, log)
    requires forall a', b' :: Before(a', b', a, b) ==> Recorded(cm, ss, log, a', b')
    ensures var sim := Similarity(ss[a], ss[b], log);
      var pair := (ss[a].text, ss[b].text);
      var cm' := if sim > 0.0 then cm[pair := sim] else cm;
      var origin' := if sim > 0.0 then origin[pair := (a, b)] else origin;
      && Witnessed(cm', origin', ss, log)
      && (forall a', b' :: Before(a', b', a, b + 1) ==> Recorded(cm', ss, log, a', b'))
  {
    var sim := Similarity(ss[a], ss[b], log);
    var pair := (ss[a].text, ss[b].text);
    if sim > 0.0 {
      var cm' := cm[pair := sim];
      var origin' := origin[pair := (a, b)];
      forall a', b' | 0 <= a' < |ss| && 0 <= b' < |ss| && Before(a', b', a, b)
        ensures (ss[a'].text, ss[b'].text) != pair
      {
        if a' != a {
          assert SentenceTexts(ss)[a'] != SentenceTexts(ss)[a];
        } else {
          assert SentenceTexts(ss)[b'] != SentenceTexts(ss)[b];
        }
      }
      forall a', b' | Before(a', b', a, b + 1)
        ensures Recorded(cm', ss, log, a', b')
      {
        if !(a' == a && b' == b) {
          assert Recorded(cm, ss, log, a', b');
        }
      }
      forall k | k in cm'
        ensures k in origin' && Produces(cm', ss, log, k, origin'[k].0, origin'[k].1)
      {
        if k != pair {
          assert Produces(cm, ss, log, k, origin[k].0, origin[k].1);
        }
      }
    } else {
      forall a', b' | Before(a', b', a, b + 1)
        ensures Recorded(cm, ss, log, a', b')
      {
        if !(a' == a && b' == b) {
          assert Recorded(cm, ss, log, a', b');
        }
      }
    }
  }

  /**
   * The all-pairs loop of `TextRank` (its guard `i < len(sentences)+1` is
   * always true). The sentence texts are distinct, so no pair is written
   * twice.
   */
  method PairSimilarities(ss: seq<Sentence>, log: nat -> real) returns (cm: map<Pair, real>)
    requires Distinct(SentenceTexts(ss))
    ensures IsSimilarityMap(cm, ss, log)
  {
    cm := map[];
    ghost var origin: map<Pair, (int, int)> := map[];
    for a := 0 to |ss|
      invariant Witnessed(cm, origin, ss, log)
      invariant forall a', b' :: Before(a', b', a, 0) ==> Recorded(cm, ss, log, a', b')
    {
      if a < |ss| + 1 {
        for b := 0 to |ss|
          invariant Witnessed(cm, origin, ss, log)
          invariant forall a', b' :: Before(a', b', a, b) ==> Recorded(cm, ss, log, a', b')
        {
          PairStep(cm, origin, ss, log, a, b);
          var pair := (ss[a].text, ss[b].text);
          var sim := Similarity(ss[a], ss[b], log);
          if sim > 0.0 {
            cm := cm[pair := sim];
            origin := origin[pair := (a, b)];
          }
        }
        assert forall a', b' :: Before(a', b', a + 1, 0) ==> Before(a', b', a, |ss|) || !(0 <= b' < |ss|);
      }
    }
    assert forall a', b' :: Before(a', b', |ss|, 0) || !(0 <= a' < |ss|);
    forall k | k in cm
      ensures exists a, b :: Produces(cm, ss, log, k, a, b)
    {
      assert Produces(cm, ss, log, k, origin[k].0, origin[k].1);
    }
  }

  /** Sentence `a` shares words with some sentence (possibly itself). */
  ghost predicate HasPartner(ss: seq<Sentence>, log: nat -> real, a: int)
    requires 0 <= a < |ss|
  {
    exists b :: 0 <= b < |ss| && Similarity(ss[a], ss[b], log) > 0.0
  }

  /** `x` is the text of a sentence that has a partner. */
  ghost predicate Linked(ss: seq<Sentence>, log: nat -> real, x: string)
  {
    exists a :: 0 <= a < |ss| && ss[a].text == x && HasPartner(ss, log, a)
  }

  lemma EndpointLinked(cm: map<Pair, real>, ss: seq<Sentence>, log: nat -> real, x: string)
    requires forall k :: k in cm ==> exists a, b :: Produces(cm, ss, log, k, a, b)
    requires x in Endpoints(cm.Keys)
    ensures Linked(ss, log, x)
  {
    var k :| k in cm.Keys && (k.0 == x || k.1 == x);
    var a, b :| Produces(cm, ss, log, k, a, b);
    if k.0 == x {
      assert HasPartner(ss, log, a);
    } else {
      SimilaritySymmetric(ss[a], ss[b], log);
      assert HasPartner(ss, log, b);
    }
  }

  lemma LinkedEndpoint(cm: map<Pair, real>, ss: seq<Sentence>, log: nat -> real, x: string)
    requires forall a, b :: Recorded(cm, ss, log, a, b)
    requires Linked(ss, log, x)
    ensures x in Endpoints(cm.Keys)
  {
    var a :| 0 <= a < |ss| && ss[a].text == x && HasPartner(ss, log, a);
    var b :| 0 <= b < |ss| && Similarity(ss[a], ss[b], log) > 0.0;
    assert Recorded(cm, ss, log, a, b);
    var k := (ss[a].text, ss[b].text);
    assert k in cm.Keys;
  }

  /**
   * The graph's nodes are exactly the sentences with a positive similarity
   * to some sentence: the map holds both orders of every pair, since the
   * similarity is symmetric.
   */
  lemma LinkedEndpoints(cm: map<Pair, real>, ss: seq<Sentence>, log: nat -> real)
    requires IsSimilarityMap(cm, ss, log)
    ensures forall x :: x in Endpoints(cm.Keys) <==> Linked(ss, log, x)
  {
    forall x ensures x in Endpoints(cm.Keys) <==> Linked(ss, log, x) {
      if x in Endpoints(cm.Keys) {
        EndpointLinked(cm, ss, log, x);
      }
      if Linked(ss, log, x) {
        LinkedEndpoint(cm, ss, log, x);
      }
    }
  }

  /** Length a ranked text takes in the summary: its code points and a full stop. */
  function TextCost(t: string): nat
  {
    |t| + 1
  }

  function SentenceCost(s: Sentence): nat
  {
    TextCost(s.text)
  }

  /** The ranked texts that are not, on their own, longer than the limit. */
  function ShortEnough(ts: seq<string>, limit: int): (r: seq<string>)
    ensures forall x :: x in r ==> x in ts && |x| <= limit
    ensures Distinct(ts) ==> Distinct(r)
  {
    if ts == [] then []
    else
      var rest := ShortEnough(ts[1..], limit);
      assert forall x :: x in rest ==> x in ts[1..];
      if |ts[0]| > limit then rest else [ts[0]] + rest
  }

  /**
   * The selection loop of `TextRank` over the ranked texts `ts`, with
   * `total` spent so far: a text longer than the limit is skipped; the
   * first text that would take the total past the limit ends the loop.
   */
  function Budgeted(ts: seq<string>, limit: int, total: int): seq<string>
  {
    if ts == [] then []
    else if |ts[0]| > limit then Budgeted(ts[1..], limit, total)
    else if total + TextCost(ts[0]) > limit then []
    else [ts[0]] + Budgeted(ts[1..], limit, total + TextCost(ts[0]))
  }

  /**
   * The selection is the longest prefix of the short-enough texts whose
   * costs fit: it fits the limit, and the next short-enough text would not.
   */
  lemma {:induction false} BudgetFacts(ts: seq<string>, limit: int, total: int)
    ensures var r := Budgeted(ts, limit, total);
      && r <= ShortEnough(ts, limit)
      && (r == [] || total + SumOf(r, TextCost) <= limit)
      && (|r| < |ShortEnough(ts, limit)| ==>
            total + SumOf(r, TextCost) + TextCost(ShortEnough(ts, limit)[|r|]) > limit)
    decreases ts, 1
  {
    if ts != [] {
      if |ts[0]| > limit {
        BudgetFacts(ts[1..], limit, total);
      } else if total + TextCost(ts[0]) > limit {
        assert ShortEnough(ts, limit)[0] == ts[0];
      } else {
        BudgetTake(ts, limit, total);
      }
    }
  }

  /** The step of `BudgetFacts` where the first text is taken. */
  lemma {:induction false} BudgetTake(ts: seq<string>, limit: int, total: int)
    requires ts != [] && |ts[0]| <= limit && total + TextCost(ts[0]) <= limit
    ensures var r := Budgeted(ts, limit, total);
      && r <= ShortEnough(ts, limit)
      && (r == [] || total + SumOf(r, TextCost) <= limit)
      && (|r| < |ShortEnough(ts, limit)| ==>
            total + SumOf(r, TextCost) + TextCost(ShortEnough(ts, limit)[|r|]) > limit)
    decreases ts, 0
  {
    var t' := total + TextCost(ts[0]);
    BudgetFacts(ts[1..], limit, t');
    var r' := Budgeted(ts[1..], limit, t');
    var f' := ShortEnough(ts[1..], limit);
    var r := [ts[0]] + r';
    var f := [ts[0]] + f';
    assert Budgeted(ts, limit, total) == r;
    assert ShortEnough(ts, limit) == f;
    assert r[1..] == r';
    assert SumOf(r, TextCost) == TextCost(ts[0]) + SumOf(r', TextCost);
    if |r| < |f| {
      assert f[|r|] == f'[|r'|];
    }
  }

  /** The selection only holds ranked texts, each once when the ranking has no repeats. */
  lemma SelectionMembers(ts: seq<string>, limit: int)
    ensures forall x :: x in Budgeted(ts, limit, 0) ==> x in ts
    ensures Distinct(ts) ==> Distinct(Budgeted(ts, limit, 0))
  {
    BudgetFacts(ts, limit, 0);
    var r := Budgeted(ts, limit, 0);
    var f := ShortEnough(ts, limit);
    assert forall i :: 0 <= i < |r| ==> r[i] == f[i];
  }

  /** `sm[t.Text()]`: Go's map read gives zero for a missing key. */
  function PositionOf(sm: map<string, int>, t: string): int
  {
    if t in sm then sm[t] else 0
  }

  function PositionsOf(ts: seq<string>, sm: map<string, int>): (ps: seq<int>)
    ensures |ps| == |ts|
    ensures forall k :: 0 <= k < |ts| ==> ps[k] == PositionOf(sm, ts[k])
  {
    if ts == [] then [] else [PositionOf(sm, ts[0])] + PositionsOf(ts[1..], sm)
  }

  /**
   * How the selection loop's invariant `Budgeted(ts, limit, 0) == chosen +
   * Budgeted(ts[i..], limit, total)` carries over the text at index `i`:
   * skipped, ending the loop, or taken.
   */
  lemma SelectStep(ts: seq<string>, i: int, limit: int, total: int, chosen: seq<string>)
    requires 0 <= i < |ts|
    requires Budgeted(ts, limit, 0) == chosen + Budgeted(ts[i..], limit, total)
    ensures |ts[i]| > limit ==> Budgeted(ts, limit, 0) == chosen + Budgeted(ts[i + 1..], limit, total)
    ensures |ts[i]| <= limit && total + TextCost(ts[i]) > limit ==> Budgeted(ts, limit, 0) == chosen
    ensures |ts[i]| <= limit && total + TextCost(ts[i]) <= limit ==>
              Budgeted(ts, limit, 0) == (chosen + [ts[i]]) + Budgeted(ts[i + 1..], limit, total + TextCost(ts[i]))
  {
    assert ts[i..][0] == ts[i] && ts[i..][1..] == ts[i + 1..];
    if |ts[i]| <= limit && total + TextCost(ts[i]) > limit {
      assert chosen + [] == chosen;
    }
    if |ts[i]| <= limit && total + TextCost(ts[i]) <= limit {
      var rest := Budgeted(ts[i + 1..], limit, total + TextCost(ts[i]));
      assert chosen + ([ts[i]] + rest) == (chosen + [ts[i]]) + rest;
    }
  }

  lemma PositionsOfAppend(chosen: seq<string>, t: string, sm: map<string, int>)
    ensures PositionsOf(chosen + [t], sm) == PositionsOf(chosen, sm) + [PositionOf(sm, t)]
  {
    assert forall k :: 0 <= k < |chosen| ==> (chosen + [t])[k] == chosen[k];
  }

  /** The selection loop: the positions of the texts `Budgeted` keeps, in rank order. */
  method SelectPositions(tags: seq<Ranked>, sm: map<string, int>, limit: int) returns (poses: seq<int>)
    ensures poses == PositionsOf(Budgeted(Texts(tags), limit, 0), sm)
  {
    ghost var ts := Texts(tags);
    ghost var chosen: seq<string> := [];
    poses := [];
    var totalLength := 0;
    var i := 0;
    while i < |tags|
      invariant 0 <= i <= |tags|
      invariant Budgeted(ts, limit, 0) == chosen + Budgeted(ts[i..], limit, totalLength)
      invariant poses == PositionsOf(chosen, sm)
    {
      SelectStep(ts, i, limit, totalLength, chosen);
      var c := |tags[i].text|;
      if c > limit {
        i := i + 1;
        continue;
      }
      var pos := PositionOf(sm, tags[i].text);
      totalLength := totalLength + c + 1;
      if totalLength > limit {
        break;
      }
      PositionsOfAppend(chosen, ts[i], sm);
      poses := poses + [pos];
      chosen := chosen + [ts[i]];
      i := i + 1;
    }
    if i == |tags| {
      assert chosen + [] == chosen;
    }
  }

  predicate IntLess(a: int, b: int)
  {
    a < b
  }

  lemma IntLessIsStrictTotal()
    ensures StrictTotalOrder(IntLess)
  {
  }

  /**
   * The positions of the selected texts are valid, distinct, and lead back
   * to those texts.
   */
  lemma PositionsFacts(all: seq<Sentence>, sm: map<string, int>, chosen: seq<string>)
    requires forall x :: x in sm ==> 0 <= sm[x] < |all| && all[sm[x]].text == x
    requires forall x :: x in chosen ==> x in sm
    requires Distinct(chosen)
    ensures forall m :: 0 <= m < |chosen| ==>
              0 <= PositionsOf(chosen, sm)[m] < |all| && all[PositionsOf(chosen, sm)[m]].text == chosen[m]
    ensures Distinct(PositionsOf(chosen, sm))
  {
    var ps := PositionsOf(chosen, sm);
    forall i, j | 0 <= i < j < |ps|
      ensures ps[i] != ps[j]
    {
      assert chosen[i] in sm && chosen[j] in sm;
      assert all[ps[i]].text == chosen[i] && all[ps[j]].text == chosen[j];
    }
  }

  /** The gathered sentences have exactly the chosen texts. */
  lemma GatherTexts(all: seq<Sentence>, chosen: seq<string>, ps: seq<int>, sorted: seq<int>, res: seq<Sentence>)
    requires |ps| == |chosen|
    requires forall m :: 0 <= m < |ps| ==> 0 <= ps[m] < |all| && all[ps[m]].text == chosen[m]
    requires multiset(sorted) == multiset(ps)
    requires |res| == |sorted|
    requires forall k :: 0 <= k < |sorted| ==> 0 <= sorted[k] < |all| && res[k] == all[sorted[k]]
    ensures forall x :: x in SentenceTexts(res) <==> x in chosen
  {
    forall x | x in SentenceTexts(res)
      ensures x in chosen
    {
      var k :| 0 <= k < |res| && SentenceTexts(res)[k] == x;
      assert sorted[k] in multiset(ps);
      var m :| 0 <= m < |ps| && ps[m] == sorted[k];
    }
    forall x | x in chosen
      ensures x in SentenceTexts(res)
    {
      var m :| 0 <= m < |chosen| && chosen[m] == x;
      assert ps[m] in multiset(sorted);
      var k :| 0 <= k < |sorted| && sorted[k] == ps[m];
      assert SentenceTexts(res)[k] == x;
    }
  }

  /** The gathered sentences cost what the chosen texts cost. */
  lemma GatherCost(all: seq<Sentence>, chosen: seq<string>, ps: seq<int>, sorted: seq<int>, res: seq<Sentence>)
    requires |ps| == |chosen|
    requires forall m :: 0 <= m < |ps| ==> 0 <= ps[m] < |all| && all[ps[m]].text == chosen[m]
    requires multiset(sorted) == multiset(ps)
    requires |res| == |sorted|
    requires forall k :: 0 <= k < |sorted| ==> 0 <= sorted[k] < |all| && res[k] == all[sorted[k]]
    ensures SumOf(res, SentenceCost) == SumOf(chosen, TextCost)
  {
    var posCost: int -> nat := v => if 0 <= v < |all| then SentenceCost(all[v]) else 0;
    SumOfPointwise(res, SentenceCost, sorted, posCost);
    SumOfPermutation(sorted, ps, posCost);
    SumOfPointwise(ps, posCost, chosen, TextCost);
  }

  /**
   * The gathered sentences, in position order, are the chosen ones: same
   * texts, increasing positions, and the same total cost.
   */
  lemma GatherFacts(all: seq<Sentence>, chosen: seq<string>, ps: seq<int>, sorted: seq<int>, res: seq<Sentence>)
    requires |ps| == |chosen|
    requires forall m :: 0 <= m < |ps| ==> 0 <= ps[m] < |all| && all[ps[m]].text == chosen[m]
    requires Distinct(ps) && multiset(sorted) == multiset(ps) && Sorted(sorted, IntLess)
    requires forall k :: 0 <= k < |all| ==> all[k].pos == k
    requires |res| == |sorted|
    requires forall k :: 0 <= k < |sorted| ==> 0 <= sorted[k] < |all| && res[k] == all[sorted[k]]
    ensures forall x :: x in SentenceTexts(res) <==> x in chosen
    ensures forall i, j :: 0 <= i < j < |res| ==> res[i].pos < res[j].pos
    ensures SumOf(res, SentenceCost) == SumOf(chosen, TextCost)
  {
    PermutationKeepsDistinct(ps, sorted);
    IntLessIsStrictTotal();
    SortedDistinctIsStrict(sorted, IntLess);
    GatherTexts(all, chosen, ps, sorted, res);
    GatherCost(all, chosen, ps, sorted, res);
  }

  /**
   * What `ChooseSentences` knows before sorting: the selected texts fit the
   * limit, and their positions are valid, distinct, and lead back to them.
   */
  lemma ChosenFacts(all: seq<Sentence>, sm: map<string, int>, ts: seq<string>, limit: int)
    requires forall x :: x in sm ==> 0 <= sm[x] < |all| && all[sm[x]].text == x
    requires forall x :: x in ts ==> x in sm
    requires Distinct(ts)
    ensures var chosen := Budgeted(ts, limit, 0);
      && (chosen == [] || SumOf(chosen, TextCost) <= limit)
      && |PositionsOf(chosen, sm)| == |chosen|
      && (forall m :: 0 <= m < |chosen| ==>
            0 <= PositionsOf(chosen, sm)[m] < |all| && all[PositionsOf(chosen, sm)[m]].text == chosen[m])
      && Distinct(PositionsOf(chosen, sm))
  {
    BudgetFacts(ts, limit, 0);
    SelectionMembers(ts, limit);
    PositionsFacts(all, sm, Budgeted(ts, limit, 0));
  }

  lemma PermutationInRange(ps: seq<int>, qs: seq<int>, n: int)
    requires forall m :: 0 <= m < |ps| ==> 0 <= ps[m] < n
    requires multiset(qs) == multiset(ps)
    ensures forall k :: 0 <= k < |qs| ==> 0 <= qs[k] < n
  {
    forall k | 0 <= k < |qs|
      ensures 0 <= qs[k] < n
    {
      assert qs[k] in multiset(ps);
    }
  }

  /**
   * The tail of `TextRank`: take the ranked texts that fit the limit, sort
   * their positions, and gather those sentences. The result holds exactly
   * the texts `Budgeted` takes, in document order, within the limit.
   */
  method ChooseSentences(sentences: seq<Sentence>, sm: map<string, int>, tags: seq<Ranked>, limit: int)
    returns (res: seq<Sentence>)
    requires forall k :: 0 <= k < |sentences| ==> sentences[k].pos == k
    requires forall x :: x in sm ==> 0 <= sm[x] < |sentences| && sentences[sm[x]].text == x
    requires forall x :: x in Texts(tags) ==> x in sm
    requires Distinct(Texts(tags))
    ensures forall x :: x in SentenceTexts(res) <==> x in Budgeted(Texts(tags), limit, 0)
    ensures forall k :: 0 <= k < |res| ==> 0 <= res[k].pos < |sentences| && res[k] == sentences[res[k].pos]
    ensures forall i, j :: 0 <= i < j < |res| ==> res[i].pos < res[j].pos
    ensures res == [] || SumOf(res, SentenceCost) <= limit
  {
    var poses := SelectPositions(tags, sm, limit);
    ghost var chosen := Budgeted(Texts(tags), limit, 0);
    ghost var picked := poses;
    ChosenFacts(sentences, sm, Texts(tags), limit);

    IntLessIsStrictTotal();
    poses := Sort(poses, IntLess);
    PermutationInRange(picked, poses, |sentences|);

    res := [];
    for v := 0 to |poses|
      invariant |res| == v
      invariant forall k :: 0 <= k < v ==> res[k] == sentences[poses[k]]
    {
      var s := sentences[poses[v]];
      res := res + [s];
    }
    GatherFacts(sentences, chosen, picked, poses, res);
  }

  /**
   * `TextRank`: the sentences of `text` chosen for the summary, in document
   * order. `ranked` is the graph's ranking: its nodes are exactly the
   * sentences with a positive similarity to some sentence, ordered by
   * decreasing score. The result holds exactly the texts that `Budgeted`
   * takes from that ranking, so their total length, with one full stop
   * each, is within the limit.
   */
  method TextRank(text: string, limit: int, cut: string -> seq<Token>, posFilter: StrSet,
                  log: nat -> real, score: string -> real)
    returns (res: seq<Sentence>, ghost ranked: seq<Ranked>)
    ensures StrictlySorted(ranked, RankedBefore)
    ensures forall i :: 0 <= i < |ranked| ==> ranked[i].weight == score(ranked[i].text)
    ensures forall x :: x in Texts(ranked) <==> Linked(SentencesOf(text, cut, posFilter.members), log, x)
    ensures forall x :: x in SentenceTexts(res) <==> x in Budgeted(Texts(ranked), limit, 0)
    ensures forall k :: 0 <= k < |res| ==>
              var all := SentencesOf(text, cut, posFilter.members);
              0 <= res[k].pos < |all| && res[k] == all[res[k].pos]
    ensures forall i, j :: 0 <= i < j < |res| ==> res[i].pos < res[j].pos
    ensures res == [] || SumOf(res, SentenceCost) <= limit
  {
    var sentences, sm := SplitSentences(text, cut, posFilter);
    SentencesOfFacts(text, cut, posFilter.members);
    var cm := PairSimilarities(sentences, log);
    LinkedEndpoints(cm, sentences, log);
    var tags := RankPairs(cm, score);
    ranked := tags;
    forall x | x in Texts(tags)
      ensures x in sm
    {
      var a :| 0 <= a < |sentences| && sentences[a].text == x && HasPartner(sentences, log, a);
      assert SentenceTexts(sentences)[a] == x;
    }
    res := ChooseSentences(sentences, sm, tags, limit);
  }


  function Length(t: string): nat
  {
    |t|
  }

  /**
   * `strings.Join` with an empty separator: the pieces one after another,
   * so the first piece starts the result and the lengths add up.
   */
  function Concat(ts: seq<string>): (r: string)
    ensures |r| == SumOf(ts, Length)
    ensures ts != [] ==> ts[0] <= r && r[|ts[0]|..] == Concat(ts[1..])
  {
    if ts == [] then [] else ts[0] + Concat(ts[1..])
  }

  /**
   * The summary text splits back into the sentences it was made of, and
   * its length is their total cost.
   */
  lemma {:induction false} JoinRoundTrip(ss: seq<Sentence>)
    requires forall k :: 0 <= k < |ss| ==> ss[k].text != [] && StopFree(ss[k].text)
    ensures Fields(Concat(Formatted(ss))) == SentenceTexts(ss)
    ensures |Concat(Formatted(ss))| == SumOf(ss, SentenceCost)
  {
    if ss != [] {
      JoinRoundTrip(ss[1..]);
      var head := ss[0].text;
      var ts := Formatted(ss);
      assert ts[1..] == Formatted(ss[1..]);
      assert Concat(ts) == head + ['。'] + Concat(ts[1..]);
      JoinStep(head, Concat(ts[1..]));
      assert SentenceTexts(ss) == [head] + SentenceTexts(ss[1..]);
    }
  }

  /** Sentences taken from the text are non-empty and hold no stop character. */
  lemma PickedAreProper(text: string, cut: string -> seq<Token>, filter: set<string>, ss: seq<Sentence>)
    requires forall k :: 0 <= k < |ss| ==>
               var all := SentencesOf(text, cut, filter);
               0 <= ss[k].pos < |all| && ss[k] == all[ss[k].pos]
    ensures forall k :: 0 <= k < |ss| ==> ss[k].text != [] && StopFree(ss[k].text)
  {
    SentencesOfFacts(text, cut, filter);
  }

  /** A non-empty, stop-free sentence and its full stop add one field in front. */
  lemma JoinStep(head: string, rest: string)
    requires head != [] && StopFree(head)
    ensures Fields(head + ['。'] + rest) == [head] + Fields(rest)
  {
    FieldsFromSplit(head, '。', rest, []);
    FieldsFromStopFree(head, []);
    assert [] + head == head;
  }

  /** Each sentence's text followed by a full stop, as the summary writes it. */
  function Formatted(ss: seq<Sentence>): (ts: seq<string>)
    ensures |ts| == |ss|
    ensures forall k :: 0 <= k < |ss| ==> ts[k] == ss[k].text + "。"
  {
    seq(|ss|, k requires 0 <= k < |ss| => ss[k].text + "。")
  }

  /**
   * `Summary`: the sentences `TextRank` picks, each followed by a full stop,
   * joined without separator. `picked` is exactly the budgeted selection from
   * the ranking `ranked` of the linked sentences, in document order; the text
   * is within the limit (or empty) and splits back into those sentences.
   */
  method Summary(text: string, limit: int, cut: string -> seq<Token>, posFilter: StrSet,
                 log: nat -> real, score: string -> real)
    returns (summary: string, ghost picked: seq<Sentence>, ghost ranked: seq<Ranked>)
    ensures StrictlySorted(ranked, RankedBefore)
    ensures forall i :: 0 <= i < |ranked| ==> ranked[i].weight == score(ranked[i].text)
    ensures forall x :: x in Texts(ranked) <==> Linked(SentencesOf(text, cut, posFilter.members), log, x)
    ensures forall x :: x in SentenceTexts(picked) <==> x in Budgeted(Texts(ranked), limit, 0)
    ensures forall k :: 0 <= k < |picked| ==>
              var all := SentencesOf(text, cut, posFilter.members);
              0 <= picked[k].pos < |all| && picked[k] == all[picked[k].pos]
    ensures forall i, j :: 0 <= i < j < |picked| ==> picked[i].pos < picked[j].pos
    ensures summary == Concat(Formatted(picked))
    ensures |summary| == SumOf(picked, SentenceCost)
    ensures |summary| <= limit || summary == []
    ensures Fields(summary) == SentenceTexts(picked)
  {
    var ss;
    ss, ranked := TextRank(text, limit, cut, posFilter, log, score);
    var ts := new string[|ss|];
    for i := 0 to |ss|
      invariant forall k :: 0 <= k < i ==> ts[k] == ss[k].text + "。"
    {
      ts[i] := ss[i].text + "。";
    }
    assert ts[..] == Formatted(ss);
    summary := Concat(ts[..]);
    picked := ss;
    PickedAreProper(text, cut, posFilter.members, ss);
    JoinRoundTrip(ss);
  }
}
