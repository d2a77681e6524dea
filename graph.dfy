/**
 * `undirectWeightedGraph`: a map from node label to its adjacency list plus
 * the labels in the order they were first seen. Both pipelines carry an
 * identical copy of this type; it is modelled once, generic in the weight.
 */
module Graph {
  import opened Text
  import opened Collections
  import opened Sorting
  import opened Ranking

  /** A directed adjacency entry; `start` is the label whose list holds it. */
  datatype Edge<W> = Edge(start: string, end: string, weight: W)

  /** The value of a graph's two fields at one moment. */
  datatype Snapshot<W> = Snapshot(adjacency: map<string, seq<Edge<W>>>, keys: seq<string>)

  /** The adjacency list of `n`, empty for a label the graph has not seen. */
  function ListOf<W>(adj: map<string, seq<Edge<W>>>, n: string): seq<Edge<W>>
  {
    if n in adj then adj[n] else []
  }

  /** `keys` holds each label of the map exactly once. */
  ghost predicate KeysMatch<W>(g: Snapshot<W>)
  {
    && Distinct(g.keys)
    && (forall k :: k in g.keys <==> k in g.adjacency)
  }

  /**
   * The graph invariant: `keys` matches the map's domain, every entry sits
   * in the list of its own `start`, and every entry has its reverse entry.
   */
  ghost predicate WellFormed<W>(g: Snapshot<W>)
  {
    && KeysMatch(g)
    && (forall n, e :: n in g.adjacency && e in g.adjacency[n] ==>
          && e.start == n
          && e.end in g.adjacency
          && Edge(e.end, n, e.weight) in g.adjacency[e.end])
  }

  /**
   * One half of `addEdge`: append `e` to the list of `n`, registering `n`
   * in `keys` if it is new.
   */
  function Append<W>(g: Snapshot<W>, n: string, e: Edge<W>): (r: Snapshot<W>)
    ensures n in r.adjacency && r.adjacency[n] == ListOf(g.adjacency, n) + [e]
    ensures forall m :: m != n ==> ListOf(r.adjacency, m) == ListOf(g.adjacency, m)
    ensures r.keys == if n in g.adjacency then g.keys else g.keys + [n]
  {
    Snapshot(g.adjacency[n := ListOf(g.adjacency, n) + [e]],
             if n in g.adjacency then g.keys else g.keys + [n])
  }

  /** `addEdge(a, b, w)`: the forward entry under `a`, then the reverse entry under `b`. */
  function AddEdgeTo<W>(g: Snapshot<W>, a: string, b: string, w: W): (r: Snapshot<W>)
    ensures a != b ==> ListOf(r.adjacency, a) == ListOf(g.adjacency, a) + [Edge(a, b, w)]
    ensures a != b ==> ListOf(r.adjacency, b) == ListOf(g.adjacency, b) + [Edge(b, a, w)]
    ensures a == b ==> ListOf(r.adjacency, a) == ListOf(g.adjacency, a) + [Edge(a, a, w), Edge(a, a, w)]
    ensures forall m :: m != a && m != b ==> ListOf(r.adjacency, m) == ListOf(g.adjacency, m)
    ensures forall m :: ListOf(g.adjacency, m) <= ListOf(r.adjacency, m)
    ensures r.adjacency.Keys == g.adjacency.Keys + {a, b}
    ensures r.keys == g.keys
                      + (if a in g.adjacency then [] else [a])
                      + (if b in g.adjacency || b == a then [] else [b])
  {
    Append(Append(g, a, Edge(a, b, w)), b, Edge(b, a, w))
  }

  lemma AppendKeepsKeysMatch<W>(g: Snapshot<W>, n: string, e: Edge<W>)
    requires KeysMatch(g)
    ensures KeysMatch(Append(g, n, e))
  {
    var r := Append(g, n, e);
    if n !in g.adjacency {
      assert n !in g.keys;
      forall i, j | 0 <= i < j < |r.keys| ensures r.keys[i] != r.keys[j] {
        if j == |g.keys| {
          assert r.keys[i] == g.keys[i];
        }
      }
    }
  }

  /** After `addEdge`, an entry of the list of `n` is well formed. */
  lemma AddEdgeEntry<W>(g: Snapshot<W>, a: string, b: string, w: W, n: string, e: Edge<W>)
    requires WellFormed(g)
    requires n in AddEdgeTo(g, a, b, w).adjacency && e in AddEdgeTo(g, a, b, w).adjacency[n]
    ensures e.start == n && e.end in AddEdgeTo(g, a, b, w).adjacency
    ensures Edge(e.end, n, e.weight) in AddEdgeTo(g, a, b, w).adjacency[e.end]
  {
    var r := AddEdgeTo(g, a, b, w);
    if e in ListOf(g.adjacency, n) {
      assert n in g.adjacency;
      assert Edge(e.end, n, e.weight) in ListOf(g.adjacency, e.end);
      assert ListOf(g.adjacency, e.end) <= ListOf(r.adjacency, e.end);
    } else {
      assert e == Edge(a, b, w) || e == Edge(b, a, w);
      assert Edge(a, b, w) in ListOf(r.adjacency, a);
      assert Edge(b, a, w) in ListOf(r.adjacency, b);
    }
  }

  /** `addEdge` preserves the graph invariant. */
  lemma AddEdgeKeepsWellFormed<W>(g: Snapshot<W>, a: string, b: string, w: W)
    requires WellFormed(g)
    ensures WellFormed(AddEdgeTo(g, a, b, w))
  {
    var g1 := Append(g, a, Edge(a, b, w));
    AppendKeepsKeysMatch(g, a, Edge(a, b, w));
    AppendKeepsKeysMatch(g1, b, Edge(b, a, w));
    var r := AddEdgeTo(g, a, b, w);
    forall n, e | n in r.adjacency && e in r.adjacency[n]
      ensures e.start == n && e.end in r.adjacency
      ensures Edge(e.end, n, e.weight) in r.adjacency[e.end]
    {
      AddEdgeEntry(g, a, b, w, n, e);
    }
  }

  /** The number of adjacency entries over the labels `ks`. */
  function EdgeTotal<W>(adj: map<string, seq<Edge<W>>>, ks: seq<string>): nat
  {
    if ks == [] then 0 else EdgeTotal(adj, ks[..|ks| - 1]) + |ListOf(adj, ks[|ks| - 1])|
  }

  /** Replacing one label's list changes the total by the difference in length. */
  lemma {:induction false} EdgeTotalUpdate<W>(adj: map<string, seq<Edge<W>>>, ks: seq<string>,
                                             n: string, l: seq<Edge<W>>)
    requires Distinct(ks)
    ensures EdgeTotal(adj[n := l], ks) + (if n in ks then |ListOf(adj, n)| else 0)
         == EdgeTotal(adj, ks) + (if n in ks then |l| else 0)
  {
    if ks != [] {
      var front := ks[..|ks| - 1];
      assert Distinct(front);
      assert ks == front + [ks[|ks| - 1]];
      EdgeTotalUpdate(adj, front, n, l);
      if n == ks[|ks| - 1] {
        assert n !in front;
      }
    }
  }

  lemma AppendAddsOne<W>(g: Snapshot<W>, n: string, e: Edge<W>)
    requires KeysMatch(g)
    ensures EdgeTotal(Append(g, n, e).adjacency, Append(g, n, e).keys)
         == EdgeTotal(g.adjacency, g.keys) + 1
  {
    var r := Append(g, n, e);
    EdgeTotalUpdate(g.adjacency, g.keys, n, ListOf(g.adjacency, n) + [e]);
    if n !in g.adjacency {
      assert r.keys[..|r.keys| - 1] == g.keys;
    }
  }

  /** Each `addEdge` adds exactly two adjacency entries, also when `a == b`. */
  lemma AddEdgeAddsTwo<W>(g: Snapshot<W>, a: string, b: string, w: W)
    requires KeysMatch(g)
    ensures EdgeTotal(AddEdgeTo(g, a, b, w).adjacency, AddEdgeTo(g, a, b, w).keys)
         == EdgeTotal(g.adjacency, g.keys) + 2
  {
    var g1 := Append(g, a, Edge(a, b, w));
    AppendAddsOne(g, a, Edge(a, b, w));
    AppendKeepsKeysMatch(g, a, Edge(a, b, w));
    AppendAddsOne(g1, b, Edge(b, a, w));
  }

  class Graph<W(==)> {
    var adjacency: map<string, seq<Edge<W>>>
    var keys: seq<string>

    ghost function Snap(): Snapshot<W>
      reads this
    {
      Snapshot(adjacency, keys)
    }

    ghost predicate Valid()
      reads this
    {
      WellFormed(Snap())
    }

    /** `newUndirectWeightedGraph`. */
    constructor ()
      ensures Valid()
      ensures adjacency == map[] && keys == []
    {
      adjacency := map[];
      keys := [];
    }

    /** `addEdge`: records `start -> end` under `start` and `end -> start` under `end`. */
    method AddEdge(start: string, end: string, weight: W)
      requires Valid()
      modifies this
      ensures Valid()
      ensures Snap() == AddEdgeTo(old(Snap()), start, end, weight)
    {
      AddEdgeKeepsWellFormed(Snap(), start, end, weight);
      var e := Edge(start, end, weight);
      var r := Edge(end, start, weight);
      ghost var half := Append(Snap(), start, e);
      if start !in adjacency {
        assert ListOf(adjacency, start) + [e] == [e];
        keys := keys + [start];
        adjacency := adjacency[start := [e]];
      } else {
        adjacency := adjacency[start := adjacency[start] + [e]];
      }
      assert Snap() == half;
      if end !in adjacency {
        assert ListOf(adjacency, end) + [r] == [r];
        keys := keys + [end];
        adjacency := adjacency[end := [r]];
      } else {
        adjacency := adjacency[end := adjacency[end] + [r]];
      }
    }

    /** The first step of `rank`: sort `keys` unless they are sorted already. */
    method SortKeys()
      requires Valid()
      modifies this
      ensures Valid() && adjacency == old(adjacency)
      ensures multiset(keys) == multiset(old(keys))
      ensures StrictlySorted(keys, StrLess)
    {
      StrLessIsStrictTotal();
      ghost var before := keys;
      if !Sorted(keys, StrLess) {
        keys := Sort(keys, StrLess);
      }
      PermutationKeepsDistinct(before, keys);
      SortedDistinctIsStrict(keys, StrLess);
      assert forall k :: k in keys <==> k in multiset(before);
    }

    /**
     * The structural part of `rank`: `keys` ends up sorted, and the result
     * holds exactly one entry per label, scored by `score` and ordered by
     * the reversed comparator. The power iteration that produces the scores
     * is abstracted into `score`.
     */
    method Rank(score: string -> real) returns (result: seq<Ranked>)
      requires Valid()
      modifies this
      ensures Valid() && adjacency == old(adjacency)
      ensures multiset(keys) == multiset(old(keys))
      ensures StrictlySorted(keys, StrLess)
      ensures |result| == |adjacency|
      ensures forall n :: n in adjacency <==> n in Texts(result)
      ensures Distinct(Texts(result))
      ensures forall i :: 0 <= i < |result| ==> result[i].weight == score(result[i].text)
      ensures StrictlySorted(result, RankedBefore)
    {
      SortKeys();
      var entries: seq<Ranked> := [];
      for i := 0 to |keys|
        invariant entries == Scored(keys[..i], score)
      {
        assert keys[..i + 1] == keys[..i] + [keys[i]];
        entries := entries + [Ranked(keys[i], score(keys[i]))];
      }
      assert keys[..|keys|] == keys;
      RankedBeforeIsStrictTotal();
      result := Sort(entries, RankedBefore);
      SortedScoredFacts(keys, score, result);
      DistinctCovers(Texts(result), adjacency.Keys);
    }
  }

  /** One entry per label, in the order of the labels. */
  function Scored(ks: seq<string>, score: string -> real): (rs: seq<Ranked>)
    ensures |rs| == |ks|
    ensures forall i :: 0 <= i < |ks| ==> rs[i] == Ranked(ks[i], score(ks[i]))
  {
    if ks == [] then [] else Scored(ks[..|ks| - 1], score) + [Ranked(ks[|ks| - 1], score(ks[|ks| - 1]))]
  }

  /** A permutation of the scored labels holds the same labels, each with its score. */
  lemma ScoredMembers(ks: seq<string>, score: string -> real, rs: seq<Ranked>)
    requires multiset(rs) == multiset(Scored(ks, score))
    ensures forall i :: 0 <= i < |rs| ==> rs[i].weight == score(rs[i].text)
    ensures forall n :: n in ks <==> n in Texts(rs)
  {
    var entries := Scored(ks, score);
    forall i | 0 <= i < |rs| ensures rs[i] in entries {
      assert rs[i] in multiset(entries);
    }
    forall n ensures n in ks <==> n in Texts(rs) {
      if n in ks {
        var k :| 0 <= k < |ks| && ks[k] == n;
        assert entries[k] in multiset(rs);
      }
    }
  }

  /** What a sort of the scored labels gives back. */
  lemma SortedScoredFacts(ks: seq<string>, score: string -> real, rs: seq<Ranked>)
    requires Distinct(ks)
    requires multiset(rs) == multiset(Scored(ks, score))
    requires Sorted(rs, RankedBefore)
    ensures forall n :: n in ks <==> n in Texts(rs)
    ensures Distinct(Texts(rs))
    ensures forall i :: 0 <= i < |rs| ==> rs[i].weight == score(rs[i].text)
    ensures StrictlySorted(rs, RankedBefore)
  {
    var entries := Scored(ks, score);
    assert Distinct(entries) by {
      forall i, j | 0 <= i < j < |entries| ensures entries[i] != entries[j] {
        assert entries[i].text == ks[i] && entries[j].text == ks[j];
      }
    }
    PermutationKeepsDistinct(entries, rs);
    RankedBeforeIsStrictTotal();
    SortedDistinctIsStrict(rs, RankedBefore);
    ScoredMembers(ks, score, rs);
    forall i, j | 0 <= i < j < |rs| ensures rs[i].text != rs[j].text {
      assert rs[i].weight == score(rs[i].text) && rs[j].weight == score(rs[j].text);
    }
  }

  /** Every label that occurs in one of the pairs `ks`. */
  function Endpoints(ks: set<(string, string)>): set<string>
  {
    (set k | k in ks :: k.0) + (set k | k in ks :: k.1)
  }

  lemma EndpointsAdd(done: set<(string, string)>, k: (string, string))
    ensures Endpoints(done + {k}) == Endpoints(done) + {k.0, k.1}
  {
    assert (set k' | k' in done + {k} :: k'.0) == (set k' | k' in done :: k'.0) + {k.0};
    assert (set k' | k' in done + {k} :: k'.1) == (set k' | k' in done :: k'.1) + {k.1};
  }

  /** The graph holds exactly the pairs of `done`, one `addEdge` each. */
  ghost predicate HoldsPairs<W>(cm: map<(string, string), W>, done: set<(string, string)>, g: Snapshot<W>)
  {
    && done <= cm.Keys
    && g.adjacency.Keys == Endpoints(done)
    && (forall k :: k in done ==> k.0 in g.adjacency && Edge(k.0, k.1, cm[k]) in g.adjacency[k.0])
    && EdgeTotal(g.adjacency, g.keys) == 2 * |done|
  }

  /** Taking `k` out of the pairs still to add puts it among the pairs done. */
  lemma DoneGrows(keys: set<(string, string)>, rest: set<(string, string)>, k: (string, string))
    requires k in rest && rest <= keys
    ensures keys - (rest - {k}) == (keys - rest) + {k}
    ensures |(keys - rest) + {k}| == |keys - rest| + 1
  {
    assert k !in keys - rest;
  }

  lemma AddPairStep<W>(cm: map<(string, string), W>, rest: set<(string, string)>,
                       k: (string, string), g: Snapshot<W>)
    requires KeysMatch(g) && HoldsPairs(cm, cm.Keys - rest, g)
    requires k in rest && rest <= cm.Keys
    ensures HoldsPairs(cm, cm.Keys - (rest - {k}), AddEdgeTo(g, k.0, k.1, cm[k]))
  {
    var done := cm.Keys - rest;
    DoneGrows(cm.Keys, rest, k);
    var r := AddEdgeTo(g, k.0, k.1, cm[k]);
    AddEdgeAddsTwo(g, k.0, k.1, cm[k]);
    EndpointsAdd(done, k);
    forall k' | k' in done + {k}
      ensures k'.0 in r.adjacency && Edge(k'.0, k'.1, cm[k']) in r.adjacency[k'.0]
    {
      PairKept(cm, done, k, k', g);
    }
  }

  /** After adding pair `k`, the forward entry of every pair done so far is present. */
  lemma PairKept<W>(cm: map<(string, string), W>, done: set<(string, string)>,
                    k: (string, string), k': (string, string), g: Snapshot<W>)
    requires done <= cm.Keys && k in cm && k' in done + {k}
    requires forall k'' :: k'' in done ==> k''.0 in g.adjacency && Edge(k''.0, k''.1, cm[k'']) in g.adjacency[k''.0]
    ensures var r := AddEdgeTo(g, k.0, k.1, cm[k]);
      k'.0 in r.adjacency && Edge(k'.0, k'.1, cm[k']) in r.adjacency[k'.0]
  {
    var r := AddEdgeTo(g, k.0, k.1, cm[k]);
    if k' != k {
      assert ListOf(g.adjacency, k'.0) <= ListOf(r.adjacency, k'.0);
    } else {
      assert Edge(k.0, k.1, cm[k]) in ListOf(r.adjacency, k.0);
    }
  }

  /**
   * The loop both pipelines run over their pair accumulator: one `addEdge`
   * per accumulated pair, in the map's (unspecified) iteration order. The
   * nodes are the pairs' endpoints, every pair's forward entry is present,
   * and the graph holds exactly two entries per pair.
   */
  method BuildGraph<W(==)>(cm: map<(string, string), W>) returns (g: Graph<W>)
    ensures fresh(g) && g.Valid()
    ensures HoldsPairs(cm, cm.Keys, g.Snap())
  {
    g := new Graph();
    var rest := cm.Keys;
    while rest != {}
      invariant rest <= cm.Keys
      invariant fresh(g) && g.Valid()
      invariant HoldsPairs(cm, cm.Keys - rest, g.Snap())
      decreases |rest|
    {
      var k :| k in rest;
      AddPairStep(cm, rest, k, g.Snap());
      g.AddEdge(k.0, k.1, cm[k]);
      rest := rest - {k};
    }
    assert cm.Keys - rest == cm.Keys;
  }

  /**
   * Both pipelines' tail: one `addEdge` per accumulated pair, then `rank`.
   * The result has one entry per endpoint of the accumulated pairs.
   */
  method RankPairs<W(==)>(cm: map<(string, string), W>, score: string -> real) returns (ranked: seq<Ranked>)
    ensures forall n :: n in Texts(ranked) <==> n in Endpoints(cm.Keys)
    ensures |ranked| == |Endpoints(cm.Keys)|
    ensures Distinct(Texts(ranked))
    ensures forall i :: 0 <= i < |ranked| ==> ranked[i].weight == score(ranked[i].text)
    ensures StrictlySorted(ranked, RankedBefore)
  {
    var g := BuildGraph(cm);
    ranked := g.Rank(score);
  }
}
