# jiebago TextRank, modelled in Dafny

This project models the two TextRank pipelines of jiebago, a Go port of the
jieba Chinese segmenter. It leaves out the floating-point power iteration.

- **Keyword extraction** (`analyse/textrank.go`): `TextRankWithPOS`,
  `TextRank`, `TopTextRank` and `SimHashRank`.
  - They take the part-of-speech segmenter's (text, tag) tokens.
  - They count ordered pairs of tokens each token with each of the next four tokens (`i < j < i + 5`), optionally filtered by tag and by the first token's length.
  - Each counted pair becomes an undirected edge.
  - The nodes are ranked and the top K are kept.
- **Extractive summary** (`summary/textrank.go`, `summary/sentence.go`,
  `summary/set.go`): `TextRank` and `Summary`.
  - The text is cut into sentences at the stop characters 。！？ and the line breaks, and repeated sentences are dropped.
  - Each sentence gets the set of its words. Words whose tag is in the package's filter set are left out.
  - Every ordered pair of sentences with a positive similarity becomes an edge.
  - The ranked sentences are taken while their length (plus one full stop each) fits the limit, then reported in document order.

The shared parts are these:

- The undirected weighted graph (`addEdge`, and the structural part of `rank`). The two packages carry identical copies, so it is modelled once, generic in the weight type.
- The comparator the ranking is sorted by.

Modules:

- `Text`: tokens and Go's string order.
- `Collections`: distinctness, sums and cardinality facts.
- `Sorting`: the contract of `sort.Sort`.
- `Ranking`: ranked results and the reversed comparator.
- `StrSets`: the `set` type, as a class whose `members` field `add` updates in place.
- `Sentences`: sentences, similarity, `Less` and `Swap`.
- `Graph`: the graph as a class with an adjacency map and a `keys` sequence, plus the loop that builds it from a pair accumulator and ranks it.
- `Keywords`: the keyword pipeline.
- `SentenceSplit`: the sentence splitting and word sets.
- `Summary`: the similarity loop, the budgeted selection and `Summary`.

What comes from outside the core is passed in as a parameter:

- **The segmenter.** `cut: string -> seq<Token>`, or the token sequence itself in the keyword pipeline.
- **The scores of the power iteration.** `score: string -> real`.
- **`math.Log`.** `log: nat -> real`. The facts the model relies on are stated by `Sentences.LogLaws`: log 1 is 0 and the log of a larger count is positive.

Strings are sequences of code points. So `utf8.RuneCountInString` is the length, and Go's byte-wise `<` on UTF-8 is lexicographic order on code points.

The comparator behind the keyword results (`Segments`) is defined in a file that is not part of this model. It is assumed to be the same weight-then-text order as `Sentences.Less` (`summary/sentence.go:46-52`), as in the summary package.

The summary word filter is modelled as written. `isFiltered` reports whether a tag is in the set built from `defaultAllowPOS`. A word joins a sentence's word set when its tag is *not* in that set, so nouns and verbs are the words that are dropped.

## Model

| member | source | states |
|---|---|---|
| Text.StrLessIrreflexive | summary/sentence.go:47-48 | Go's string `<` never holds between a string and itself |
| Text.StrLessTransitive | summary/sentence.go:47-48 | string `<` is transitive |
| Text.StrLessConnected | summary/sentence.go:47-48 | of two different strings, one is smaller |
| Text.StrLessAsymmetric | summary/sentence.go:47-48 | string `<` never holds in both directions |
| Sorting.Sort | summary/textrank.go:194 | the contract of `sort.Sort`: the result is sorted by the given strict total order and is a permutation of the input |
| StrSets.StrSet.constructor | summary/set.go:5-7 | `newSet` gives an empty set |
| StrSets.StrSet.Has | summary/set.go:9-12 | `has`: membership; a set with a member has positive `len` |
| StrSets.StrSet.Add | summary/set.go:14-18 | afterwards `has(text)` holds, every other string keeps its membership, and adding a present member changes nothing |
| StrSets.StrSet.Elems | summary/set.go:20-26 | every member exactly once, no other string, and as many entries as `len()` |
| StrSets.StrSet.Intersect | summary/set.go:28-37 | a fresh set holding exactly the strings in both operands, no larger than either; the operands are not modified |
| StrSets.StrSet.Len | summary/set.go:39-41 | `len` is zero exactly for the empty set |
| StrSets.IntersectCommutes | summary/set.go:28-41 | `s.intersect(o)` and `o.intersect(s)` have the same members, and the size is at most each operand's `len` |
| Ranking.StrLessIsStrictTotal | analyse/textrank.go:82-84 | the order `keys` are sorted by is a strict total order |
| Ranking.ScoreLessStrict | summary/sentence.go:46-52 | the weight-then-text comparator is irreflexive and asymmetric |
| Ranking.ScoreLessConnected | summary/sentence.go:46-52 | two results differing in weight or text are ordered one way or the other |
| Ranking.ScoreLessTransitive | summary/sentence.go:46-52 | the comparator is transitive |
| Ranking.RankedBeforeIsStrictTotal | summary/textrank.go:111 | the reversed comparator used by `sort.Sort(sort.Reverse(result))` is a strict total order |
| Sentences.Similarity | summary/sentence.go:25-37 | a positive similarity needs a shared word, and a sentence without words has similarity 0 |
| Sentences.SharedWordsBound | summary/sentence.go:26-27 | the numerator, the number of shared words, is at most either word count |
| Sentences.SimilaritySymmetric | summary/sentence.go:25-36 | `s.Similarity(t) == t.Similarity(s)` |
| Sentences.SimilaritySentinel | summary/sentence.go:28-34 | -1 comes back exactly when both sentences have one word; any other result is non-negative (zero when a word set is empty) |
| Sentences.SelfSimilarityPositive | summary/sentence.go:25-36 | a sentence with two or more words has a positive similarity to itself |
| Sentences.Less | summary/sentence.go:46-52 | `Less` is the ranking comparator on the two sentences' (text, weight), and never holds between equal weights and texts |
| Sentences.LessIrreflexive | summary/sentence.go:46-52 | `Less(i, i)` is false |
| Sentences.LessAsymmetric | summary/sentence.go:46-52 | `Less` never holds in both directions |
| Sentences.LessConnected | summary/sentence.go:46-52 | sentences with different texts are ordered by `Less` one way or the other |
| Sentences.Swap | summary/sentence.go:54-56 | positions i and j are exchanged and every other position keeps its sentence |
| Graph.Append | analyse/textrank.go:66-71 | one half of `addEdge`: the entry is appended to the label's list, the label is registered in `keys` only if new, and other lists are unchanged |
| Graph.AddEdgeTo | analyse/textrank.go:65-79 | `a`'s list ends with (a, b, w) and `b`'s with (b, a, w); both land in `a`'s list when `a == b`; other lists are unchanged; new labels are appended to `keys` in order |
| Graph.AppendKeepsKeysMatch | analyse/textrank.go:66-67 | `keys` keeps holding each label of the map exactly once |
| Graph.AddEdgeEntry | analyse/textrank.go:68-77 | after `addEdge`, every entry under `n` starts at `n` and has its reverse entry |
| Graph.AddEdgeKeepsWellFormed | analyse/textrank.go:65-79 | `addEdge` preserves the invariant: `keys` matches the domain without repeats, entries sit under their own start, and every entry has its reverse |
| Graph.AppendAddsOne | analyse/textrank.go:66-71 | appending one entry adds exactly one adjacency entry in total |
| Graph.AddEdgeAddsTwo | analyse/textrank.go:65-79 | each `addEdge` adds exactly two adjacency entries, also when `a == b` |
| Graph.Graph.constructor | analyse/textrank.go:58-63 | `newUndirectWeightedGraph` is empty and satisfies the graph invariant |
| Graph.Graph.AddEdge | analyse/textrank.go:65-79 | the new state is `AddEdgeTo` of the old one, and the invariant is kept (the summary package's copy, `summary/textrank.go:48-65`, is identical) |
| Graph.Graph.SortKeys | analyse/textrank.go:82-84 | `keys` ends up strictly ascending, a permutation of the old keys; the map is unchanged |
| Graph.Graph.Rank | analyse/textrank.go:81-127 | `keys` sorted; exactly one result per graph label, each scored by `score`, in strictly decreasing comparator order (the summary package's copy, `summary/textrank.go:67-113`, is identical) |
| Graph.Scored | analyse/textrank.go:121-124 | one entry per label, with that label's score |
| Graph.ScoredMembers | analyse/textrank.go:121-125 | reordering the scored entries keeps the labels and their scores |
| Graph.SortedScoredFacts | analyse/textrank.go:121-125 | the sorted result has one entry per label, each with its score, strictly ordered |
| Graph.AddPairStep | analyse/textrank.go:162-164 | one more `addEdge` from the accumulator keeps "the graph holds exactly the pairs done so far" |
| Graph.BuildGraph | analyse/textrank.go:162-164 | after one `addEdge` per accumulated pair, the nodes are the pairs' endpoints, every pair's forward entry is present, and there are two entries per pair |
| Graph.RankPairs | analyse/textrank.go:162-165 | the ranking holds each endpoint of the accumulated pairs once, scored, strictly ordered |
| Keywords.CountWithPOS | analyse/textrank.go:143-161 | the accumulator holds exactly the keys with a positive count, each with its count of qualifying position pairs |
| Keywords.CountAll | analyse/textrank.go:193-201 | the same for `SimHashRank`, counting every windowed pair with no filter |
| Keywords.CountIsNumberOfPairs | analyse/textrank.go:154-158 | a key's count equals the number of qualifying position pairs (i, j) with those texts |
| Keywords.CountedKeys | analyse/textrank.go:143-158 | a key is counted exactly when some qualifying position pair has those texts |
| Keywords.FilteredCountAtMostUnfiltered | analyse/textrank.go:144-152 | the tag and length filters only remove pairs: no key counts more than without them |
| Keywords.OrderedKeyExample | analyse/textrank.go:150-158 | keys are ordered pairs and only the first token's length is checked: ("ab", "c") counts once, ("c", "ab") never |
| Keywords.KeysOfCount | analyse/textrank.go:162-164 | the accumulator's keys are exactly the keys of the qualifying position pairs |
| Keywords.TopK | analyse/textrank.go:166-168 | a prefix of the list, of length `topK` when `topK` is positive and smaller than the list, otherwise the whole list |
| Keywords.PrefixFacts | analyse/textrank.go:166-168 | a prefix keeps only ranked texts, without repeats, still strictly ordered |
| Keywords.AllowSet | analyse/textrank.go:132-135 | `posFilt` holds exactly the allowed tags |
| Keywords.TextRankWithPOS | analyse/textrank.go:131-170 | the ranking holds each endpoint of the counted pairs once, scored, strictly ordered; the keywords are exactly its first `topK` entries (`TopK`), or all of it unless `0 < topK < count` |
| Keywords.TextRank | analyse/textrank.go:174-176 | exactly the endpoints of the pairs counted with the default tags, each once, scored by `score`, strictly ordered |
| Keywords.TopTextRank | analyse/textrank.go:180-182 | the first `topK` entries of the ranking of the endpoints counted with the default tags; each once, scored by `score`, strictly ordered |
| Keywords.SimHashRank | analyse/textrank.go:185-207 | exactly the endpoints of every windowed pair, each once, scored, strictly ordered |
| SentenceSplit.IsSentenceStop | summary/textrank.go:115-117 | `isSetenctStop` holds exactly for the characters 。！？ and the two line breaks |
| SentenceSplit.Fields | summary/textrank.go:134 | `strings.FieldsFunc` with `isSetenctStop`: every field is non-empty and holds no stop character (the remaining laws are `FieldsLaws`) |
| SentenceSplit.FieldsLaws | summary/textrank.go:134 | `FieldsFunc` with `isSetenctStop`: every field is non-empty and stop-free, a stop-free text is its own field, and a stop character splits the fields into those before and after it |
| SentenceSplit.UniqueFacts | summary/textrank.go:133-135 | the kept sentences are the distinct fields, each once, ordered by first occurrence |
| SentenceSplit.BuildWords | summary/textrank.go:137-143 | the word set is exactly the words of the tokens whose tag `isFiltered` does not flag |
| SentenceSplit.SentencesOfFacts | summary/textrank.go:133-153 | the sentences' texts are distinct and are exactly the fields; `pos` is the index; each text is non-empty and stop-free |
| SentenceSplit.SplitSentences | summary/textrank.go:129-154 | the loop builds exactly those sentences, and `sm` maps each field to the index of its sentence |
| Summary.InitPosFilter | summary/textrank.go:219-224 | `init`: the filter holds exactly `defaultAllowPOS` |
| Summary.PairSimilarities | summary/textrank.go:159-169 | every ordered pair of sentences (self-pairs included) with positive similarity is in `cm` with that similarity, and `cm` holds nothing else |
| Summary.LinkedEndpoints | summary/textrank.go:159-175 | the graph's nodes are exactly the sentences with a positive similarity to some sentence |
| Summary.ShortEnough | summary/textrank.go:180-184 | the texts the loop does not skip are ranked texts no longer than the limit |
| Summary.BudgetFacts | summary/textrank.go:179-192 | the selection is the longest prefix of the non-skipped texts whose costs (length + 1) fit the limit |
| Summary.SelectionMembers | summary/textrank.go:179-192 | the selection holds only ranked texts, without repeats when the ranking has none |
| Summary.SelectPositions | summary/textrank.go:177-192 | the loop with `continue` and `break` yields the positions of exactly that selection, in rank order |
| Summary.IntLessIsStrictTotal | summary/textrank.go:194 | `sort.IntSlice` orders by a strict total order |
| Summary.PositionsFacts | summary/textrank.go:185 | `sm` positions of the selected texts are valid, distinct and lead back to those texts |
| Summary.GatherFacts | summary/textrank.go:194-201 | the gathered sentences have the selected texts, strictly increasing positions and the same total cost |
| Summary.GatherTexts | summary/textrank.go:198-201 | the gathered sentences have exactly the selected texts |
| Summary.GatherCost | summary/textrank.go:194-201 | sorting positions does not change the total cost |
| Summary.ChooseSentences | summary/textrank.go:177-203 | the result holds exactly the selected texts, as sentences of the input, in increasing position, within the limit |
| Summary.TextRank | summary/textrank.go:128-204 | the ranking covers exactly the linked sentences; the result is the budgeted selection from it, in document order, with total length plus full stops within the limit |
| Summary.Formatted | summary/textrank.go:121-124 | one piece per sentence: its text followed by a full stop |
| Summary.Concat | summary/textrank.go:125 | `strings.Join` with no separator: the first piece starts the result, the rest follows, and the lengths add up |
| Summary.JoinRoundTrip | summary/textrank.go:119-126 | the joined text splits back into the chosen sentences, and its length is their total cost |
| Summary.Summary | summary/textrank.go:119-126 | the summary is the join of the picked sentences, each followed by a full stop; the picked sentences are exactly the budgeted selection from the ranking of the linked sentences, in document order; the text is within the limit (or empty), its length is their total cost, and it splits back into them |

## Left out

- The power iteration, its damping factor, and the min/max normalisation in both copies of `rank` (`analyse/textrank.go:86-126`, `summary/textrank.go:72-112`). These are IEEE floating-point sums and divisions whose order depends on Go's map iteration. The score is the parameter `score`, so `Graph.Graph.Rank` proves only the structure of the result and its order.
- The exact value of `math.Log`. It is the parameter `log`, constrained only by `Sentences.LogLaws`.
- Sentences.Similarity: for an empty word set Go computes `0 / (Log(0) + …)`, which is negative zero because Log(0) is minus infinity. The model returns 0.0, which is equal to negative zero under every comparison the code makes.
- NaN and infinities in the scores are not modelled.
- The segmenter (`posseg.Segmenter.Cut`), `LoadDictionary`, `LoadUserDictionary` and `SetSegmenter`. These are dictionary file I/O and an external component. The segmenter's output is an input (`pairs`, or the function `cut`).
- The algorithms inside `sort.Sort`, `strings.FieldsFunc` and `strings.Join`. Sorting is an insertion sort proved against the sort contract. Splitting and joining are specified by recursive definitions and their laws.
- The `edges` `Len`/`Less`/`Swap` methods. They are never called.
- `Sentence.Text` and `Sentence.Weight`. These getters are the datatype's fields.
- The `Segments` comparator of the keyword package. Its file is not part of this model; the same comparator as `Sentences.Less` is assumed.
- Go's map iteration order, where it matters: the order of `addEdge` calls and of the `elems` result. It is left unspecified (any order is allowed).
- The package-level `posFilter` global. It is passed as the `posFilter` parameter, and `Summary.InitPosFilter` builds it.
- The word sets inside `Sentence` are held by value (`set<string>`), not as shared Go maps; nothing modifies them after construction.
- `Sentences.Similarity` writes the `intersect` call as Dafny's set intersection `*`, which is what `StrSets.StrSet.Intersect` is proved to compute (`r.members == members * o.members`).
- The dead guard `i < len(sentences)+1` (`summary/textrank.go:160`) is kept as written; it is always true.
- The `limit` of `TextRank` is an unbounded integer, and so are lengths and positions; Go's `int` overflow is not modelled.
