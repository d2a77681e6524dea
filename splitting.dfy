/**
 * The first stage of the sentence pipeline: the text is cut into sentences
 * at the stop characters, repeated sentences are dropped, and every
 * remaining sentence is numbered and given the set of its words.
 */
module SentenceSplit {
  import opened Text
  import opened Collections
  import opened StrSets
  import opened Sentences

  /** `isSetenctStop`: the characters that end a sentence. */
  predicate IsSentenceStop(c: char): (r: bool)
    ensures r <==> c in "。！？\n\r"
  {
    c == '。' || c == '！' || c == '？' || c == '\n' || c == '\r'
  }

  predicate StopFree(s: string)
  {
    forall i :: 0 <= i < |s| ==> !IsSentenceStop(s[i])
  }

  /**
   * `strings.FieldsFunc` with `IsSentenceStop`, scanning `s` with the field
   * collected so far in `cur`.
   */
  function FieldsFrom(s: string, cur: string): seq<string>
  {
    if s == [] then
      (if cur == [] then [] else [cur])
    else if IsSentenceStop(s[0]) then
      (if cur == [] then [] else [cur]) + FieldsFrom(s[1..], [])
    else
      FieldsFrom(s[1..], cur + [s[0]])
  }

  /** The maximal stop-free runs of `s`, in order; empty runs are dropped. */
  /** Every piece is non-empty and holds no stop character. */
  predicate ProperFields(fs: seq<string>)
  {
    forall f :: f in fs ==> f != [] && StopFree(f)
  }

  function Fields(s: string): (fs: seq<string>)
    ensures ProperFields(fs)
  {
    FieldsFromShape(s, []);
    FieldsFrom(s, [])
  }

  lemma {:induction false} FieldsFromShape(s: string, cur: string)
    requires StopFree(cur)
    ensures forall i :: 0 <= i < |FieldsFrom(s, cur)| ==>
              FieldsFrom(s, cur)[i] != [] && StopFree(FieldsFrom(s, cur)[i])
  {
    if s != [] {
      if IsSentenceStop(s[0]) {
        FieldsFromShape(s[1..], []);
      } else {
        FieldsFromShape(s[1..], cur + [s[0]]);
      }
    }
  }

  lemma {:induction false} FieldsFromStopFree(s: string, cur: string)
    requires StopFree(s)
    ensures FieldsFrom(s, cur) == if cur + s == [] then [] else [cur + s]
  {
    if s == [] {
      assert cur + s == cur;
    } else {
      assert (cur + [s[0]]) + s[1..] == cur + s;
      FieldsFromStopFree(s[1..], cur + [s[0]]);
    }
  }

  lemma {:induction false} FieldsFromSplit(a: string, c: char, b: string, cur: string)
    requires IsSentenceStop(c)
    ensures FieldsFrom(a + [c] + b, cur) == FieldsFrom(a, cur) + Fields(b)
  {
    if a == [] {
      assert a + [c] + b == [c] + b;
      assert ([c] + b)[1..] == b;
    } else {
      assert (a + [c] + b)[0] == a[0];
      assert (a + [c] + b)[1..] == a[1..] + [c] + b;
      if IsSentenceStop(a[0]) {
        FieldsFromSplit(a[1..], c, b, []);
      } else {
        FieldsFromSplit(a[1..], c, b, cur + [a[0]]);
      }
    }
  }

  /**
   * The laws of `FieldsFunc`: every field is a non-empty, stop-free piece;
   * a stop-free text is its own single field; and cutting at one stop
   * character splits the fields into those before it and those after it.
   * Together they fix the result for every text.
   */
  lemma FieldsLaws(s: string)
    ensures forall i :: 0 <= i < |Fields(s)| ==> Fields(s)[i] != [] && StopFree(Fields(s)[i])
    ensures StopFree(s) ==> Fields(s) == if s == [] then [] else [s]
    ensures forall i :: 0 <= i < |s| && IsSentenceStop(s[i]) ==>
              Fields(s) == Fields(s[..i]) + Fields(s[i + 1..])
  {
    FieldsFromShape(s, []);
    if StopFree(s) {
      FieldsFromStopFree(s, []);
      assert [] + s == s;
    }
    forall i | 0 <= i < |s| && IsSentenceStop(s[i])
      ensures Fields(s) == Fields(s[..i]) + Fields(s[i + 1..])
    {
      assert s == s[..i] + [s[i]] + s[i + 1..];
      FieldsFromSplit(s[..i], s[i], s[i + 1..], []);
    }
  }

  /** Where `x` first occurs in `fs`. */
  function FirstIndex(fs: seq<string>, x: string): (i: nat)
    requires x in fs
    ensures i < |fs| && fs[i] == x
    ensures forall j :: 0 <= j < i ==> fs[j] != x
  {
    if fs[0] == x then 0 else 1 + FirstIndex(fs[1..], x)
  }

  /**
   * The sentences the loop keeps: each field the first time it is seen,
   * in the order of the fields (the `sm` lookup skips repeats).
   */
  function Unique(fs: seq<string>): seq<string>
  {
    if fs == [] then []
    else
      var u := Unique(fs[..|fs| - 1]);
      if fs[|fs| - 1] in u then u else u + [fs[|fs| - 1]]
  }

  /**
   * `Unique` keeps every field once, drops nothing else, and orders the
   * sentences by where they first occur.
   */
  lemma {:induction false} UniqueFacts(fs: seq<string>)
    ensures Distinct(Unique(fs))
    ensures forall x :: x in Unique(fs) <==> x in fs
    ensures forall i, j :: 0 <= i < j < |Unique(fs)| ==>
              FirstIndex(fs, Unique(fs)[i]) < FirstIndex(fs, Unique(fs)[j])
  {
    if fs != [] {
      var init := fs[..|fs| - 1];
      var last := fs[|fs| - 1];
      assert fs == init + [last];
      UniqueFacts(init);
      var u := Unique(init);
      forall y | y in init
        ensures FirstIndex(fs, y) == FirstIndex(init, y)
      {
        var i1 := FirstIndex(init, y);
        assert fs[i1] == y;
      }
      if last !in u {
        assert last !in init;
        assert FirstIndex(fs, last) == |fs| - 1;
        forall i, j | 0 <= i < j < |u + [last]|
          ensures FirstIndex(fs, (u + [last])[i]) < FirstIndex(fs, (u + [last])[j])
        {
          assert (u + [last])[i] == u[i] && u[i] in init;
          if j < |u| {
            assert (u + [last])[j] == u[j];
          }
        }
      }
    }
  }

  /** The loop's test: a token's word is kept when its tag is not in the filter set. */
  function WordsOf(tokens: seq<Token>, filter: set<string>): set<string>
  {
    set i | 0 <= i < |tokens| && tokens[i].pos !in filter :: tokens[i].text
  }

  lemma WordsOfStep(tokens: seq<Token>, t: Token, filter: set<string>)
    ensures WordsOf(tokens + [t], filter)
         == WordsOf(tokens, filter) + (if t.pos in filter then {} else {t.text})
  {
    var ts := tokens + [t];
    assert forall i :: 0 <= i < |tokens| ==> ts[i] == tokens[i];
    if t.pos !in filter {
      assert t.text == ts[|tokens|].text;
    }
  }

  /**
   * The word set of one sentence: every token of the segmenter's output
   * whose tag `IsFiltered` does not flag, each word once.
   */
  method BuildWords(tokens: seq<Token>, posFilter: StrSet) returns (words: StrSet)
    ensures fresh(words)
    ensures words.members == WordsOf(tokens, posFilter.members)
  {
    words := new StrSet();
    for i := 0 to |tokens|
      invariant fresh(words)
      invariant words.members == WordsOf(tokens[..i], posFilter.members)
    {
      WordsOfStep(tokens[..i], tokens[i], posFilter.members);
      assert tokens[..i + 1] == tokens[..i] + [tokens[i]];
      if !posFilter.Has(tokens[i].pos) {
        words.Add(tokens[i].text);
      }
    }
    assert tokens[..|tokens|] == tokens;
  }

  /** The sentence records for the kept texts `u`, numbered from zero. */
  function Numbered(u: seq<string>, cut: string -> seq<Token>, filter: set<string>): (ss: seq<Sentence>)
    ensures |ss| == |u|
    ensures forall k :: 0 <= k < |u| ==> ss[k] == Sentence(k, u[k], WordsOf(cut(u[k]), filter), 0.0)
  {
    seq(|u|, k requires 0 <= k < |u| => Sentence(k, u[k], WordsOf(cut(u[k]), filter), 0.0))
  }

  /** The sentences `TextRank` works on, in the order it builds them. */
  function SentencesOf(text: string, cut: string -> seq<Token>, filter: set<string>): seq<Sentence>
  {
    Numbered(Unique(Fields(text)), cut, filter)
  }

  lemma UniqueStep(fs: seq<string>, s: string)
    ensures Unique(fs + [s]) == if s in fs then Unique(fs) else Unique(fs) + [s]
  {
    assert (fs + [s])[..|fs|] == fs;
    UniqueFacts(fs);
  }

  lemma NumberedStep(u: seq<string>, s: string, cut: string -> seq<Token>, filter: set<string>)
    ensures Numbered(u + [s], cut, filter)
         == Numbered(u, cut, filter) + [Sentence(|u|, s, WordsOf(cut(s), filter), 0.0)]
  {
  }

  /** The texts of the sentences `ss`, in order. */
  function SentenceTexts(ss: seq<Sentence>): (ts: seq<string>)
    ensures |ts| == |ss|
    ensures forall k :: 0 <= k < |ss| ==> ts[k] == ss[k].text
  {
    seq(|ss|, k requires 0 <= k < |ss| => ss[k].text)
  }

  /**
   * What `TextRank` knows of its sentences: their texts are the distinct
   * fields of the text, each non-empty and free of stop characters, and
   * each sentence's position is its index.
   */
  lemma SentencesOfFacts(text: string, cut: string -> seq<Token>, filter: set<string>)
    ensures var ss := SentencesOf(text, cut, filter);
      && Distinct(SentenceTexts(ss))
      && (forall x :: x in SentenceTexts(ss) <==> x in Fields(text))
      && (forall k :: 0 <= k < |ss| ==> ss[k].pos == k && ss[k].text != [] && StopFree(ss[k].text))
  {
    var ss := SentencesOf(text, cut, filter);
    var u := Unique(Fields(text));
    UniqueFacts(Fields(text));
    FieldsLaws(text);
    assert SentenceTexts(ss) == u;
    forall k | 0 <= k < |ss|
      ensures ss[k].text != [] && StopFree(ss[k].text)
    {
      assert u[k] in Fields(text);
    }
  }

  /**
   * The splitting loop of `TextRank`: one sentence per distinct field, in
   * order of first occurrence, and the index `sm` from a sentence's text to
   * its position.
   */
  method SplitSentences(text: string, cut: string -> seq<Token>, posFilter: StrSet)
    returns (sentences: seq<Sentence>, sm: map<string, int>)
    ensures sentences == SentencesOf(text, cut, posFilter.members)
    ensures forall x :: x in sm <==> x in Fields(text)
    ensures forall x :: x in sm ==> 0 <= sm[x] < |sentences| && sentences[sm[x]].text == x
  {
    var fields := Fields(text);
    sentences := [];
    sm := map[];
    var i := 0;
    for f := 0 to |fields|
      invariant sentences == Numbered(Unique(fields[..f]), cut, posFilter.members)
      invariant i == |sentences|
      invariant forall x :: x in sm <==> x in fields[..f]
      invariant forall x :: x in sm ==> 0 <= sm[x] < i && sentences[sm[x]].text == x
    {
      var s := fields[f];
      assert fields[..f + 1] == fields[..f] + [s];
      UniqueStep(fields[..f], s);
      if s !in sm {
        NumberedStep(Unique(fields[..f]), s, cut, posFilter.members);
        var words := BuildWords(cut(s), posFilter);
        var sentence := Sentence(i, s, words.members, 0.0);
        sentences := sentences + [sentence];
        sm := sm[s := i];
        i := i + 1;
      }
    }
    assert fields[..|fields|] == fields;
  }
}
