/** `nltk_summarize` and `spacy_summarize`: the frequency-based extractive
    summarizer. The tokenizers are not modelled: the word tokens, the
    sentences and the stop-word set are given. NLTK keys the sentence table
    by sentence text; spaCy keys it by sentence span, modelled as the
    sentence's position. */
module Summarizer {
  import opened Wrappers
  import opened Builtins
  import opened Frequency
  import opened Scoring
  import opened Selection

  /** The exceptions the summarizer raises: `max()` of an empty sequence,
      and `int(percent)` of a string that is not an integer. */
  datatype SummarizerError = EmptyFrequencyTable | InvalidPercent

  /** Sentence spans are keyed by position. */
  function Positions(n: nat): (r: seq<int>)
    ensures |r| == n && forall i :: 0 <= i < n ==> r[i] == i
  {
    seq(n, i => i)
  }

  lemma PositionsInRange(n: nat)
    ensures NoDuplicates(Positions(n))
    ensures forall x :: x in Positions(n) ==> 0 <= x < n
  {
  }

  /** `[span.text for span in summary]` */
  function SpanTexts(selected: seq<int>, texts: seq<string>): (r: seq<string>)
    requires forall j :: 0 <= j < |selected| ==> 0 <= selected[j] < |texts|
    ensures |r| == |selected| && forall j :: 0 <= j < |r| ==> r[j] == texts[selected[j]]
  {
    seq(|selected|, j requires 0 <= j < |selected| => texts[selected[j]])
  }

  // ---------------------------------------------------------------------
  // Reference definitions of the two summarizers

  /** The sentences NLTK's variant selects, for a given weight table. */
  ghost function NltkSelection(sentences: seq<string>, weights: map<string, real>, percent: int): seq<string>
  {
    var table := Scored(sentences, sentences, weights);
    ValidSize(table);
    NLargest(SelectLength(|sentences|, percent), table)
  }

  /** The sentence positions spaCy's variant selects. */
  ghost function SpacySelection(sentences: seq<string>, weights: map<string, real>, percent: int): (r: seq<int>)
    ensures forall j :: 0 <= j < |r| ==> 0 <= r[j] < |sentences|
  {
    var table := Scored(Positions(|sentences|), sentences, weights);
    ValidSize(table);
    var r := NLargest(SelectLength(|sentences|, percent), table);
    SelectionInRange(r, table.keys, |sentences|);
    r
  }

  lemma SelectionInRange(r: seq<int>, keys: seq<int>, n: nat)
    requires forall x :: x in r ==> x in keys
    requires forall x :: x in keys ==> x in Positions(n)
    ensures forall j :: 0 <= j < |r| ==> 0 <= r[j] < n
  {
    PositionsInRange(n);
    forall j | 0 <= j < |r| ensures 0 <= r[j] < n {
      assert r[j] in r;
    }
  }

  ghost function NltkSummary(tokens: seq<string>, sentences: seq<string>, stopWords: set<string>, percent: string)
    : Result<string, SummarizerError>
  {
    match FrequencyWeights(tokens, stopWords)
    case None => Failure(EmptyFrequencyTable)
    case Some(weights) =>
      match ParseInt(percent)
      case None => Failure(InvalidPercent)
      case Some(p) => Success(Join(NltkSelection(sentences, weights, p), " "))
  }

  ghost function SpacySummary(tokens: seq<string>, sentences: seq<string>, stopWords: set<string>, percent: string)
    : Result<string, SummarizerError>
  {
    match FrequencyWeights(tokens, stopWords)
    case None => Failure(EmptyFrequencyTable)
    case Some(weights) =>
      match ParseInt(percent)
      case None => Failure(InvalidPercent)
      case Some(p) => Success(Join(SpanTexts(SpacySelection(sentences, weights, p), sentences), " "))
  }

  // ---------------------------------------------------------------------
  // The two functions of summarizer.py

  method NltkSummarize(tokens: seq<string>, sentences: seq<string>, stopWords: set<string>, percent: string)
    returns (r: Result<string, SummarizerError>)
    ensures r == NltkSummary(tokens, sentences, stopWords, percent)
  {
    var counts := CountWords(tokens, stopWords);
    var maxFrequency := MaxFrequency(counts);
    if maxFrequency.None? {
      return Failure(EmptyFrequencyTable);
    }
    WordCountsPositive(tokens, stopWords);
    MaxOfIsPositive(counts);
    var weights := Normalise(counts, maxFrequency.value);
    var table := ScoreSentences(sentences, sentences, weights);
    var p := ParseInt(percent);
    if p.None? {
      return Failure(InvalidPercent);
    }
    var selectLength := SelectLength(|sentences|, p.value);
    ValidSize(table);
    var summary := NLargest(selectLength, table);
    r := Success(Join(summary, " "));
  }

  method SpacySummarize(tokens: seq<string>, sentences: seq<string>, stopWords: set<string>, percent: string)
    returns (r: Result<string, SummarizerError>)
    ensures r == SpacySummary(tokens, sentences, stopWords, percent)
  {
    var counts := CountWords(tokens, stopWords);
    var maxFrequency := MaxFrequency(counts);
    if maxFrequency.None? {
      return Failure(EmptyFrequencyTable);
    }
    WordCountsPositive(tokens, stopWords);
    MaxOfIsPositive(counts);
    var weights := Normalise(counts, maxFrequency.value);
    var table := ScoreSentences(Positions(|sentences|), sentences, weights);
    var p := ParseInt(percent);
    if p.None? {
      return Failure(InvalidPercent);
    }
    var selectLength := SelectLength(|sentences|, p.value);
    ValidSize(table);
    var summary := NLargest(selectLength, table);
    assert summary == SpacySelection(sentences, weights, p.value);
    r := Success(Join(SpanTexts(summary, sentences), " "));
  }

  lemma MaxOfIsPositive(counts: map<string, nat>)
    requires counts != map[] && forall w :: w in counts ==> counts[w] >= 1
    ensures MaxOf(counts) > 0
  {
    var w :| w in counts;
  }

  // ---------------------------------------------------------------------
  // What the summarizers promise

  /** `max()` raises exactly when no token survives the filters; otherwise
      `int(percent)` raises exactly when percent is not an integer. */
  lemma SummaryFailures(tokens: seq<string>, sentences: seq<string>, stopWords: set<string>, percent: string)
    ensures var r := NltkSummary(tokens, sentences, stopWords, percent);
      && (r == Failure(EmptyFrequencyTable) <==> forall t :: t in tokens ==> !Survives(t, stopWords))
      && (r == Failure(InvalidPercent) <==> (exists t :: t in tokens && Survives(t, stopWords)) && ParseInt(percent).None?)
    ensures var r := SpacySummary(tokens, sentences, stopWords, percent);
      && (r == Failure(EmptyFrequencyTable) <==> forall t :: t in tokens ==> !Survives(t, stopWords))
      && (r == Failure(InvalidPercent) <==> (exists t :: t in tokens && Survives(t, stopWords)) && ParseInt(percent).None?)
  {
    FrequencyWeightsProperties(tokens, stopWords);
  }

  /** A percent that selects zero or fewer sentences yields "" without error. */
  lemma ShortSelectionIsEmpty(sentences: seq<string>, weights: map<string, real>, percent: int)
    requires SelectLength(|sentences|, percent) <= 0
    ensures Join(NltkSelection(sentences, weights, percent), " ") == ""
    ensures Join(SpanTexts(SpacySelection(sentences, weights, percent), sentences), " ") == ""
  {
  }

  /** NLTK's selection: min(max(select_length, 0), number of entries)
      distinct scored sentence texts, each scoring at least as high as every
      sentence left out, in descending score order; among sentences of equal
      score, those first in table order are the ones selected, in that order. */
  lemma NltkSelectionProperties(sentences: seq<string>, weights: map<string, real>, percent: int)
    ensures var table := Scored(sentences, sentences, weights);
      var k := SelectLength(|sentences|, percent);
      var selected := NltkSelection(sentences, weights, percent);
      && |selected| == (if k <= 0 then 0 else if k < |table.score| then k else |table.score|)
      && NoDuplicates(selected)
      && (forall s :: s in selected ==> s in sentences && s in table.score)
      && (forall x, y :: x in selected && y in table.score && y !in selected ==> table.score[x] >= table.score[y])
      && AllScored(table.keys, table.score) && AllScored(selected, table.score)
      && SortedDesc(selected, table.score)
      && (forall v :: WithScore(selected, table.score, v) <= WithScore(table.keys, table.score, v))
  {
    var table := Scored(sentences, sentences, weights);
    var k := SelectLength(|sentences|, percent);
    NLargestSize(k, table);
    ValidSize(table);
    var selected := NLargest(k, table);
    forall x, y | x in selected && y in table.score && y !in selected
      ensures table.score[x] >= table.score[y]
    {
      NLargestDominates(k, table, x, y);
    }
    NLargestSorted(k, table);
    forall v ensures WithScore(selected, table.score, v) <= WithScore(table.keys, table.score, v) {
      NLargestStable(k, table, v);
    }
  }

  /** NLTK keys sentences by their text, so a sentence that occurs c times
      has one entry, worth c times the sentence's own score. */
  lemma NltkRepeatedSentence(sentences: seq<string>, weights: map<string, real>, s: string)
    requires s in Scored(sentences, sentences, weights).score
    ensures Scored(sentences, sentences, weights).score[s]
         == multiset(sentences)[s] as real * PiecesScore(Split(s), weights)
  {
    var entry := Scored(sentences, sentences, weights).score[s];
    ScoredValue(sentences, sentences, weights, s);
    ScoreSumRepeated(sentences, weights, s);
    RepeatedScore(sentences, weights, entry, s);
  }

  lemma RepeatedScore(sentences: seq<string>, weights: map<string, real>, sum: real, s: string)
    requires sum == Repeated(multiset(sentences)[s], PiecesScore(Split(s), weights))
    ensures sum == multiset(sentences)[s] as real * PiecesScore(Split(s), weights)
  {
    RepeatedIsProduct(multiset(sentences)[s], PiecesScore(Split(s), weights));
  }

  /** spaCy's selection: min(max(select_length, 0), number of entries)
      distinct sentence positions, each scoring at least as high as every
      sentence left out, in descending score order, with ties decided by
      table order as for NLTK. */
  lemma SpacySelectionProperties(sentences: seq<string>, weights: map<string, real>, percent: int)
    ensures var table := Scored(Positions(|sentences|), sentences, weights);
      var k := SelectLength(|sentences|, percent);
      var selected := SpacySelection(sentences, weights, percent);
      && |selected| == (if k <= 0 then 0 else if k < |table.score| then k else |table.score|)
      && NoDuplicates(selected)
      && (forall i :: i in selected ==> i in table.score)
      && (forall x, y :: x in selected && y in table.score && y !in selected ==> table.score[x] >= table.score[y])
      && AllScored(table.keys, table.score) && AllScored(selected, table.score)
      && SortedDesc(selected, table.score)
      && (forall v :: WithScore(selected, table.score, v) <= WithScore(table.keys, table.score, v))
  {
    var table := Scored(Positions(|sentences|), sentences, weights);
    var k := SelectLength(|sentences|, percent);
    NLargestSize(k, table);
    ValidSize(table);
    var selected := NLargest(k, table);
    forall x, y | x in selected && y in table.score && y !in selected
      ensures table.score[x] >= table.score[y]
    {
      NLargestDominates(k, table, x, y);
    }
    NLargestSorted(k, table);
    forall v ensures WithScore(selected, table.score, v) <= WithScore(table.keys, table.score, v) {
      NLargestStable(k, table, v);
    }
  }

  /** A longer prefix of the same ranking joins to a longer summary. */
  lemma JoinedPrefix(a: seq<string>, b: seq<string>)
    requires a <= b
    ensures Join(a, " ") <= Join(b, " ")
  {
    assert a + b[|a|..] == b;
    JoinPrefix(a, b[|a|..], " ");
  }

  lemma SpanTextsPrefix(a: seq<int>, b: seq<int>, texts: seq<string>)
    requires a <= b
    requires forall j :: 0 <= j < |b| ==> 0 <= b[j] < |texts|
    ensures SpanTexts(a, texts) <= SpanTexts(b, texts)
  {
  }

  /** The summary for a smaller percent is a prefix of the summary for a
      larger one. */
  lemma NltkSelectionMonotone(sentences: seq<string>, weights: map<string, real>, p1: int, p2: int)
    requires p1 <= p2
    ensures Join(NltkSelection(sentences, weights, p1), " ") <= Join(NltkSelection(sentences, weights, p2), " ")
  {
    var n := |sentences|;
    SelectLengthMonotone(n, p1, p2);
    var table := Scored(sentences, sentences, weights);
    ValidSize(table);
    NLargestPrefix(SelectLength(n, p1), SelectLength(n, p2), table);
    JoinedPrefix(NltkSelection(sentences, weights, p1), NltkSelection(sentences, weights, p2));
  }

  lemma SpacySelectionMonotone(sentences: seq<string>, weights: map<string, real>, p1: int, p2: int)
    requires p1 <= p2
    ensures Join(SpanTexts(SpacySelection(sentences, weights, p1), sentences), " ")
         <= Join(SpanTexts(SpacySelection(sentences, weights, p2), sentences), " ")
  {
    var n := |sentences|;
    SelectLengthMonotone(n, p1, p2);
    var table := Scored(Positions(n), sentences, weights);
    ValidSize(table);
    NLargestPrefix(SelectLength(n, p1), SelectLength(n, p2), table);
    var c, d := SpacySelection(sentences, weights, p1), SpacySelection(sentences, weights, p2);
    SpanTextsPrefix(c, d, sentences);
    JoinedPrefix(SpanTexts(c, sentences), SpanTexts(d, sentences));
  }

  /** The same for whole requests: a larger percent extends the summary. */
  lemma SummaryMonotone(tokens: seq<string>, sentences: seq<string>, stopWords: set<string>, p1: int, p2: int)
    requires p1 <= p2
    ensures var r1, r2 := NltkSummary(tokens, sentences, stopWords, ShowInt(p1)), NltkSummary(tokens, sentences, stopWords, ShowInt(p2));
      (r1.Success? <==> r2.Success?) && (r1.Success? ==> r1.value <= r2.value)
    ensures var r1, r2 := SpacySummary(tokens, sentences, stopWords, ShowInt(p1)), SpacySummary(tokens, sentences, stopWords, ShowInt(p2));
      (r1.Success? <==> r2.Success?) && (r1.Success? ==> r1.value <= r2.value)
  {
    ParseShowInt(p1);
    ParseShowInt(p2);
    if FrequencyWeights(tokens, stopWords).Some? {
      NltkSelectionMonotone(sentences, FrequencyWeights(tokens, stopWords).value, p1, p2);
      SpacySelectionMonotone(sentences, FrequencyWeights(tokens, stopWords).value, p1, p2);
    }
  }

  /** When every sentence has a piece that scores, the spaCy table has one
      entry per sentence, and percent 100 emits every sentence exactly once. */
  lemma SpacyEverySentenceScored(sentences: seq<string>, weights: map<string, real>)
    requires forall i :: 0 <= i < |sentences| ==> Matches(Split(sentences[i]), weights)
    ensures |Scored(Positions(|sentences|), sentences, weights).score| == |sentences|
    ensures multiset(SpacySelection(sentences, weights, 100)) == multiset(Positions(|sentences|))
  {
    var n := |sentences|;
    var keys := Positions(n);
    var table := Scored(keys, sentences, weights);
    SpacyTableKeys(sentences, weights);
    ValidSize(table);
    assert |table.keys| == |multiset(table.keys)| == |multiset(keys)| == n;
    SelectLengthBounds(n, 100);
    NLargestAll(n, table);
  }

  /** The keys of that table are the positions, in some order. */
  lemma SpacyTableKeys(sentences: seq<string>, weights: map<string, real>)
    requires forall i :: 0 <= i < |sentences| ==> Matches(Split(sentences[i]), weights)
    ensures multiset(Scored(Positions(|sentences|), sentences, weights).keys) == multiset(Positions(|sentences|))
  {
    var keys := Positions(|sentences|);
    var table := Scored(keys, sentences, weights);
    ScoredAllMatch(keys, sentences, weights);
    PositionsInRange(|sentences|);
    forall x ensures x in table.keys <==> x in keys {
      assert x in table.score <==> x in table.keys;
    }
    SamePermutation(table.keys, keys);
  }

  lemma SamePermutation(a: seq<int>, b: seq<int>)
    requires NoDuplicates(a) && NoDuplicates(b)
    requires forall x :: x in a <==> x in b
    ensures multiset(a) == multiset(b)
  {
    forall x ensures multiset(a)[x] == multiset(b)[x] {
      NoDuplicatesCount(a, x);
      NoDuplicatesCount(b, x);
      if x in a {
        assert x in multiset(a) && x in multiset(b);
      } else {
        assert x !in multiset(a) && x !in multiset(b);
      }
    }
    assert multiset(a) == multiset(b);
  }
}
