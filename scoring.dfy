/** The sentence-score table of the frequency-based summarizer. Each sentence
    is cut at single spaces; every piece whose lower-case form is a key of the
    weight table adds that weight to the sentence's entry; a sentence with no
    such piece gets no entry at all. The table is a Python dict, so the order
    in which keys were first inserted is part of its value. */
module Scoring {
  import opened Builtins

  ghost predicate NoDuplicates<K>(s: seq<K>)
  {
    forall i, j :: 0 <= i < j < |s| ==> s[i] != s[j]
  }

  /** An insertion-ordered dict from sentence keys to scores. */
  datatype ScoreTable<K> = ScoreTable(keys: seq<K>, score: map<K, real>)
  {
    ghost predicate Valid()
    {
      NoDuplicates(keys) && score.Keys == set k | k in keys
    }

    /** `table[k] = v`: a new key goes to the end, an existing key keeps its
        place. */
    function Set(k: K, v: real): (t: ScoreTable<K>)
      ensures Valid() ==> t.Valid()
      ensures t.score == score[k := v]
      ensures t.keys == if k in score then keys else keys + [k]
    {
      if k in score then ScoreTable(keys, score[k := v]) else ScoreTable(keys + [k], score[k := v])
    }
  }

  /** The number of entries is the number of keys. */
  lemma ValidSize<K>(t: ScoreTable<K>)
    requires t.Valid()
    ensures |t.score| == |t.keys|
    ensures forall k :: k in t.keys ==> k in t.score
  {
    DistinctCard(t.keys);
  }

  lemma {:induction false} DistinctCard<K>(s: seq<K>)
    requires NoDuplicates(s)
    ensures |set k | k in s| == |s|
  {
    if s != [] {
      var n := |s| - 1;
      assert NoDuplicates(s[..n]);
      DistinctCard(s[..n]);
      assert (set k | k in s) == (set k | k in s[..n]) + {s[n]};
      assert s[n] !in (set k | k in s[..n]);
    }
  }

  /** What one piece adds: `word_frequencies[word.lower()]`, or nothing. */
  function Weight(piece: string, weights: map<string, real>): real
  {
    if Lower(piece) in weights then weights[Lower(piece)] else 0.0
  }

  /** The sum of the weights of all matching pieces, repeats included. */
  function PiecesScore(pieces: seq<string>, weights: map<string, real>): real
  {
    if |pieces| == 0 then 0.0
    else PiecesScore(pieces[..|pieces| - 1], weights) + Weight(pieces[|pieces| - 1], weights)
  }

  /** Some piece's lower-case form is a key: the sentence gets an entry. */
  predicate Matches(pieces: seq<string>, weights: map<string, real>)
  {
    exists p | p in pieces :: Lower(p) in weights
  }

  /** The table after the inner loop has run over one sentence's pieces. */
  function AddSentence<K>(t: ScoreTable<K>, k: K, pieces: seq<string>, weights: map<string, real>): ScoreTable<K>
  {
    if Matches(pieces, weights) then
      t.Set(k, (if k in t.score then t.score[k] else 0.0) + PiecesScore(pieces, weights))
    else t
  }

  /** Reference definition of the whole table: the sentences in order, the
      i-th under key `keys[i]` with text `texts[i]`. */
  ghost function Scored<K>(keys: seq<K>, texts: seq<string>, weights: map<string, real>): (t: ScoreTable<K>)
    requires |keys| == |texts|
    ensures t.Valid()
    ensures forall k :: k in t.score ==> k in keys
    decreases |keys|
  {
    if |keys| == 0 then ScoreTable([], map[])
    else
      var n := |keys| - 1;
      var before := Scored(keys[..n], texts[..n], weights);
      AddSentence(before, keys[n], Split(texts[n]), weights)
  }

  /** Sentence i is under key k and has a matching piece. */
  ghost predicate ScoredAt<K>(keys: seq<K>, texts: seq<string>, weights: map<string, real>, k: K, i: int)
  {
    0 <= i < |keys| && i < |texts| && keys[i] == k && Matches(Split(texts[i]), weights)
  }

  /** Sentence i is the first sentence under key k that has a matching piece. */
  ghost predicate FirstScoredAt<K>(keys: seq<K>, texts: seq<string>, weights: map<string, real>, k: K, i: int)
  {
    ScoredAt(keys, texts, weights, k, i) && forall j :: 0 <= j < i ==> !ScoredAt(keys, texts, weights, k, j)
  }

  /** The sum of the scores of all sentences under key k. */
  ghost function ScoreSum<K>(keys: seq<K>, texts: seq<string>, weights: map<string, real>, k: K): real
    requires |keys| == |texts|
    decreases |keys|
  {
    if |keys| == 0 then 0.0
    else
      var n := |keys| - 1;
      ScoreSum(keys[..n], texts[..n], weights, k) + (if keys[n] == k then PiecesScore(Split(texts[n]), weights) else 0.0)
  }

  // ---------------------------------------------------------------------
  // Lemmas

  lemma {:induction false} NoMatchScoresZero(pieces: seq<string>, weights: map<string, real>)
    requires !Matches(pieces, weights)
    ensures PiecesScore(pieces, weights) == 0.0
  {
    if |pieces| > 0 {
      var n := |pieces| - 1;
      assert pieces[n] in pieces;
      assert !Matches(pieces[..n], weights) by {
        forall p | p in pieces[..n] ensures Lower(p) !in weights {
          assert p in pieces;
        }
      }
      NoMatchScoresZero(pieces[..n], weights);
    }
  }

  /** With positive weights, a sentence that matches has a positive score. */
  lemma {:induction false} MatchScoresPositive(pieces: seq<string>, weights: map<string, real>)
    requires forall w :: w in weights ==> weights[w] > 0.0
    requires Matches(pieces, weights)
    ensures PiecesScore(pieces, weights) > 0.0
  {
    var n := |pieces| - 1;
    if Lower(pieces[n]) in weights {
      PiecesScoreNonNegative(pieces[..n], weights);
    } else {
      var p :| p in pieces && Lower(p) in weights;
      assert p in pieces[..n] by {
        var i :| 0 <= i < |pieces| && pieces[i] == p;
        assert i != n;
        assert pieces[..n][i] == p;
      }
      MatchScoresPositive(pieces[..n], weights);
    }
  }

  lemma {:induction false} PiecesScoreNonNegative(pieces: seq<string>, weights: map<string, real>)
    requires forall w :: w in weights ==> weights[w] > 0.0
    ensures PiecesScore(pieces, weights) >= 0.0
  {
    if |pieces| > 0 {
      PiecesScoreNonNegative(pieces[..|pieces| - 1], weights);
    }
  }

  lemma ScoredAtPrefix<K>(keys: seq<K>, texts: seq<string>, weights: map<string, real>, k: K, n: nat)
    requires |keys| == |texts| && n <= |keys|
    ensures forall i :: ScoredAt(keys[..n], texts[..n], weights, k, i) <==> i < n && ScoredAt(keys, texts, weights, k, i)
  {
  }

  /** A key is in the table exactly when some sentence under that key has a
      matching piece. */
  lemma {:induction false} ScoredPresence<K>(keys: seq<K>, texts: seq<string>, weights: map<string, real>, k: K)
    requires |keys| == |texts|
    ensures k in Scored(keys, texts, weights).score <==> exists i :: ScoredAt(keys, texts, weights, k, i)
    decreases |keys|
  {
    if |keys| > 0 {
      var n := |keys| - 1;
      ScoredPresence(keys[..n], texts[..n], weights, k);
      ScoredAtPrefix(keys, texts, weights, k, n);
      if k in Scored(keys, texts, weights).score {
        if k !in Scored(keys[..n], texts[..n], weights).score {
          assert ScoredAt(keys, texts, weights, k, n);
        } else {
          var i :| ScoredAt(keys[..n], texts[..n], weights, k, i);
          assert ScoredAt(keys, texts, weights, k, i);
        }
      } else {
        forall i | 0 <= i < |keys| ensures !ScoredAt(keys, texts, weights, k, i) {
          if i < n {
            assert !ScoredAt(keys[..n], texts[..n], weights, k, i);
          }
        }
      }
    }
  }

  /** An entry's score is the sum of the scores of all sentences under its key;
      a key without an entry has nothing to sum. */
  lemma {:induction false} ScoredValue<K>(keys: seq<K>, texts: seq<string>, weights: map<string, real>, k: K)
    requires |keys| == |texts|
    ensures ScoreSum(keys, texts, weights, k) ==
      if k in Scored(keys, texts, weights).score then Scored(keys, texts, weights).score[k] else 0.0
    decreases |keys|
  {
    if |keys| > 0 {
      var n := |keys| - 1;
      ScoredValue(keys[..n], texts[..n], weights, k);
      if !Matches(Split(texts[n]), weights) {
        NoMatchScoresZero(Split(texts[n]), weights);
      }
    }
  }

  /** Keys enter the table in the order of the first sentence under each key
      that has a matching piece. */
  ghost predicate OrderedByFirstScore<K>(keys: seq<K>, texts: seq<string>, weights: map<string, real>)
    requires |keys| == |texts|
  {
    var t := Scored(keys, texts, weights);
    forall p, q, i, j ::
      0 <= p < q < |t.keys| && FirstScoredAt(keys, texts, weights, t.keys[p], i) && FirstScoredAt(keys, texts, weights, t.keys[q], j)
      ==> i < j
  }

  lemma {:induction false} ScoredOrder<K>(keys: seq<K>, texts: seq<string>, weights: map<string, real>)
    requires |keys| == |texts|
    ensures OrderedByFirstScore(keys, texts, weights)
    decreases |keys|, 1
  {
    var t := Scored(keys, texts, weights);
    if |keys| > 0 {
      forall p, q, i, j |
        0 <= p < q < |t.keys| && FirstScoredAt(keys, texts, weights, t.keys[p], i) && FirstScoredAt(keys, texts, weights, t.keys[q], j)
        ensures i < j
      {
        ScoredOrderStep(keys, texts, weights, p, q, i, j);
      }
    }
  }

  /** The keys of the table grow by appending, and only for a new key. */
  lemma AddSentenceKeys<K>(t: ScoreTable<K>, k: K, pieces: seq<string>, weights: map<string, real>)
    ensures AddSentence(t, k, pieces, weights).keys ==
      if Matches(pieces, weights) && k !in t.score then t.keys + [k] else t.keys
  {
  }

  /** The induction step of ScoredOrder, for one pair of positions. */
  lemma ScoredOrderStep<K>(keys: seq<K>, texts: seq<string>, weights: map<string, real>, p: int, q: int, i: int, j: int)
    requires |keys| == |texts|
    requires var t := Scored(keys, texts, weights);
      0 <= p < q < |t.keys| && FirstScoredAt(keys, texts, weights, t.keys[p], i) && FirstScoredAt(keys, texts, weights, t.keys[q], j)
    ensures i < j
    decreases |keys|, 0
  {
    var n := |keys| - 1;
    ScoredOrder(keys[..n], texts[..n], weights);
    var t := Scored(keys, texts, weights);
    var before := Scored(keys[..n], texts[..n], weights);
    AddSentenceKeys(before, keys[n], Split(texts[n]), weights);
    var kp, kq := t.keys[p], t.keys[q];
    ScoredAtPrefix(keys, texts, weights, kp, n);
    ScoredAtPrefix(keys, texts, weights, kq, n);
    assert kp == before.keys[p];
    ValidSize(before);
    FirstIndexOfOldKey(keys, texts, weights, kp, i);
    if q < |before.keys| {
      assert kq == before.keys[q];
      FirstIndexOfOldKey(keys, texts, weights, kq, j);
      assert FirstScoredAt(keys[..n], texts[..n], weights, kp, i);
      assert FirstScoredAt(keys[..n], texts[..n], weights, kq, j);
    } else {
      assert kq == keys[n] && kq !in before.score;
      ScoredPresence(keys[..n], texts[..n], weights, kq);
      assert j == n;
    }
  }

  /** A key that was already in the table before the last sentence has its
      first scored sentence before the last one. */
  lemma {:induction false} FirstIndexOfOldKey<K>(keys: seq<K>, texts: seq<string>, weights: map<string, real>, k: K, i: int)
    requires |keys| == |texts| && |keys| > 0
    requires k in Scored(keys[..|keys| - 1], texts[..|keys| - 1], weights).score
    requires FirstScoredAt(keys, texts, weights, k, i)
    ensures i < |keys| - 1
  {
    var n := |keys| - 1;
    ScoredPresence(keys[..n], texts[..n], weights, k);
    var m :| ScoredAt(keys[..n], texts[..n], weights, k, m);
    FirstBeforeScored(keys, texts, weights, k, n, m, i);
  }

  lemma FirstBeforeScored<K>(keys: seq<K>, texts: seq<string>, weights: map<string, real>, k: K, n: nat, m: int, i: int)
    requires |keys| == |texts| && n <= |keys|
    requires ScoredAt(keys[..n], texts[..n], weights, k, m)
    requires FirstScoredAt(keys, texts, weights, k, i)
    ensures i < n
  {
    assert keys[..n][m] == keys[m] && texts[..n][m] == texts[m];
    assert ScoredAt(keys, texts, weights, k, m);
  }

  /** Every key in the table has a first scored sentence. */
  lemma FirstScoredExists<K>(keys: seq<K>, texts: seq<string>, weights: map<string, real>, k: K)
    requires |keys| == |texts|
    requires k in Scored(keys, texts, weights).score
    ensures exists i :: FirstScoredAt(keys, texts, weights, k, i)
  {
    ScoredPresence(keys, texts, weights, k);
    var i :| ScoredAt(keys, texts, weights, k, i);
    while exists j :: 0 <= j < i && ScoredAt(keys, texts, weights, k, j)
      invariant ScoredAt(keys, texts, weights, k, i)
      decreases i
    {
      var j :| 0 <= j < i && ScoredAt(keys, texts, weights, k, j);
      i := j;
    }
    assert FirstScoredAt(keys, texts, weights, k, i);
  }

  /** When every sentence has its own key (spaCy's sentence spans), an entry's
      score is that sentence's own score. */
  lemma {:induction false} ScoreSumDistinct<K>(keys: seq<K>, texts: seq<string>, weights: map<string, real>, i: nat)
    requires |keys| == |texts| && i < |keys| && NoDuplicates(keys)
    ensures ScoreSum(keys, texts, weights, keys[i]) == PiecesScore(Split(texts[i]), weights)
    decreases |keys|
  {
    var n := |keys| - 1;
    if i < n {
      ScoreSumDistinct(keys[..n], texts[..n], weights, i);
      assert keys[n] != keys[i];
    } else {
      ScoreSumAbsent(keys[..n], texts[..n], weights, keys[n]);
    }
  }

  lemma {:induction false} ScoreSumAbsent<K>(keys: seq<K>, texts: seq<string>, weights: map<string, real>, k: K)
    requires |keys| == |texts| && k !in keys
    ensures ScoreSum(keys, texts, weights, k) == 0.0
    decreases |keys|
  {
    if |keys| > 0 {
      var n := |keys| - 1;
      assert keys[n] != k;
      assert k !in keys[..n];
      ScoreSumAbsent(keys[..n], texts[..n], weights, k);
    }
  }

  /** x added to itself c times. */
  function Repeated(c: nat, x: real): real
  {
    if c == 0 then 0.0 else Repeated(c - 1, x) + x
  }

  lemma {:induction false} RepeatedIsProduct(c: nat, x: real)
    ensures Repeated(c, x) == c as real * x
  {
    if c > 0 {
      RepeatedIsProduct(c - 1, x);
    }
  }

  /** When a sentence is its own key (NLTK's sentence strings), identical
      sentences share one entry and their scores accumulate: the sum is the
      sentence's score added once per occurrence. */
  lemma {:induction false} ScoreSumRepeated(texts: seq<string>, weights: map<string, real>, s: string)
    ensures ScoreSum(texts, texts, weights, s) == Repeated(multiset(texts)[s], PiecesScore(Split(s), weights))
    decreases |texts|
  {
    if |texts| > 0 {
      var n := |texts| - 1;
      ScoreSumRepeated(texts[..n], weights, s);
      assert multiset(texts) == multiset(texts[..n]) + multiset{texts[n]} by {
        assert texts == texts[..n] + [texts[n]];
      }
    }
  }

  // ---------------------------------------------------------------------
  // Case mismatch: keys are stored as spelled but looked up lower-cased

  /** The part of the weight table that lookups can reach. */
  ghost function LowerCaseKeys(weights: map<string, real>): map<string, real>
  {
    map w | w in weights && Lower(w) == w :: weights[w]
  }

  lemma {:induction false} LookupsIgnoreMixedCase(pieces: seq<string>, weights: map<string, real>)
    ensures PiecesScore(pieces, weights) == PiecesScore(pieces, LowerCaseKeys(weights))
    ensures Matches(pieces, weights) == Matches(pieces, LowerCaseKeys(weights))
  {
    forall p ensures Lower(p) in weights <==> Lower(p) in LowerCaseKeys(weights) {
      LowerIdempotent(p);
    }
    if |pieces| > 0 {
      LowerIdempotent(pieces[|pieces| - 1]);
      LookupsIgnoreMixedCase(pieces[..|pieces| - 1], weights);
    }
  }

  lemma AddSentenceIgnoresMixedCase<K>(t: ScoreTable<K>, k: K, pieces: seq<string>, weights: map<string, real>)
    ensures AddSentence(t, k, pieces, weights) == AddSentence(t, k, pieces, LowerCaseKeys(weights))
  {
    LookupsIgnoreMixedCase(pieces, weights);
  }

  /** A key that is not its own lower-case form (a word seen only as "Cats")
      never contributes: the table is the same without such keys. */
  lemma {:induction false} ScoredIgnoresMixedCase<K>(keys: seq<K>, texts: seq<string>, weights: map<string, real>)
    requires |keys| == |texts|
    ensures Scored(keys, texts, weights) == Scored(keys, texts, LowerCaseKeys(weights))
    decreases |keys|
  {
    if |keys| > 0 {
      var n := |keys| - 1;
      var lowered := LowerCaseKeys(weights);
      var before := Scored(keys[..n], texts[..n], weights);
      ScoredIgnoresMixedCase(keys[..n], texts[..n], weights);
      assert before == Scored(keys[..n], texts[..n], lowered);
      AddSentenceIgnoresMixedCase(before, keys[n], Split(texts[n]), weights);
      assert Scored(keys, texts, weights) == AddSentence(before, keys[n], Split(texts[n]), weights);
      assert Scored(keys, texts, lowered) == AddSentence(before, keys[n], Split(texts[n]), lowered);
    }
  }

  /** Presence and value of every entry, for all keys at once. */
  lemma ScoredEntries<K>(keys: seq<K>, texts: seq<string>, weights: map<string, real>)
    requires |keys| == |texts|
    ensures forall k :: k in Scored(keys, texts, weights).score <==> exists i :: ScoredAt(keys, texts, weights, k, i)
    ensures forall k :: k in Scored(keys, texts, weights).score ==>
      Scored(keys, texts, weights).score[k] == ScoreSum(keys, texts, weights, k)
  {
    forall k ensures k in Scored(keys, texts, weights).score <==> exists i :: ScoredAt(keys, texts, weights, k, i) {
      ScoredPresence(keys, texts, weights, k);
    }
    forall k | k in Scored(keys, texts, weights).score
      ensures Scored(keys, texts, weights).score[k] == ScoreSum(keys, texts, weights, k)
    {
      ScoredValue(keys, texts, weights, k);
    }
  }

  /** When every sentence has a matching piece, every key gets an entry. */
  lemma ScoredAllMatch<K>(keys: seq<K>, texts: seq<string>, weights: map<string, real>)
    requires |keys| == |texts|
    requires forall i :: 0 <= i < |texts| ==> Matches(Split(texts[i]), weights)
    ensures Scored(keys, texts, weights).score.Keys == set k | k in keys
  {
    var t := Scored(keys, texts, weights);
    forall k | k in keys ensures k in t.score {
      var i :| 0 <= i < |keys| && keys[i] == k;
      assert ScoredAt(keys, texts, weights, k, i);
      ScoredPresence(keys, texts, weights, k);
    }
  }

  // ---------------------------------------------------------------------
  // The nested loops of summarizer.py

  lemma SetTwice<K>(t: ScoreTable<K>, k: K, a: real, b: real)
    ensures t.Set(k, a).Set(k, b) == t.Set(k, b)
  {
  }

  lemma {:induction false} AddSentenceStep<K>(t: ScoreTable<K>, k: K, pieces: seq<string>, j: nat, weights: map<string, real>)
    requires j < |pieces|
    ensures AddSentence(t, k, pieces[..j + 1], weights) ==
      var cur := AddSentence(t, k, pieces[..j], weights);
      var word := pieces[j];
      if Lower(word) in weights then
        if k !in cur.score then cur.Set(k, weights[Lower(word)])
        else cur.Set(k, cur.score[k] + weights[Lower(word)])
      else cur
  {
    var prefix := pieces[..j];
    PiecesSnoc(pieces, j, weights);
    if !Matches(prefix, weights) {
      NoMatchScoresZero(prefix, weights);
    } else if Lower(pieces[j]) in weights {
      var base := if k in t.score then t.score[k] else 0.0;
      SetTwice(t, k, base + PiecesScore(prefix, weights), base + PiecesScore(pieces[..j + 1], weights));
    }
  }

  /** One more piece adds its weight and may create a match. */
  lemma PiecesSnoc(pieces: seq<string>, j: nat, weights: map<string, real>)
    requires j < |pieces|
    ensures PiecesScore(pieces[..j + 1], weights) == PiecesScore(pieces[..j], weights) + Weight(pieces[j], weights)
    ensures Matches(pieces[..j + 1], weights) <==> Matches(pieces[..j], weights) || Lower(pieces[j]) in weights
  {
    var prefix, word := pieces[..j], pieces[j];
    assert pieces[..j + 1][..j] == prefix;
    forall p ensures p in pieces[..j + 1] <==> p in prefix || p == word {
      assert pieces[..j + 1] == prefix + [word];
    }
  }

  /** One more sentence: the table of the first i + 1 sentences. */
  lemma ScoredSnoc<K>(keys: seq<K>, texts: seq<string>, weights: map<string, real>, i: nat)
    requires |keys| == |texts| && i < |keys|
    ensures Scored(keys[..i + 1], texts[..i + 1], weights)
         == AddSentence(Scored(keys[..i], texts[..i], weights), keys[i], Split(texts[i]), weights)
  {
    assert keys[..i + 1][..i] == keys[..i] && texts[..i + 1][..i] == texts[..i];
  }

  /** The inner loop: for each space-split piece whose lower-case form is a
      key, create or increase the sentence's entry. */
  method ScorePieces<K>(t: ScoreTable<K>, sent: K, pieces: seq<string>, weights: map<string, real>)
    returns (table: ScoreTable<K>)
    ensures table == AddSentence(t, sent, pieces, weights)
  {
    table := t;
    for j := 0 to |pieces|
      invariant table == AddSentence(t, sent, pieces[..j], weights)
    {
      AddSentenceStep(t, sent, pieces, j, weights);
      var word := pieces[j];
      if Lower(word) in weights {
        if sent !in table.score {
          table := table.Set(sent, weights[Lower(word)]);
        } else {
          table := table.Set(sent, table.score[sent] + weights[Lower(word)]);
        }
      }
    }
    assert pieces[..|pieces|] == pieces;
  }

  /** The outer loop over the sentences, in order. */
  method ScoreSentences<K>(keys: seq<K>, texts: seq<string>, weights: map<string, real>) returns (table: ScoreTable<K>)
    requires |keys| == |texts|
    ensures table == Scored(keys, texts, weights)
    ensures table.Valid()
    ensures forall k :: k in table.score <==> exists i :: ScoredAt(keys, texts, weights, k, i)
    ensures forall k :: k in table.score ==> table.score[k] == ScoreSum(keys, texts, weights, k)
  {
    table := ScoreTable([], map[]);
    for i := 0 to |texts|
      invariant table == Scored(keys[..i], texts[..i], weights)
    {
      table := ScorePieces(table, keys[i], Split(texts[i]), weights);
      ScoredSnoc(keys, texts, weights, i);
    }
    assert keys[..|keys|] == keys && texts[..|texts|] == texts;
    ScoredEntries(keys, texts, weights);
  }
}
