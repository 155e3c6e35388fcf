/** The word-frequency table of the frequency-based summarizer: tokens that
    survive the stop-word and punctuation filters are counted under their
    exact (not lower-cased) text, and every count is then divided by the
    largest one. */
module Frequency {
  import opened Wrappers
  import opened Builtins

  /** Python's `string.punctuation`. */
  const Punctuation: string := "!\"#$%&'()*+,-./:;<=>?@[\\]^_`{|}~"

  /** `punctuation + '\n'`: the filter is a substring test on this string. */
  const PunctuationItems: string := Punctuation + "\n"

  /** A token is counted when its lower-case form is not a stop word and is
      not a substring of the punctuation string. */
  predicate Survives(word: string, stopWords: set<string>)
  {
    Lower(word) !in stopWords && !IsSubstring(Lower(word), PunctuationItems)
  }

  /** Reference definition of the count table: every surviving token, under
      its own spelling, mapped to its number of occurrences. */
  ghost function WordCounts(tokens: seq<string>, stopWords: set<string>): map<string, nat>
  {
    map w | w in tokens && Survives(w, stopWords) :: multiset(tokens)[w]
  }

  ghost predicate IsMaximum(counts: map<string, nat>, m: nat)
  {
    (exists w :: w in counts && counts[w] == m) && (forall w :: w in counts ==> counts[w] <= m)
  }

  /** `max(counts.values())`, defined when the table is not empty. */
  ghost function MaxOf(counts: map<string, nat>): nat
    requires counts != map[]
  {
    MaximumExists(counts);
    var m :| IsMaximum(counts, m); m
  }

  /** Reference definition of the normalised table. */
  ghost function Normalised(counts: map<string, nat>, maxFrequency: nat): map<string, real>
    requires maxFrequency > 0
  {
    map w | w in counts :: counts[w] as real / maxFrequency as real
  }

  /** The weight table, or None when `max()` would raise on an empty table. */
  ghost function FrequencyWeights(tokens: seq<string>, stopWords: set<string>): Option<map<string, real>>
  {
    var counts := WordCounts(tokens, stopWords);
    if counts == map[] then None
    else
      Some(Normalised(counts, MaxOf(counts)))
  }

  // ---------------------------------------------------------------------
  // Lemmas about the reference definitions

  lemma {:induction false} MaximumExists(counts: map<string, nat>)
    requires counts != map[]
    ensures exists m :: IsMaximum(counts, m)
    decreases |counts|
  {
    var w :| w in counts;
    var rest := counts - {w};
    assert counts.Keys == rest.Keys + {w};
    if rest == map[] {
      assert counts.Keys == {w};
      assert IsMaximum(counts, counts[w]);
    } else {
      MaximumExists(rest);
      var m :| IsMaximum(rest, m);
      var v :| v in rest && rest[v] == m;
      var best := if counts[w] > m then counts[w] else m;
      forall u | u in counts ensures counts[u] <= best {
        if u != w { assert u in rest; }
      }
      if counts[w] > m {
        assert IsMaximum(counts, counts[w]);
      } else {
        assert counts[v] == m;
        assert IsMaximum(counts, m);
      }
    }
  }

  /** The maximum is unique, so every maximum found equals MaxOf. */
  lemma MaximumIsMaxOf(counts: map<string, nat>, m: nat)
    requires IsMaximum(counts, m)
    ensures counts != map[] && m == MaxOf(counts)
  {
    var u :| u in counts && counts[u] == m;
    var v :| v in counts && counts[v] == MaxOf(counts);
    assert counts[u] <= MaxOf(counts) && counts[v] <= m;
  }

  /** Appending one token changes the table at that token only. */
  lemma WordCountsSnoc(tokens: seq<string>, w: string, stopWords: set<string>)
    ensures WordCounts(tokens + [w], stopWords) ==
      if Survives(w, stopWords) then
        WordCounts(tokens, stopWords)[w := if w in WordCounts(tokens, stopWords) then WordCounts(tokens, stopWords)[w] + 1 else 1]
      else WordCounts(tokens, stopWords)
  {
    var before, after := WordCounts(tokens, stopWords), WordCounts(tokens + [w], stopWords);
    assert multiset(tokens + [w]) == multiset(tokens) + multiset{w};
    forall u | u in tokens + [w] ensures u in tokens || u == w { }
    if w in before {
      assert multiset(tokens)[w] == before[w];
    } else if Survives(w, stopWords) {
      assert w !in tokens;
      assert multiset(tokens)[w] == 0;
    }
  }

  /** Every count is the number of occurrences of that exact spelling, and it
      is at least one. */
  lemma WordCountsPositive(tokens: seq<string>, stopWords: set<string>)
    ensures forall w :: w in WordCounts(tokens, stopWords) ==> WordCounts(tokens, stopWords)[w] >= 1
  {
    forall w | w in WordCounts(tokens, stopWords) ensures multiset(tokens)[w] >= 1 {
      assert w in multiset(tokens);
    }
  }

  /** The table is empty exactly when no token survives the filters, which is
      when `max()` raises. */
  lemma {:induction false} WordCountsEmpty(tokens: seq<string>, stopWords: set<string>)
    ensures WordCounts(tokens, stopWords) == map[] <==> forall t :: t in tokens ==> !Survives(t, stopWords)
  {
    if exists t :: t in tokens && Survives(t, stopWords) {
      var t :| t in tokens && Survives(t, stopWords);
      assert t in WordCounts(tokens, stopWords);
    }
  }

  /** The empty token and a token like "()" never survive: the punctuation
      filter is a substring test, not a test for a single character. */
  lemma DroppedByPunctuationFilter(stopWords: set<string>)
    ensures !Survives("", stopWords)
    ensures !Survives("()", stopWords)
  {
    assert Lower("") == "";
    EmptyIsSubstring(PunctuationItems);
    assert Lower("()") == "()";
    assert PunctuationItems[7] == '(' && PunctuationItems[8] == ')';
    assert OccursAt("()", PunctuationItems, 7);
  }

  lemma RatioInUnitInterval(a: nat, b: nat)
    requires 1 <= a <= b
    ensures 0.0 < a as real / b as real <= 1.0
  {
    assert a as real / b as real * b as real == a as real;
  }

  lemma RatioOfEqualIsOne(a: nat)
    requires a > 0
    ensures a as real / a as real == 1.0
  {
  }

  /** Normalising by the maximum count gives weights in (0, 1], and a most
      frequent word has weight exactly 1. */
  lemma NormalisedRange(counts: map<string, nat>, maxFrequency: nat)
    requires IsMaximum(counts, maxFrequency) && maxFrequency > 0
    requires forall w :: w in counts ==> counts[w] >= 1
    ensures forall w :: w in Normalised(counts, maxFrequency) ==> 0.0 < Normalised(counts, maxFrequency)[w] <= 1.0
    ensures exists w :: w in Normalised(counts, maxFrequency) && Normalised(counts, maxFrequency)[w] == 1.0
  {
    var weights := Normalised(counts, maxFrequency);
    forall w | w in weights ensures 0.0 < weights[w] <= 1.0 {
      assert w in counts && 1 <= counts[w] <= maxFrequency;
      RatioInUnitInterval(counts[w], maxFrequency);
    }
    var u :| u in counts && counts[u] == maxFrequency;
    RatioOfEqualIsOne(maxFrequency);
    assert weights[u] == 1.0;
  }

  /** The weight table exists exactly when some token survives; its keys are
      the surviving tokens' exact spellings, every weight lies in (0, 1],
      a weight is count/max, and some weight is exactly 1. */
  lemma FrequencyWeightsProperties(tokens: seq<string>, stopWords: set<string>)
    ensures FrequencyWeights(tokens, stopWords).None? <==> forall t :: t in tokens ==> !Survives(t, stopWords)
    ensures FrequencyWeights(tokens, stopWords).Some? ==>
      var weights := FrequencyWeights(tokens, stopWords).value;
      && (forall w :: w in weights <==> w in tokens && Survives(w, stopWords))
      && (forall w :: w in weights ==> 0.0 < weights[w] <= 1.0)
      && (forall w :: w in weights ==> weights[w] == multiset(tokens)[w] as real / MaxOf(WordCounts(tokens, stopWords)) as real)
      && (exists w :: w in weights && weights[w] == 1.0)
  {
    var counts := WordCounts(tokens, stopWords);
    WordCountsEmpty(tokens, stopWords);
    if counts != map[] {
      WordCountsPositive(tokens, stopWords);
      NormalisedRange(counts, MaxOf(counts));
    }
  }

  // ---------------------------------------------------------------------
  // The loops of summarizer.py

  /** The counting loop: insert a surviving token with 1, or increment it. */
  method CountWords(tokens: seq<string>, stopWords: set<string>) returns (counts: map<string, nat>)
    ensures counts == WordCounts(tokens, stopWords)
    ensures forall w :: w in counts <==> w in tokens && Survives(w, stopWords)
    ensures forall w :: w in counts ==> counts[w] == multiset(tokens)[w]
  {
    counts := map[];
    for i := 0 to |tokens|
      invariant counts == WordCounts(tokens[..i], stopWords)
    {
      var word := tokens[i];
      if Lower(word) !in stopWords {
        if !IsSubstring(Lower(word), PunctuationItems) {
          if word !in counts {
            counts := counts[word := 1];
          } else {
            counts := counts[word := counts[word] + 1];
          }
        }
      }
      WordCountsSnoc(tokens[..i], word, stopWords);
      assert tokens[..i + 1] == tokens[..i] + [word];
    }
    assert tokens[..|tokens|] == tokens;
  }

  /** `max(word_frequencies.values())`, which raises on an empty table. */
  method MaxFrequency(counts: map<string, nat>) returns (r: Option<nat>)
    ensures r.None? <==> counts == map[]
    ensures r.Some? ==> IsMaximum(counts, r.value) && r.value == MaxOf(counts)
  {
    var remaining := counts.Keys;
    var best: nat := 0;
    var found := false;
    while remaining != {}
      invariant remaining <= counts.Keys
      invariant found <==> remaining != counts.Keys
      invariant forall w :: w in counts && w !in remaining ==> counts[w] <= best
      invariant found ==> exists w :: w in counts && w !in remaining && counts[w] == best
      decreases remaining
    {
      var w :| w in remaining;
      if !found || counts[w] > best {
        best := counts[w];
      }
      found := true;
      remaining := remaining - {w};
    }
    if !found {
      assert counts.Keys == {};
      return None;
    }
    MaximumIsMaxOf(counts, best);
    return Some(best);
  }

  /** The loop that rewrites every value to `count / max_frequency`. */
  method Normalise(counts: map<string, nat>, maxFrequency: nat) returns (weights: map<string, real>)
    requires maxFrequency > 0
    ensures weights == Normalised(counts, maxFrequency)
    ensures weights.Keys == counts.Keys
    ensures forall w :: w in weights ==> weights[w] * maxFrequency as real == counts[w] as real
  {
    weights := map w | w in counts :: counts[w] as real;
    var remaining := counts.Keys;
    while remaining != {}
      invariant remaining <= counts.Keys
      invariant weights.Keys == counts.Keys
      invariant forall w :: w in counts ==>
        weights[w] == if w in remaining then counts[w] as real else counts[w] as real / maxFrequency as real
      decreases remaining
    {
      var w :| w in remaining;
      weights := weights[w := weights[w] / maxFrequency as real];
      remaining := remaining - {w};
    }
  }
}
