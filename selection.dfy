/** The selection step: `select_length = int(len(sentences) * (int(percent) / 100))`
    and `heapq.nlargest(select_length, sentence_scores, key=sentence_scores.get)`,
    which behaves as `sorted(keys, key=score, reverse=True)[:select_length]`:
    a stable sort by descending score, so equal scores keep dict order. */
module Selection {
  import opened Scoring

  ghost predicate AllScored<K>(s: seq<K>, score: map<K, real>)
  {
    forall y :: y in s ==> y in score
  }

  /** Insert x (which precedes every element of s in dict order) before the
      first element whose score does not exceed x's. */
  function InsertDesc<K>(x: K, s: seq<K>, score: map<K, real>): (r: seq<K>)
    requires x in score && AllScored(s, score)
    ensures multiset(r) == multiset(s) + multiset{x}
    ensures AllScored(r, score)
  {
    if s == [] then [x]
    else if score[s[0]] <= score[x] then [x] + s
    else
      assert AllScored(s[1..], score) by {
        forall y | y in s[1..] ensures y in s { }
      }
      assert s == [s[0]] + s[1..];
      [s[0]] + InsertDesc(x, s[1..], score)
  }

  /** `sorted(s, key=score.get, reverse=True)` */
  function SortDesc<K>(s: seq<K>, score: map<K, real>): (r: seq<K>)
    requires AllScored(s, score)
    ensures multiset(r) == multiset(s)
    ensures AllScored(r, score)
  {
    if s == [] then []
    else
      assert AllScored(s[1..], score) by {
        forall y | y in s[1..] ensures y in s { }
      }
      assert s == [s[0]] + s[1..];
      InsertDesc(s[0], SortDesc(s[1..], score), score)
  }

  /** `heapq.nlargest(n, table, key=table.get)` */
  function NLargest<K>(n: int, t: ScoreTable<K>): (r: seq<K>)
    requires AllScored(t.keys, t.score)
    ensures forall x :: x in r ==> x in t.keys
    ensures AllScored(r, t.score)
  {
    if n <= 0 then []
    else
      var sorted := SortDesc(t.keys, t.score);
      assert |sorted| == |t.keys| by {
        assert |multiset(sorted)| == |multiset(t.keys)|;
      }
      var r := sorted[..if n < |sorted| then n else |sorted|];
      assert forall x :: x in r ==> x in t.keys by {
        forall x | x in r ensures x in t.keys {
          assert x in multiset(sorted);
        }
      }
      r
  }

  /** `int(count * (percent / 100))` on exact numbers: the product truncated
      toward zero. */
  function SelectLength(count: nat, percent: int): (k: int)
    ensures percent >= 0 ==> 0 <= k && k * 100 <= count * percent < (k + 1) * 100
    ensures percent < 0 ==> k <= 0 && (k - 1) * 100 < count * percent <= k * 100
  {
    if percent >= 0 then (count * percent) / 100 else -((count * -percent) / 100)
  }

  // ---------------------------------------------------------------------
  // Specification of the order

  ghost predicate SortedDesc<K>(s: seq<K>, score: map<K, real>)
    requires AllScored(s, score)
  {
    forall i, j :: 0 <= i < j < |s| ==> score[s[i]] >= score[s[j]]
  }

  /** The elements of s whose score is v, in their order in s. */
  ghost function WithScore<K>(s: seq<K>, score: map<K, real>, v: real): seq<K>
    requires AllScored(s, score)
  {
    if s == [] then []
    else
      assert AllScored(s[1..], score) by {
        forall y | y in s[1..] ensures y in s { }
      }
      (if score[s[0]] == v then [s[0]] else []) + WithScore(s[1..], score, v)
  }

  lemma InSorted<K>(r: seq<K>, s: seq<K>, y: K)
    requires multiset(r) == multiset(s) && y in s
    ensures y in r
  {
    assert y in multiset(s);
  }

  lemma {:induction false} InsertDescSorted<K>(x: K, s: seq<K>, score: map<K, real>)
    requires x in score && AllScored(s, score) && SortedDesc(s, score)
    ensures SortedDesc(InsertDesc(x, s, score), score)
  {
    if s != [] && score[s[0]] > score[x] {
      var s0, rest := s[0], s[1..];
      assert AllScored(rest, score) by {
        forall y | y in rest ensures y in s { }
      }
      InsertDescSorted(x, rest, score);
      var tail := InsertDesc(x, rest, score);
      assert InsertDesc(x, s, score) == [s0] + tail;
      forall y | y in tail ensures score[s0] >= score[y] {
        assert y in multiset(tail);
        if y != x {
          assert y in multiset(rest);
          var k :| 0 <= k < |rest| && rest[k] == y;
          assert s[k + 1] == y;
        }
      }
      ConsSorted(s0, tail, score);
    }
  }

  /** An element scoring at least as high as every element of a sorted
      sequence can go in front of it. */
  lemma ConsSorted<K>(x: K, s: seq<K>, score: map<K, real>)
    requires x in score && AllScored(s, score) && SortedDesc(s, score)
    requires forall y :: y in s ==> score[x] >= score[y]
    ensures AllScored([x] + s, score) && SortedDesc([x] + s, score)
  {
    var r := [x] + s;
    forall i, j | 0 <= i < j < |r| ensures score[r[i]] >= score[r[j]] {
      assert r[j] == s[j - 1];
      if i > 0 {
        assert r[i] == s[i - 1];
      } else {
        assert s[j - 1] in s;
      }
    }
  }

  lemma {:induction false} SortDescSorted<K>(s: seq<K>, score: map<K, real>)
    requires AllScored(s, score)
    ensures AllScored(SortDesc(s, score), score)
    ensures SortedDesc(SortDesc(s, score), score)
  {
    if s != [] {
      assert AllScored(s[1..], score) by {
        forall y | y in s[1..] ensures y in s { }
      }
      var rest := SortDesc(s[1..], score);
      SortDescSorted(s[1..], score);
      InsertDescSorted(s[0], rest, score);
    }
  }

  lemma WithScoreCons<K>(a: K, t: seq<K>, score: map<K, real>, v: real)
    requires a in score && AllScored(t, score)
    ensures AllScored([a] + t, score)
    ensures WithScore([a] + t, score, v) == (if score[a] == v then [a] else []) + WithScore(t, score, v)
  {
    assert ([a] + t)[0] == a && ([a] + t)[1..] == t;
  }

  lemma {:induction false} InsertDescStable<K>(x: K, s: seq<K>, score: map<K, real>, v: real)
    requires x in score && AllScored(s, score)
    ensures WithScore(InsertDesc(x, s, score), score, v) == (if score[x] == v then [x] else []) + WithScore(s, score, v)
  {
    if s == [] || score[s[0]] <= score[x] {
      assert InsertDesc(x, s, score) == [x] + s;
      WithScoreCons(x, s, score, v);
    } else {
      var s0, rest := s[0], s[1..];
      assert s == [s0] + rest;
      assert AllScored(rest, score) by {
        forall y | y in rest ensures y in s { }
      }
      var tail := InsertDesc(x, rest, score);
      assert InsertDesc(x, s, score) == [s0] + tail;
      InsertDescStable(x, rest, score, v);
      WithScoreCons(s0, tail, score, v);
      WithScoreCons(s0, rest, score, v);
      var mine: seq<K> := if score[x] == v then [x] else [];
      var first: seq<K> := if score[s0] == v then [s0] else [];
      var others := WithScore(rest, score, v);
      assert first == [] || mine == [];
      calc {
        WithScore([s0] + tail, score, v);
        first + (mine + others);
        { assert first + mine == mine + first; }
        mine + (first + others);
        mine + WithScore(s, score, v);
      }
    }
  }

  /** Stability: for every score value, the elements with that score come out
      in the order they went in. */
  lemma {:induction false} SortDescStable<K>(s: seq<K>, score: map<K, real>, v: real)
    requires AllScored(s, score)
    ensures AllScored(SortDesc(s, score), score)
    ensures WithScore(SortDesc(s, score), score, v) == WithScore(s, score, v)
  {
    SortDescSorted(s, score);
    if s != [] {
      assert AllScored(s[1..], score) by {
        forall y | y in s[1..] ensures y in s { }
      }
      var rest := SortDesc(s[1..], score);
      SortDescStable(s[1..], score, v);
      SortDescSorted(s[1..], score);
      InsertDescStable(s[0], rest, score, v);
    }
  }

  // ---------------------------------------------------------------------
  // What nlargest returns

  /** The selection has min(max(n, 0), number of entries) elements, all
      taken from the table, with no repeats. */
  lemma NLargestSize<K>(n: int, t: ScoreTable<K>)
    requires t.Valid()
    ensures AllScored(t.keys, t.score)
    ensures |NLargest(n, t)| == if n <= 0 then 0 else if n < |t.score| then n else |t.score|
    ensures forall x :: x in NLargest(n, t) ==> x in t.score
    ensures NoDuplicates(NLargest(n, t))
  {
    ValidSize(t);
    var sorted := SortDesc(t.keys, t.score);
    assert |sorted| == |t.keys| by {
      assert |multiset(sorted)| == |multiset(t.keys)|;
    }
    PermutationKeepsNoDuplicates(t.keys, sorted);
    forall x | x in NLargest(n, t) ensures x in t.score {
      assert x in sorted;
      assert x in multiset(t.keys);
    }
  }

  /** An n covering the whole table selects every entry exactly once. */
  lemma NLargestAll<K>(n: int, t: ScoreTable<K>)
    requires AllScored(t.keys, t.score) && n >= |t.keys|
    ensures multiset(NLargest(n, t)) == multiset(t.keys)
  {
    if n > 0 {
      var sorted := SortDesc(t.keys, t.score);
      assert |sorted| == |t.keys| by {
        assert |multiset(sorted)| == |multiset(t.keys)|;
      }
      assert NLargest(n, t) == sorted;
    }
  }

  /** A smaller n selects a prefix of what a larger n selects. */
  lemma NLargestPrefix<K>(n1: int, n2: int, t: ScoreTable<K>)
    requires AllScored(t.keys, t.score) && n1 <= n2
    ensures NLargest(n1, t) <= NLargest(n2, t)
  {
  }

  /** Every selected sentence scores at least as high as every sentence of
      the table that was not selected. */
  lemma NLargestDominates<K>(n: int, t: ScoreTable<K>, x: K, y: K)
    requires AllScored(t.keys, t.score)
    requires x in NLargest(n, t) && y in t.keys && y !in NLargest(n, t)
    ensures x in t.score && t.score[x] >= t.score[y]
  {
    var sorted := SortDesc(t.keys, t.score);
    SortDescSorted(t.keys, t.score);
    assert |sorted| == |t.keys| by {
      assert |multiset(sorted)| == |multiset(t.keys)|;
    }
    var m := if n < |sorted| then n else |sorted|;
    assert NLargest(n, t) == sorted[..m];
    InSorted(sorted, t.keys, y);
    var iy :| 0 <= iy < |sorted| && sorted[iy] == y;
    var ix :| 0 <= ix < m && sorted[..m][ix] == x;
    assert forall k :: 0 <= k < m ==> sorted[k] != y by {
      forall k | 0 <= k < m ensures sorted[k] != y {
        assert sorted[..m][k] == sorted[k];
      }
    }
    assert sorted[ix] == x;
  }

  /** The selection is in descending score order. */
  lemma NLargestSorted<K>(n: int, t: ScoreTable<K>)
    requires AllScored(t.keys, t.score)
    ensures SortedDesc(NLargest(n, t), t.score)
  {
    if n > 0 {
      var sorted := SortDesc(t.keys, t.score);
      SortDescSorted(t.keys, t.score);
      assert |sorted| == |t.keys| by {
        assert |multiset(sorted)| == |multiset(t.keys)|;
      }
      var m := if n < |sorted| then n else |sorted|;
      assert NLargest(n, t) == sorted[..m];
    }
  }

  /** Taking a prefix keeps, for every score, a prefix of the elements
      with that score. */
  lemma {:induction false} WithScorePrefix<K>(s: seq<K>, m: nat, score: map<K, real>, v: real)
    requires AllScored(s, score) && m <= |s|
    ensures AllScored(s[..m], score)
    ensures WithScore(s[..m], score, v) <= WithScore(s, score, v)
  {
    assert AllScored(s[..m], score) by {
      forall y | y in s[..m] ensures y in s { }
    }
    if m > 0 {
      assert AllScored(s[1..], score) by {
        forall y | y in s[1..] ensures y in s { }
      }
      WithScorePrefix(s[1..], m - 1, score, v);
      assert s[..m] == [s[0]] + s[1..][..m - 1];
      assert s == [s[0]] + s[1..];
      WithScoreCons(s[0], s[1..][..m - 1], score, v);
      WithScoreCons(s[0], s[1..], score, v);
    }
  }

  /** The tie rule: for every score, the selected entries with that score
      are the first ones with that score in dict order, and selecting the
      whole table keeps all of them in dict order. */
  lemma NLargestStable<K>(n: int, t: ScoreTable<K>, v: real)
    requires AllScored(t.keys, t.score)
    ensures WithScore(NLargest(n, t), t.score, v) <= WithScore(t.keys, t.score, v)
    ensures n >= |t.keys| ==> WithScore(NLargest(n, t), t.score, v) == WithScore(t.keys, t.score, v)
  {
    if n > 0 {
      var sorted := SortDesc(t.keys, t.score);
      assert |sorted| == |t.keys| by {
        assert |multiset(sorted)| == |multiset(t.keys)|;
      }
      var m := if n < |sorted| then n else |sorted|;
      assert NLargest(n, t) == sorted[..m];
      SortDescStable(t.keys, t.score, v);
      WithScorePrefix(sorted, m, t.score, v);
      if n >= |t.keys| {
        assert sorted[..m] == sorted;
      }
    }
  }

  lemma PermutationKeepsNoDuplicates<K>(s: seq<K>, r: seq<K>)
    requires multiset(s) == multiset(r) && NoDuplicates(s)
    ensures NoDuplicates(r)
  {
    forall i, j | 0 <= i < j < |r| ensures r[i] != r[j] {
      if r[i] == r[j] {
        var x := r[i];
        assert multiset(r)[x] >= 2 by {
          var without := r[..i] + r[i + 1..];
          assert r == r[..i] + [x] + r[i + 1..];
          assert x in r[i + 1..] by { assert r[i + 1..][j - i - 1] == x; }
          assert multiset(r) == multiset(r[..i]) + multiset{x} + multiset(r[i + 1..]);
        }
        NoDuplicatesCount(s, x);
      }
    }
  }

  lemma {:induction false} NoDuplicatesCount<K>(s: seq<K>, x: K)
    requires NoDuplicates(s)
    ensures multiset(s)[x] <= 1
  {
    if s != [] {
      assert s == [s[0]] + s[1..];
      assert NoDuplicates(s[1..]) by {
        forall i, j | 0 <= i < j < |s[1..]| ensures s[1..][i] != s[1..][j] {
          assert s[i + 1] != s[j + 1];
        }
      }
      NoDuplicatesCount(s[1..], x);
      if s[0] == x {
        assert x !in s[1..] by {
          forall k | 0 <= k < |s[1..]| ensures s[1..][k] != x {
            assert s[k + 1] != s[0];
          }
        }
      }
    }
  }

  // ---------------------------------------------------------------------
  // Selection length

  /** A larger percent never selects fewer sentences. */
  lemma SelectLengthMonotone(count: nat, p1: int, p2: int)
    requires p1 <= p2
    ensures SelectLength(count, p1) <= SelectLength(count, p2)
  {
    assert count * p1 <= count * p2 by {
      assert count * (p2 - p1) >= 0;
    }
  }

  /** A percent of 0 or below selects nothing; a percent in [0, 100] selects
      at most every sentence; 100 selects every sentence. */
  lemma SelectLengthBounds(count: nat, percent: int)
    ensures percent <= 0 ==> SelectLength(count, percent) <= 0
    ensures 0 <= percent <= 100 ==> SelectLength(count, percent) <= count
    ensures SelectLength(count, 100) == count
    ensures percent >= 0 ==> (SelectLength(count, percent) == 0 <==> count * percent < 100)
  {
    var k := SelectLength(count, percent);
    var product := count * percent;
    if percent < 0 {
      assert count * -percent >= 0;
    } else {
      assert product >= 0;
      assert k * 100 <= product < (k + 1) * 100;
      if percent <= 100 {
        assert product <= count * 100 by {
          assert count * (100 - percent) >= 0;
        }
        assert k * 100 < (count + 1) * 100;
      }
      if product < 100 {
        assert k * 100 < 100;
      }
    }
    assert (count * 100) / 100 == count;
  }
}
