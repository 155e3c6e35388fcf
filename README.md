# yt-sum-flask: the frequency summarizer and the request handler, in Dafny

yt-sum-flask is a Flask service. It fetches the subtitles of a YouTube video
and returns an extractive summary, using one of six summarization
algorithms. This project models its core:

- **The frequency-based extractive summarizer.** Two variants exist:
  `nltk_summarize` and `spacy_summarize` in `summarizer.py`, plus verbatim
  copies in `app.py`. The steps are:
  - count every word token that is neither a stop word nor a substring of
    the punctuation string;
  - divide every count by the largest count;
  - score every sentence by the weights of its space-separated pieces;
  - keep the `int(len(sentences) * percent / 100)` best sentences;
  - join them with single spaces.
- **The `/summarize/` request handler** `transcript_fetched_query`. It checks
  the parameters and the choice, fetches the transcript, replaces every
  newline with a space, dispatches to a summarizer, and maps every
  exception to a JSON reply with an HTTP status.

What the model does, module by module:

- `Wrappers`: `Option` and `Result`.
- `Builtins`: the pieces of Python's `str` the core relies on.
  - ASCII `lower()` and the substring test `x in s`.
  - `split(" ")`, which keeps empty pieces, and `' '.join`.
  - `replace("\n", " ")`.
  - `int(str)`: surrounding whitespace, an optional sign, and digits with
    single underscores between them.
- `Frequency`: the word-frequency dictionary.
  - `CountWords`, `MaxFrequency` and `Normalise` are loops, proved against
    the reference definitions `WordCounts`, `MaxOf` and `Normalised`.
- `Scoring`: the sentence-score dictionary.
  - Python dictionaries keep insertion order, and `nlargest` breaks ties
    by that order. So the table is a `ScoreTable`: its keys in insertion
    order, plus a map from key to score.
  - `ScoreSentences` and `ScorePieces` are the two nested loops, proved
    against the reference definition `Scored`.
- `Selection`: `heapq.nlargest(n, table, key=table.get)`.
  - It keeps the n largest entries by a stable descending sort, so that
    ties keep dictionary order. `n <= 0` gives the empty list.
  - It also gives `select_length` as exact arithmetic truncated toward
    zero, like Python's `int()` of a float.
- `Summarizer`: `NltkSummarize` and `SpacySummarize`.
  - The tokens, the sentences and the stop-word list are inputs.
  - NLTK keys sentences by their text, so repeated identical sentences
    share one entry and add up their scores. spaCy keys them by span,
    modelled as sentence position.
  - `max()` of an empty dictionary and `int(percent)` of a non-integer are
    the two error results.
- `App`: the request handler as a pure function, `TranscriptFetchedQuery`.
  - The transcript service is a parameter `fetch`, returning either the
    formatted transcript or one of the exceptions it can raise.
  - The libraries are a `Toolkit`:
    - the NLTK and spaCy tokenizers and stop-word lists, feeding the
      `Summarizer` model;
    - the gensim and sumy summarizers, as opaque results.

Behaviours the model makes explicit, each proved:

- **Case-sensitive word keys.** Words are counted under their exact
  spelling but looked up lower-cased. A word that only ever appears
  capitalised ("Cats") counts toward the maximum but never adds to a
  sentence's score (`Scoring.ScoredIgnoresMixedCase`).
- **`percent` is never validated by the handler.** A non-integer percent
  reaches the summarizer, which raises. The client then gets the generic
  500 reply, not a 400 (`App.UncheckedPercentIsServerError`).
- **Percent 0 or below gives an empty summary, not an error.**
  `nlargest` of a non-positive count is empty
  (`Summarizer.ShortSelectionIsEmpty`).
- **The summary lists sentences by descending score, not in document
  order.** Among equal scores, the sentences scored first win the places
  at the cut and keep their table order (`Selection.NLargestSorted`,
  `Selection.NLargestStable`, `Scoring.ScoredOrder`).
- **The punctuation filter is a substring test on
  `string.punctuation + "\n"`.** It drops the empty token and tokens such
  as "()" as well as single punctuation characters
  (`Frequency.DroppedByPunctuationFilter`).

A worked illustration of the case-sensitive keys follows. It is worked out
by hand from the code, taking NLTK's tokenizer to split off the periods; it
is not a lemma of the model. The text "Cats are animals. Dogs are animals
too. Cats and dogs are popular pets." at percent 34 selects one sentence,
"Dogs are animals too.", because:

- "Cats" is looked up as "cats", which is not a key, and the piece
  "animals." keeps its period, so the first sentence gets no entry at all;
- the second sentence scores 1.5: 0.5 from "dogs", which is a key because
  of the lower-case token in the third sentence, plus 1 from "animals";
- the third sentence scores 1, from "dogs" and "popular".

## Model

| member | source | states |
|---|---|---|
| Builtins.LowerIdempotent | summarizer.py:111 | lower-casing twice is lower-casing once; this is why lookups only reach lower-case keys |
| Builtins.SplitPiecesHaveNoSpace | summarizer.py:132 | no piece of `split(" ")` contains a space |
| Builtins.JoinSplit | summarizer.py:132 | joining the pieces of `split(" ")` with one space gives back the sentence |
| Builtins.JoinPrefix | summarizer.py:147-148 | joining a list that extends another extends the other's joined string |
| Builtins.ReplaceNewlines | app.py:54 | same length, every newline becomes a space, every other character is unchanged, and no newline is left |
| Builtins.ParseShowInt | summarizer.py:141 | `int()` parses the decimal text of every integer back to that integer |
| Builtins.ParseIntCharacters | summarizer.py:141 | `int()` accepts a string only if it has a digit and every character is white space, a digit, an underscore or a sign |
| Frequency.CountWords | summarizer.py:109-116 | the loop builds exactly WordCounts: a surviving token is a key iff it occurs, and its value is its number of occurrences |
| Frequency.WordCountsSnoc | summarizer.py:110-116 | one more token changes the table at that token only, inserting 1 or incrementing |
| Frequency.WordCountsPositive | summarizer.py:113-116 | every count is at least one |
| Frequency.WordCountsEmpty | summarizer.py:109-119 | the table is empty exactly when no token survives the filters |
| Frequency.DroppedByPunctuationFilter | summarizer.py:105-112 | the empty token and "()" never survive, because the filter is a substring test |
| Frequency.MaximumExists | summarizer.py:119 | a non-empty table has a maximum value |
| Frequency.MaximumIsMaxOf | summarizer.py:119 | the maximum is unique |
| Frequency.MaxFrequency | summarizer.py:119 | `max(values())` is None exactly when the table is empty; otherwise it is the maximum |
| Frequency.Normalise | summarizer.py:122-123 | the loop yields exactly Normalised: same keys, each weight times the maximum is the count |
| Frequency.NormalisedRange | summarizer.py:122-123 | every weight lies in (0, 1] and some weight is exactly 1 |
| Frequency.FrequencyWeightsProperties | summarizer.py:109-123 | weights exist iff some token survives; keys are the surviving spellings; each weight is occurrences divided by the maximum; all in (0, 1] with a 1 |
| Scoring.ScoreTable.Set | summarizer.py:135-138 | assignment keeps the table valid, overwrites the value, and appends a key only when it is new |
| Scoring.ValidSize | summarizer.py:130 | a valid table has one entry per listed key |
| Scoring.Scored | summarizer.py:130-138 | the reference table is valid and holds only keys of sentences |
| Scoring.NoMatchScoresZero | summarizer.py:133-134 | a sentence without a matching piece contributes nothing |
| Scoring.MatchScoresPositive | summarizer.py:133-138 | with positive weights, a sentence with a matching piece gets a positive score |
| Scoring.PiecesScoreNonNegative | summarizer.py:133-138 | with positive weights no sentence scores below zero |
| Scoring.ScoredPresence | summarizer.py:131-136 | a key has an entry iff some sentence under it has a piece whose lower-case form is a word key |
| Scoring.ScoredValue | summarizer.py:131-138 | an entry's value is the sum of the piece weights of all sentences under that key |
| Scoring.ScoredOrder | summarizer.py:130-136 | keys enter the table in the order of their first scored sentence |
| Scoring.FirstScoredExists | summarizer.py:135-136 | every key in the table has a first scored sentence |
| Scoring.ScoreSumDistinct | summarizer.py:131-138 | when all keys are distinct, as spaCy's positions are, each sentence's sum is the sum of its own piece weights |
| Scoring.ScoreSumAbsent | summarizer.py:131-138 | a key no sentence has sums to zero |
| Scoring.ScoreSumRepeated | summarizer.py:131-138 | when sentences are their own keys, the sum for a text adds that text's own score once per occurrence |
| Scoring.LookupsIgnoreMixedCase | summarizer.py:134-138 | only word keys that equal their own lower-case form affect a sentence's score |
| Scoring.ScoredIgnoresMixedCase | summarizer.py:109-138 | the sentence table is the same without keys that are not lower-case |
| Scoring.ScoredEntries | summarizer.py:130-138 | the presence and the value of every entry at once |
| Scoring.ScoredAllMatch | summarizer.py:131-136 | when every sentence has a matching piece, every sentence key has an entry |
| Scoring.AddSentenceStep | summarizer.py:133-138 | one iteration of the inner loop extends the sentence's partial score by one piece |
| Scoring.ScorePieces | summarizer.py:133-138 | the inner loop computes AddSentence |
| Scoring.ScoreSentences | summarizer.py:130-138 | the nested loops build exactly Scored, with presence and values as above |
| Selection.InsertDesc | summarizer.py:144 | insertion keeps the elements (as a multiset) and adds the new one |
| Selection.SortDesc | summarizer.py:144 | sorting is a permutation |
| Selection.InsertDescSorted | summarizer.py:144 | inserting into a descending sequence keeps it descending |
| Selection.SortDescSorted | summarizer.py:144 | the sort result is in descending score order |
| Selection.InsertDescStable | summarizer.py:144 | insertion places the new key before the equal-score keys that follow it in dictionary order |
| Selection.SortDescStable | summarizer.py:144 | for every score, keys with that score come out in dictionary order |
| Selection.NLargest | summarizer.py:144 | every selected key is a table key |
| Selection.NLargestSize | summarizer.py:144 | nlargest returns min(max(n, 0), entries) distinct table keys |
| Selection.NLargestAll | summarizer.py:144 | n at least the table size returns every key exactly once |
| Selection.NLargestPrefix | summarizer.py:144 | a smaller n returns a prefix of a larger n's result |
| Selection.NLargestDominates | summarizer.py:144 | every selected key scores at least as high as every key left out |
| Selection.NLargestSorted | summarizer.py:144 | for every n the selection is in descending score order |
| Selection.WithScorePrefix | summarizer.py:144 | a prefix of a sequence keeps, for every score, a prefix of the elements with that score |
| Selection.NLargestStable | summarizer.py:144 | for every n and every score, the selected keys with that score are the first keys with that score in dictionary order, and all of them when n covers the table |
| Selection.NoDuplicatesCount | summarizer.py:144 | a sequence without repeats holds each element at most once |
| Selection.PermutationKeepsNoDuplicates | summarizer.py:144 | a permutation of a sequence without repeats has none |
| Selection.SelectLength | summarizer.py:141 | `int(count * (percent / 100))`: the exact product truncated toward zero |
| Selection.SelectLengthMonotone | summarizer.py:141 | select_length grows with percent |
| Selection.SelectLengthBounds | summarizer.py:141 | percent <= 0 selects nothing; percent up to 100 selects at most every sentence; 100 gives every sentence; zero exactly when count * percent < 100 |
| Summarizer.SpacySelection | summarizer.py:86 | every selected span is a sentence position |
| Summarizer.NltkSummarize | summarizer.py:96-151 | the NLTK summarizer equals its reference definition, including both error cases |
| Summarizer.SpacySummarize | summarizer.py:35-93 | the spaCy summarizer equals its reference definition SpacySummary, including both error cases; that definition keys spans by position (`Positions`, line 68) and maps the selection to texts (`SpanTexts`, line 89) |
| Summarizer.MaxOfIsPositive | summarizer.py:119-123 | the divisor is positive, so normalising never divides by zero |
| Summarizer.SummaryFailures | summarizer.py:119 | `max()` fails iff no token survives; otherwise `int(percent)` fails iff percent is not an integer (both variants) |
| Summarizer.ShortSelectionIsEmpty | summarizer.py:141-148 | a non-positive select_length gives "" |
| Summarizer.NltkSelectionProperties | summarizer.py:141-148 | selection size, no repeats, only scored sentences, every selected sentence scores at least as high as every one left out, descending score order, and for every score the selected sentences with it are the first ones with it in table order |
| Summarizer.NltkRepeatedSentence | summarizer.py:130-138 | a sentence text that occurs c times has one entry worth c times its own score |
| Summarizer.SpacySelectionProperties | summarizer.py:83-90 | the same for spaCy's spans: size, no repeats, only scored spans, dominance, descending score order, and the tie rule at the cut |
| Summarizer.NltkSelectionMonotone | summarizer.py:141-148 | a smaller percent gives a prefix of a larger percent's summary |
| Summarizer.SpacySelectionMonotone | summarizer.py:83-90 | the same for spaCy |
| Summarizer.SummaryMonotone | summarizer.py:96-151 | for whole calls: both percents succeed or both fail, and the smaller percent's summary is a prefix of the larger's |
| Summarizer.SpacyEverySentenceScored | summarizer.py:72-90 | when every sentence matches, each gets an entry and percent 100 emits every sentence exactly once |
| Summarizer.SpacyTableKeys | summarizer.py:72-80 | then the table's keys are the sentence positions, in some order |
| Summarizer.SamePermutation | summarizer.py:86 | two repeat-free sequences with the same members are permutations of each other |
| App.TranscriptFetchedQuery | app.py:37-125 | every reply is 200, 400 or 500; success iff 200; a response iff success |
| App.FailureReply | app.py:84-105 | every except clause answers with failure and no response; 500 for TooManyRequests and the bare except, 400 otherwise |
| App.DispatchMatchesChoiceList | app.py:47-70 | a choice is in choice_list iff the elif chain dispatches it; each algorithm's name dispatches to it and nothing else does |
| App.MissingParameterReplies | app.py:45-125 | the first missing parameter (id, then percent, then choice) or an invalid choice gets its own message and 400 |
| App.RejectedBeforeFetching | app.py:45-48 | a missing parameter or an invalid choice is answered without fetching or summarizing |
| App.FetchFailureReplies | app.py:53-105 | a failed fetch is answered from its exception alone, with the status of its except clause |
| App.SuccessReply | app.py:53-81 | a success comes from a fetched transcript; the response holds it with newlines as spaces, its length, the chosen summarizer's summary and its length |
| App.NltkRequest | app.py:53-62 | for "nltk-sum" the reply carries exactly the NLTK model's summary, and its errors become the generic 500 |
| App.SpacyRequest | app.py:53-60 | the same for "spacy-sum" and the spaCy model |
| App.UncheckedPercentIsServerError | app.py:45-105 | a non-integer percent passes the handler's checks and ends as the generic 500 |

## Left out

- **The tokenizers and stop-word lists.** These are NLTK's `word_tokenize`,
  `sent_tokenize` and `stopwords.words('english')`, and spaCy's
  `en_core_web_sm` pipeline and `STOP_WORDS`. They are inputs to the
  summarizer model and fields of `App.Toolkit`. They are third-party model
  data, not part of the core.
- **The gensim and sumy summarizers** (`gensim_summarize`,
  `sumy_lsa_summarize`, `sumy_luhn_summarize`, `sumy_text_rank_summarize`).
  They are an oracle in `App.Toolkit`, because they are third-party
  algorithms.
- **Transcript fetching and `TextFormatter`.** These are an oracle, `fetch`,
  because they reach the network.
- **Flask.** Routing, `request.args` and `jsonify` are replaced by `Option`
  parameters and the `Reply` datatype. This is framework code.
- **The `nltk.data.find` probes and `nltk.download` calls** in app.py
  (205-209 and 329-342). They are file-system and network side effects.
- **Missing library data.** `word_tokenize` and `sent_tokenize` raise
  LookupError when NLTK's punkt data is missing, and so does
  `stopwords.words` when the stopwords corpus is missing and its download
  failed (app.py:200-210). `spacy.load('en_core_web_sm')` raises OSError
  when that model is not installed (app.py:146, summarizer.py:44). In the
  source each of these ends as the generic 500 (app.py:102-105). In the
  model the `Toolkit` tokenizers and stop-word lists are total functions,
  so that reply is not modelled.
- App.NltkRequest and App.SpacyRequest: "success iff the model's summary
  succeeds" holds only when the library data is present, as in the line
  above.
- **The copies of `spacy_summarize` and `nltk_summarize` in app.py**
  (137-195, 198-259). They are modelled by the same members as the
  summarizer.py versions, because their text is the same apart from the
  download probe.
- **Floating-point arithmetic.** Weights, scores and `percent / 100` are
  exact reals. So the model does not capture rounding in sums, or a
  `select_length` that rounding pushes just below an integer. Nor does it
  capture OverflowError: `int(percent) / 100` overflows once `int(percent)`
  is above about 1.8e310 (for example "1" followed by 400 zeros), and
  `int()` of an infinite product overflows as well (summarizer.py:83 and
  141, app.py:185 and 249). The source answers such a request with the
  generic 500; the model returns a summary of every scored sentence.
- Summarizer.SummaryMonotone: "both percents succeed or both fail" holds
  for the model only; in the source a percent large enough to overflow a
  float fails while a small one succeeds, as in the line above.
- **Unicode.** `lower()`, the whitespace accepted by `int()`, and the digits
  it accepts are modelled for ASCII only.
- **`heapq.nlargest`'s algorithm.** It is modelled by its documented
  result, a stable sort truncated to n. CPython's heap-based procedure is
  not modelled.
- **The browser front end** (`static/web.js`, `templates/web.js`). It only
  calls the service.
- **Starting the server**, `app.run()` in app.py (345). This is process
  start-up.
- **Summarizer.SpacySummarize** treats a span as equal to another exactly
  when they have the same position. spaCy's own equality of spans is not
  modelled.
