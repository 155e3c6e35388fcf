/** The `/summarize/` request handler of app.py: parameter checks, the
    choice list, the transcript fetch and its exceptions, the dispatch to a
    summarizer, and the JSON reply with its HTTP status. The transcript
    service and the third-party summarizers are oracles passed as
    functions; NLTK's and spaCy's frequency summarizers use the model of
    the Summarizer module, fed by tokenizer oracles. */
module App {
  import opened Wrappers
  import opened Builtins
  import opened Summarizer

  datatype Algorithm = Gensim | Spacy | Nltk | SumyLsa | SumyLuhn | SumyTextRank

  /** The accepted values of the `choice` parameter. */
  const ChoiceList: seq<string> :=
    ["gensim-sum", "spacy-sum", "nltk-sum", "sumy-lsa-sum", "sumy-luhn-sum", "sumy-text-rank-sum"]

  function Name(a: Algorithm): string
  {
    match a
    case Gensim => "gensim-sum"
    case Spacy => "spacy-sum"
    case Nltk => "nltk-sum"
    case SumyLsa => "sumy-lsa-sum"
    case SumyLuhn => "sumy-luhn-sum"
    case SumyTextRank => "sumy-text-rank-sum"
  }

  /** The `if choice == ... elif ...` chain; None is its final `else`. */
  function Dispatch(choice: string): Option<Algorithm>
  {
    if choice == "gensim-sum" then Some(Gensim)
    else if choice == "spacy-sum" then Some(Spacy)
    else if choice == "nltk-sum" then Some(Nltk)
    else if choice == "sumy-lsa-sum" then Some(SumyLsa)
    else if choice == "sumy-luhn-sum" then Some(SumyLuhn)
    else if choice == "sumy-text-rank-sum" then Some(SumyTextRank)
    else None
  }

  /** What `YouTubeTranscriptApi.get_transcript` followed by
      `TextFormatter().format_transcript` produces: the formatted text, or
      the exception it raises. */
  datatype FetchOutcome =
    | Transcript(text: string)
    | VideoUnavailable
    | TooManyRequests
    | TranscriptsDisabled
    | NoTranscriptAvailable
    | NoTranscriptFound
    | OtherFailure

  /** The libraries the summarizers call. For NLTK and spaCy only the
      tokenizers and stop-word lists are oracles; the other four
      summarizers are oracles as a whole, None meaning that they raised. */
  datatype Toolkit = Toolkit(
    nltkWords: string -> seq<string>,
    nltkSentences: string -> seq<string>,
    nltkStopWords: set<string>,
    spacyTokens: string -> seq<string>,
    spacySentences: string -> seq<string>,
    spacyStopWords: set<string>,
    library: (Algorithm, string, string) -> Option<string>)

  /** The summary, or None when the summarizer raised. */
  ghost function Summarize(kit: Toolkit, a: Algorithm, text: string, percent: string): Option<string>
  {
    match a
    case Nltk =>
      var r := NltkSummary(kit.nltkWords(text), kit.nltkSentences(text), kit.nltkStopWords, percent);
      if r.Success? then Some(r.value) else None
    case Spacy =>
      var r := SpacySummary(kit.spacyTokens(text), kit.spacySentences(text), kit.spacyStopWords, percent);
      if r.Success? then Some(r.value) else None
    case _ => kit.library(a, text, percent)
  }

  datatype ResponseItem = ResponseItem(
    fetchedTranscript: string,
    processedSummary: string,
    lengthOriginal: nat,
    lengthSummary: nat)

  /** `jsonify(success=..., message=..., response=...), status` */
  datatype Reply = Reply(success: bool, message: string, response: Option<ResponseItem>, status: int)

  const NoVideoIdMessage: string := "No Video ID Passed. Please check that you have added id in your request correctly."
  const NoPercentMessage: string := "No Percentage Value given in request. Please check whether your request is correct."
  const NoChoiceMessage: string := "No Choice given in request. Please request along with your choice correctly."
  const InvalidChoiceMessage: string := "Invalid Choice: Please create your request with correct choice."
  const SuccessMessage: string := "Subtitles for this video was fetched and summarized successfully."
  const VideoUnavailableMessage: string := "VideoUnavailable: The video is no longer available."
  const TooManyRequestsMessage: string :=
    "TooManyRequests: YouTube is receiving too many requests from this IP. Wait until the ban on server has been lifted."
  const TranscriptsDisabledMessage: string := "TranscriptsDisabled: Subtitles are disabled for this video."
  const NoTranscriptAvailableMessage: string := "NoTranscriptAvailable: No transcripts are available for this video."
  const NoTranscriptFoundMessage: string := "NoTranscriptAvailable: No transcripts were found."
  const GenericErrorMessage: string :=
    "Some error occurred. Contact the administrator if it is happening too frequently."

  function Rejected(message: string, status: int): Reply
  {
    Reply(false, message, None, status)
  }

  /** The `except` clauses, in order. An exception from the summarizer, or
      any other exception, reaches the bare `except`. */
  function FailureReply(outcome: FetchOutcome): (r: Reply)
    ensures !r.success && r.response.None?
    ensures r.status == (if outcome.TooManyRequests? || outcome.OtherFailure? || outcome.Transcript? then 500 else 400)
  {
    match outcome
    case VideoUnavailable =>
      Rejected(VideoUnavailableMessage, 400)
    case TooManyRequests =>
      Rejected(TooManyRequestsMessage, 500)
    case TranscriptsDisabled =>
      Rejected(TranscriptsDisabledMessage, 400)
    case NoTranscriptAvailable =>
      Rejected(NoTranscriptAvailableMessage, 400)
    case NoTranscriptFound =>
      Rejected(NoTranscriptFoundMessage, 400)
    case _ =>
      Rejected(GenericErrorMessage, 500)
  }

  /** The body of the `try`: summarize the fetched text. Dispatch cannot
      return None here; in the source `len(None)` would raise, and the bare
      `except` would answer with the generic error. */
  ghost function Summarized(kit: Toolkit, choice: string, raw: string, percent: string): Reply
  {
    var formatted := ReplaceNewlines(raw);
    match Dispatch(choice)
    case None => Rejected(GenericErrorMessage, 500)
    case Some(a) =>
      match Summarize(kit, a, formatted, percent)
      case None => Rejected(GenericErrorMessage, 500)
      case Some(summary) =>
        Reply(true, SuccessMessage, Some(ResponseItem(formatted, summary, |formatted|, |summary|)), 200)
  }

  /** `transcript_fetched_query`: the query parameters are None when absent.
      Every reply is 200, 400 or 500; it succeeds exactly when its status is
      200, and only a success carries a response. */
  ghost function TranscriptFetchedQuery(
    videoId: Option<string>, percent: Option<string>, choice: Option<string>,
    fetch: string -> FetchOutcome, kit: Toolkit): (r: Reply)
    ensures r.status == 200 || r.status == 400 || r.status == 500
    ensures r.success <==> r.status == 200
    ensures r.success <==> r.response.Some?
  {
    if videoId.Some? && percent.Some? && choice.Some? then
      if choice.value in ChoiceList then
        match fetch(videoId.value)
        case Transcript(raw) => Summarized(kit, choice.value, raw, percent.value)
        case _ => FailureReply(fetch(videoId.value))
      else
        Rejected(InvalidChoiceMessage, 400)
    else if videoId.None? then
      Rejected(NoVideoIdMessage, 400)
    else if percent.None? then
      Rejected(NoPercentMessage, 400)
    else
      Rejected(NoChoiceMessage, 400)
  }

  // ---------------------------------------------------------------------
  // The choice list and the dispatch chain agree

  /** A choice is accepted exactly when the dispatch chain knows it, each
      algorithm's name dispatches to it, and nothing else does. */
  lemma DispatchMatchesChoiceList(choice: string, a: Algorithm)
    ensures choice in ChoiceList <==> Dispatch(choice).Some?
    ensures Name(a) in ChoiceList && Dispatch(Name(a)) == Some(a)
    ensures Dispatch(choice) == Some(a) ==> choice == Name(a)
  {
    assert ChoiceList == [Name(Gensim), Name(Spacy), Name(Nltk), Name(SumyLsa), Name(SumyLuhn), Name(SumyTextRank)];
  }

  // ---------------------------------------------------------------------
  // What the handler promises

  /** A missing parameter is reported, the first one missing in the order
      id, percent, choice, with status 400. */
  lemma MissingParameterReplies(
    videoId: Option<string>, percent: Option<string>, choice: Option<string>,
    fetch: string -> FetchOutcome, kit: Toolkit)
    ensures var r := TranscriptFetchedQuery(videoId, percent, choice, fetch, kit);
      && (videoId.None? ==> r == Rejected(NoVideoIdMessage, 400))
      && (videoId.Some? && percent.None? ==> r == Rejected(NoPercentMessage, 400))
      && (videoId.Some? && percent.Some? && choice.None? ==> r == Rejected(NoChoiceMessage, 400))
      && (videoId.Some? && percent.Some? && choice.Some? && choice.value !in ChoiceList ==>
            r == Rejected(InvalidChoiceMessage, 400))
  {
  }

  /** A request that lacks a parameter or names an unknown choice is
      answered without fetching and without summarizing: the reply does not
      depend on the transcript service or the libraries. */
  lemma RejectedBeforeFetching(
    videoId: Option<string>, percent: Option<string>, choice: Option<string>,
    fetch1: string -> FetchOutcome, kit1: Toolkit, fetch2: string -> FetchOutcome, kit2: Toolkit)
    requires videoId.None? || percent.None? || choice.None? || choice.value !in ChoiceList
    ensures TranscriptFetchedQuery(videoId, percent, choice, fetch1, kit1)
         == TranscriptFetchedQuery(videoId, percent, choice, fetch2, kit2)
    ensures !TranscriptFetchedQuery(videoId, percent, choice, fetch1, kit1).success
  {
  }

  /** A failed fetch is answered from the exception alone: 500 for
      TooManyRequests and unknown failures, 400 for the other four. */
  lemma FetchFailureReplies(videoId: string, percent: string, choice: string,
    fetch: string -> FetchOutcome, kit: Toolkit)
    requires choice in ChoiceList && !fetch(videoId).Transcript?
    ensures var r := TranscriptFetchedQuery(Some(videoId), Some(percent), Some(choice), fetch, kit);
      && r == FailureReply(fetch(videoId))
      && !r.success
      && r.status == (if fetch(videoId).TooManyRequests? || fetch(videoId).OtherFailure? then 500 else 400)
  {
  }

  /** A success is a fetched transcript summarized by the chosen
      algorithm: the response holds the transcript with every newline
      turned into a space, its length, the summary and its length. */
  lemma SuccessReply(
    videoId: Option<string>, percent: Option<string>, choice: Option<string>,
    fetch: string -> FetchOutcome, kit: Toolkit)
    requires TranscriptFetchedQuery(videoId, percent, choice, fetch, kit).success
    ensures videoId.Some? && percent.Some? && choice.Some? && choice.value in ChoiceList
    ensures fetch(videoId.value).Transcript?
    ensures var raw := fetch(videoId.value).text;
      var r := TranscriptFetchedQuery(videoId, percent, choice, fetch, kit);
      var a := Dispatch(choice.value);
      && a.Some?
      && r.message == SuccessMessage
      && r.response.Some?
      && r.response.value.fetchedTranscript == ReplaceNewlines(raw)
      && '\n' !in r.response.value.fetchedTranscript
      && r.response.value.lengthOriginal == |raw|
      && Summarize(kit, a.value, ReplaceNewlines(raw), percent.value) == Some(r.response.value.processedSummary)
      && r.response.value.lengthSummary == |r.response.value.processedSummary|
  {
    var f := fetch(videoId.value);
    if !f.Transcript? {
      var _ := FailureReply(f);
      assert false;
    }
  }

  /** With choice "nltk-sum" and a fetched transcript, the reply is the
      NLTK frequency summary of the formatted text, and any exception the
      summarizer raises (no surviving word, a percent that is not an
      integer) becomes the generic 500 reply. */
  lemma NltkRequest(videoId: string, percent: string, fetch: string -> FetchOutcome, kit: Toolkit)
    requires fetch(videoId).Transcript?
    ensures var formatted := ReplaceNewlines(fetch(videoId).text);
      var s := NltkSummary(kit.nltkWords(formatted), kit.nltkSentences(formatted), kit.nltkStopWords, percent);
      var r := TranscriptFetchedQuery(Some(videoId), Some(percent), Some("nltk-sum"), fetch, kit);
      && (r.success <==> s.Success?)
      && (s.Success? ==> r.response == Some(ResponseItem(formatted, s.value, |formatted|, |s.value|)))
      && (s.Failure? ==> r == Rejected(GenericErrorMessage, 500))
  {
    assert "nltk-sum" == ChoiceList[2];
    assert Dispatch("nltk-sum") == Some(Nltk);
  }

  /** The same for choice "spacy-sum" and spaCy's summarizer. */
  lemma SpacyRequest(videoId: string, percent: string, fetch: string -> FetchOutcome, kit: Toolkit)
    requires fetch(videoId).Transcript?
    ensures var formatted := ReplaceNewlines(fetch(videoId).text);
      var s := SpacySummary(kit.spacyTokens(formatted), kit.spacySentences(formatted), kit.spacyStopWords, percent);
      var r := TranscriptFetchedQuery(Some(videoId), Some(percent), Some("spacy-sum"), fetch, kit);
      && (r.success <==> s.Success?)
      && (s.Success? ==> r.response == Some(ResponseItem(formatted, s.value, |formatted|, |s.value|)))
      && (s.Failure? ==> r == Rejected(GenericErrorMessage, 500))
  {
    assert "spacy-sum" == ChoiceList[1];
    assert Dispatch("spacy-sum") == Some(Spacy);
  }

  /** The percent parameter is not checked by the handler: a percent that
      is not an integer is only noticed inside the summarizer, and the
      client gets the generic 500 rather than a 400. */
  lemma UncheckedPercentIsServerError(videoId: string, percent: string, fetch: string -> FetchOutcome, kit: Toolkit)
    requires fetch(videoId).Transcript? && ParseInt(percent).None?
    ensures TranscriptFetchedQuery(Some(videoId), Some(percent), Some("nltk-sum"), fetch, kit)
         == Rejected(GenericErrorMessage, 500)
    ensures TranscriptFetchedQuery(Some(videoId), Some(percent), Some("spacy-sum"), fetch, kit)
         == Rejected(GenericErrorMessage, 500)
  {
    NltkRequest(videoId, percent, fetch, kit);
    SpacyRequest(videoId, percent, fetch, kit);
    var formatted := ReplaceNewlines(fetch(videoId).text);
    SummaryFailures(kit.nltkWords(formatted), kit.nltkSentences(formatted), kit.nltkStopWords, percent);
    SummaryFailures(kit.spacyTokens(formatted), kit.spacySentences(formatted), kit.spacyStopWords, percent);
  }
}
