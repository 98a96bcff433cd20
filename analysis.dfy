/**
 * `generateEpisodeAnalysis`: which analysis a request gets and where it says it came from. The
 * result of `requestEpisodeAnalysis` is an outcome given as a parameter, so that the rejected
 * branch can be stated; `GenerateEpisodeAnalysis` then plugs in the language-model cascade,
 * which never rejects.
 */
module Analysis {
  import opened Wrappers
  import opened Episode
  import opened Heuristics
  import opened Llm

  datatype Source = LlmSource | HeuristicSource

  datatype AnalysisResult = AnalysisResult(analysis: EpisodeAnalysis, source: Source, error: Option<string>)

  /** A thrown value: an `Error` with its message, or anything else. */
  datatype Thrown = ErrorObject(message: string) | NonError

  /** How the awaited request ends. */
  datatype RequestOutcome = Resolved(value: EpisodeAnalysis) | Rejected(thrown: Thrown)

  const NoTranscriptSummary := "No transcript provided."
  const UnknownAnalysisError := "Unknown analysis error"

  /** `error instanceof Error ? error.message : fallback`. */
  function MessageOr(thrown: Thrown, fallback: string): (m: string)
    ensures thrown.ErrorObject? ==> m == thrown.message
    ensures thrown.NonError? ==> m == fallback
  {
    match thrown
    case ErrorObject(message) => message
    case NonError => fallback
  }

  /** The decision, with the heuristic analysis and the request's outcome as inputs. */
  function Decide(transcript: seq<TranscriptEntry>, available: bool, heuristic: EpisodeAnalysis, request: RequestOutcome): AnalysisResult {
    if transcript == [] then
      AnalysisResult(EpisodeAnalysis([], Some(NoTranscriptSummary), None), HeuristicSource, None)
    else if !available then
      AnalysisResult(heuristic, HeuristicSource, None)
    else
      match request
      case Resolved(a) => AnalysisResult(a, LlmSource, None)
      case Rejected(thrown) => AnalysisResult(heuristic, HeuristicSource, Some(MessageOr(thrown, UnknownAnalysisError)))
  }

  /** The decision for a transcript and meta, given how the request would end. */
  function DecideAnalysis(transcript: seq<TranscriptEntry>, meta: Option<EpisodeMeta>, available: bool, request: RequestOutcome): AnalysisResult {
    Decide(transcript, available, HeuristicAnalysis(transcript, meta, DefaultLimit), request)
  }

  /** An empty transcript gets no pairs and the fixed summary, whatever the request would do. */
  lemma EmptyTranscript(transcript: seq<TranscriptEntry>, meta: Option<EpisodeMeta>, available: bool, request: RequestOutcome)
    requires transcript == []
    ensures DecideAnalysis(transcript, meta, available, request)
            == AnalysisResult(EpisodeAnalysis([], Some(NoTranscriptSummary), None), HeuristicSource, None)
  {
  }

  /** Without a configured model the heuristic analysis is used and the request is not made. */
  lemma NotAvailable(transcript: seq<TranscriptEntry>, meta: Option<EpisodeMeta>, request: RequestOutcome)
    requires transcript != []
    ensures DecideAnalysis(transcript, meta, false, request)
            == AnalysisResult(HeuristicAnalysis(transcript, meta, DefaultLimit), HeuristicSource, None)
  {
  }

  /**
   * With a non-empty transcript and a configured model the source is `llm` exactly when the
   * request resolves; a rejection gives the heuristic analysis with the thrown message.
   */
  lemma RequestDecides(transcript: seq<TranscriptEntry>, meta: Option<EpisodeMeta>, request: RequestOutcome)
    requires transcript != []
    ensures var r := DecideAnalysis(transcript, meta, true, request);
            (r.source == LlmSource <==> request.Resolved?)
            && (request.Resolved? ==> r.analysis == request.value && r.error.None?)
            && (request.Rejected? ==> r.analysis == HeuristicAnalysis(transcript, meta, DefaultLimit)
                                      && r.error == Some(MessageOr(request.thrown, UnknownAnalysisError)))
  {
  }

  /** An error is reported only for a rejected request, and a thrown value that is not an `Error` is reported with the fixed message. */
  lemma ErrorOnlyOnRejection(transcript: seq<TranscriptEntry>, meta: Option<EpisodeMeta>, available: bool, request: RequestOutcome)
    ensures var r := DecideAnalysis(transcript, meta, available, request);
            r.error.Some? ==> request.Rejected? && transcript != [] && available && r.source == HeuristicSource
    ensures request == Rejected(NonError) && transcript != [] && available ==>
              DecideAnalysis(transcript, meta, available, request).error == Some(UnknownAnalysisError)
  {
  }

  /** `generateEpisodeAnalysis` with the language-model request of the model above. */
  function GenerateEpisodeAnalysis(transcript: seq<TranscriptEntry>, meta: Option<EpisodeMeta>, configured: bool, limit: int,
                                   respond: PromptInput -> ProviderReply, parse: string -> ParsedReply): AnalysisResult
  {
    DecideAnalysis(transcript, meta, configured, Resolved(RequestEpisodeAnalysis(transcript, meta, configured, limit, respond, parse)))
  }

  /**
   * Because the request catches every failure, a configured model always reports `llm` for a
   * non-empty transcript, even when the analysis is the heuristic fallback; and no error is ever
   * attached.
   */
  lemma GenerateSource(transcript: seq<TranscriptEntry>, meta: Option<EpisodeMeta>, configured: bool, limit: int,
                       respond: PromptInput -> ProviderReply, parse: string -> ParsedReply)
    ensures var r := GenerateEpisodeAnalysis(transcript, meta, configured, limit, respond, parse);
            (r.source == LlmSource <==> configured && transcript != []) && r.error.None?
  {
  }

  /** A silent fallback is still labelled `llm`: an unanswered request on a non-empty transcript. */
  lemma SilentFallbackLabelledLlm(transcript: seq<TranscriptEntry>, meta: Option<EpisodeMeta>, limit: int,
                                  respond: PromptInput -> ProviderReply, parse: string -> ParsedReply)
    requires transcript != [] && !Answered(transcript, meta, true, limit, respond, parse)
    ensures var r := GenerateEpisodeAnalysis(transcript, meta, true, limit, respond, parse);
            r.source == LlmSource && r.analysis == HeuristicAnalysis(transcript, meta, DefaultLimit)
  {
    FallsBackToHeuristic(transcript, meta, true, limit, respond, parse);
  }
}
