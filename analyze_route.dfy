/**
 * The `/analyze` routes as functions from a request to a reply. The metadata lookup and the
 * language-model provider are parameters (`Services`); the rest (validation, caption parsing,
 * transcript cleaning, the analysis and its fallback) is the model of the modules above.
 * `error instanceof Error` is the `Thrown` datatype of the analysis module.
 */
module AnalyzeRoute {
  import opened Wrappers
  import opened Text
  import opened Episode
  import opened Heuristics
  import opened Llm
  import opened Analysis
  import opened WebVtt
  import opened YouTube

  /** How `fetchVideoMeta` ends: with a record (it never yields `null`) or by throwing. */
  datatype MetaReply = MetaFound(meta: EpisodeMeta) | MetaThrows(thrown: Thrown)

  /** Everything the handlers call that lies outside the model. */
  datatype Services = Services(
    fetchMeta: string -> MetaReply,
    configured: bool,
    limit: int,
    respond: PromptInput -> ProviderReply,
    parse: string -> ParsedReply)

  /**
   * A JSON reply. Every body that carries an analysis also carries its `highlightPairs` at the
   * top level; that copy is always the analysis's own list and is not repeated here.
   */
  datatype Body =
    | Preview(meta: EpisodeMeta, analysis: EpisodeAnalysis, message: string)
    | NoCaptions(meta: EpisodeMeta, message: string)
    | Fallback(meta: EpisodeMeta, analysis: EpisodeAnalysis, message: string)
    | Analysed(meta: EpisodeMeta, analysis: EpisodeAnalysis, source: Source, warning: Option<string>)

  datatype Reply = BadRequest(error: string) | ServerError(error: string) | Ok(body: Body)

  const MissingQueryId := "Missing videoId query parameter."
  const MissingBodyId := "Missing videoId in request body."
  const NoEntries := "Transcript must contain at least one entry."
  const EmptyAfterCleaning := "Transcript entries were empty after cleaning."
  const GetFailed := "Unable to analyze video."
  const PostFailed := "Analysis failed."
  const LlmPreview := "Used available captions for a quick preview. Whisper capture will add more detail."
  const LocalPreview := "Quick preview generated locally. Whisper capture will refine the highlights."
  const NoCaptionsFound := "No captions found. Play the video and let Whisper capture live audio for highlights."
  const NoPairs := "Unable to create highlight pairs automatically."

  // GET /analyze?videoId=…

  /** The analysis a handler asks for, given the transcript and the metadata found. */
  type Analyser = (seq<TranscriptEntry>, EpisodeMeta) -> AnalysisResult

  /** The GET handler with the metadata lookup, the captions lookup and the analysis as parameters. */
  function GetReply(query: Option<string>, fetchMeta: string -> MetaReply, captions: string -> Option<string>, analyse: Analyser): Reply {
    if query.None? || Trim(query.value) == [] then BadRequest(MissingQueryId)
    else
      var videoId := Trim(query.value);
      match fetchMeta(videoId)
      case MetaThrows(thrown) => ServerError(MessageOr(thrown, GetFailed))
      case MetaFound(meta) =>
        var vtt := captions(videoId);
        if vtt.Some? && vtt.value != [] && ParseWebVTTSpec(vtt.value) != [] then
          var r := analyse(ParseWebVTTSpec(vtt.value), meta);
          Ok(Preview(meta, r.analysis, if r.source == LlmSource then LlmPreview else LocalPreview))
        else
          Ok(NoCaptions(meta, NoCaptionsFound))
  }

  /** `generateEpisodeAnalysis` with the services' provider. */
  function Generate(svc: Services): Analyser {
    (t: seq<TranscriptEntry>, meta: EpisodeMeta) => GenerateEpisodeAnalysis(t, Some(meta), svc.configured, svc.limit, svc.respond, svc.parse)
  }

  /** The GET handler of the program, which asks `fetchCaptionsWebVTT` for captions. */
  function HandleGet(query: Option<string>, svc: Services): Reply {
    GetReply(query, svc.fetchMeta, FetchCaptionsWebVTT, Generate(svc))
  }

  /** A missing or all-whitespace `videoId` is refused before anything is looked up. */
  lemma GetRefusesMissingId(query: Option<string>, fetchMeta: string -> MetaReply, captions: string -> Option<string>, analyse: Analyser)
    ensures GetReply(query, fetchMeta, captions, analyse) == BadRequest(MissingQueryId)
            <==> query.None? || AllSpaces(query.value)
  {
    if query.Some? {
      TrimEmptyIff(query.value);
    }
  }

  /**
   * Past validation, a preview is produced exactly when the captions parse to at least one
   * entry; otherwise the reply is the metadata with the no-captions message.
   */
  lemma GetPreviewIff(query: Option<string>, fetchMeta: string -> MetaReply, captions: string -> Option<string>, analyse: Analyser)
    requires query.Some? && !AllSpaces(query.value)
    requires fetchMeta(Trim(query.value)).MetaFound?
    ensures var vtt := captions(Trim(query.value));
            var meta := fetchMeta(Trim(query.value)).meta;
            var reply := GetReply(query, fetchMeta, captions, analyse);
            (reply.Ok? && reply.body.Preview? <==> vtt.Some? && ParseWebVTTSpec(vtt.value) != [])
            && (reply.Ok? && reply.body.Preview? ==>
                  var r := analyse(ParseWebVTTSpec(vtt.value), meta);
                  reply.body.meta == meta && reply.body.analysis == r.analysis
                  && reply.body.message == (if r.source == LlmSource then LlmPreview else LocalPreview))
            && (!(vtt.Some? && ParseWebVTTSpec(vtt.value) != []) ==> reply == Ok(NoCaptions(meta, NoCaptionsFound)))
  {
    TrimEmptyIff(query.value);
    var vtt := captions(Trim(query.value));
    if vtt.Some? && vtt.value == [] {
      NoArrowNoEntries(vtt.value);
    }
  }

  /** Since no captions are ever found, GET never returns an analysis, whichever analysis it would ask for. */
  lemma GetNeverPreviews(query: Option<string>, fetchMeta: string -> MetaReply, analyse: Analyser)
    ensures var reply := GetReply(query, fetchMeta, FetchCaptionsWebVTT, analyse);
            reply.BadRequest? || reply.ServerError?
            || (reply.Ok? && reply.body.NoCaptions? && reply.body.message == NoCaptionsFound)
  {
  }

  // POST /analyze {videoId, transcript}

  /**
   * A transcript element as the handler reads it: `text` when it is a string, and `ts` as
   * `Number(entry.ts)` already computed.
   */
  datatype RawEntry = RawEntry(text: Option<string>, ts: Num)

  /** The `transcript` field: an array of elements, or anything else. */
  datatype RawTranscript = NotArray | Entries(entries: seq<RawEntry>)

  /** The request body; a missing or empty `videoId` is `None` or `""`. */
  datatype PostBody = PostBody(videoId: Option<string>, transcript: RawTranscript)

  /** `Number(ts) || 0`: zero and NaN are falsy and become `0`; infinities are kept. */
  function NumberOrZero(n: Num): (r: Num)
    ensures r != NaN
    ensures n != NaN && n != Finite(0) ==> r == n
  {
    if n == NaN then Finite(0) else n
  }

  /** `typeof text === 'string' ? text.trim() : ''`. */
  function CleanedText(text: Option<string>): (r: string)
    ensures r == [] <==> text.None? || AllSpaces(text.value)
    ensures IsTrimmed(r)
  {
    if text.Some? then TrimEmptyIff(text.value); Trim(text.value) else ""
  }

  /** The `map` step of cleaning. */
  function CleanRaw(e: RawEntry): TranscriptEntry {
    TranscriptEntry(CleanedText(e.text), NumberOrZero(e.ts))
  }

  /** The `map` then `filter` that builds `cleaned`. */
  function CleanTranscript(raw: seq<RawEntry>): (cleaned: seq<TranscriptEntry>)
    ensures |cleaned| <= |raw|
    ensures forall i :: 0 <= i < |cleaned| ==> cleaned[i].text != [] && IsTrimmed(cleaned[i].text) && cleaned[i].ts != NaN
  {
    if raw == [] then []
    else
      var e := CleanRaw(raw[|raw| - 1]);
      CleanTranscript(raw[..|raw| - 1]) + (if e.text == [] then [] else [e])
  }

  /** Cleaning keeps the order of the request: it distributes over concatenation. */
  lemma {:induction false} CleanTranscriptAppend(a: seq<RawEntry>, b: seq<RawEntry>)
    ensures CleanTranscript(a + b) == CleanTranscript(a) + CleanTranscript(b)
    decreases |b|
  {
    if b == [] {
      assert a + b == a;
    } else {
      assert (a + b)[..|a + b| - 1] == a + b[..|b| - 1];
      CleanTranscriptAppend(a, b[..|b| - 1]);
    }
  }

  lemma {:induction false} CleanTranscriptComplete(raw: seq<RawEntry>, i: nat)
    requires i < |raw| && CleanRaw(raw[i]).text != []
    ensures CleanRaw(raw[i]) in CleanTranscript(raw)
  {
    var front := raw[..|raw| - 1];
    if i < |front| {
      assert front[i] == raw[i];
      CleanTranscriptComplete(front, i);
    }
  }

  lemma {:induction false} CleanTranscriptSound(raw: seq<RawEntry>, e: TranscriptEntry)
    requires e in CleanTranscript(raw)
    ensures exists i :: 0 <= i < |raw| && CleanRaw(raw[i]) == e
  {
    if raw != [] {
      var front := raw[..|raw| - 1];
      if e in CleanTranscript(front) {
        CleanTranscriptSound(front, e);
        var i :| 0 <= i < |front| && CleanRaw(front[i]) == e;
        assert raw[i] == front[i];
      } else {
        assert CleanRaw(raw[|raw| - 1]) == e;
      }
    }
  }

  /** An element survives, cleaned, exactly when its trimmed text is not empty. */
  lemma CleanTranscriptMembers(raw: seq<RawEntry>, e: TranscriptEntry)
    ensures e in CleanTranscript(raw) <==> e.text != [] && exists i :: 0 <= i < |raw| && CleanRaw(raw[i]) == e
  {
    if e in CleanTranscript(raw) {
      CleanTranscriptSound(raw, e);
    } else if e.text != [] {
      forall i | 0 <= i < |raw| ensures CleanRaw(raw[i]) != e {
        if CleanRaw(raw[i]) == e {
          CleanTranscriptComplete(raw, i);
        }
      }
    }
  }

  lemma {:induction false} AllBlankCleansToNothing(raw: seq<RawEntry>)
    requires forall i :: 0 <= i < |raw| ==> CleanRaw(raw[i]).text == []
    ensures CleanTranscript(raw) == []
  {
    if raw != [] {
      AllBlankCleansToNothing(raw[..|raw| - 1]);
    }
  }

  /** Nothing survives exactly when no element has a string text with something besides whitespace. */
  lemma CleanTranscriptEmpty(raw: seq<RawEntry>)
    ensures CleanTranscript(raw) == [] <==>
            forall i :: 0 <= i < |raw| ==> raw[i].text.None? || AllSpaces(raw[i].text.value)
  {
    if forall i :: 0 <= i < |raw| ==> raw[i].text.None? || AllSpaces(raw[i].text.value) {
      AllBlankCleansToNothing(raw);
    } else {
      var i :| 0 <= i < |raw| && !(raw[i].text.None? || AllSpaces(raw[i].text.value));
      CleanTranscriptComplete(raw, i);
    }
  }

  /** The outcome of validation: a refusal with its message, or the id and the cleaned transcript. */
  datatype Validated = Refused(message: string) | Accepted(videoId: string, cleaned: seq<TranscriptEntry>)

  /** The three early returns of the POST handler, in their order. */
  function ValidatePost(body: PostBody): Validated {
    if body.videoId.None? || body.videoId.value == [] then Refused(MissingBodyId)
    else if body.transcript.NotArray? || body.transcript.entries == [] then Refused(NoEntries)
    else if CleanTranscript(body.transcript.entries) == [] then Refused(EmptyAfterCleaning)
    else Accepted(body.videoId.value, CleanTranscript(body.transcript.entries))
  }

  /**
   * The checks are made in order: a missing id wins over a bad transcript, a missing or empty
   * array over one that cleans to nothing; a body that passes all three is accepted with its
   * id as given (untrimmed) and a non-empty cleaned transcript.
   */
  lemma ValidationOrder(body: PostBody)
    ensures body.videoId.None? || body.videoId.value == [] ==> ValidatePost(body) == Refused(MissingBodyId)
    ensures body.videoId.Some? && body.videoId.value != [] && (body.transcript.NotArray? || body.transcript.entries == [])
            ==> ValidatePost(body) == Refused(NoEntries)
    ensures body.videoId.Some? && body.videoId.value != [] && body.transcript.Entries? && body.transcript.entries != []
            ==> (ValidatePost(body) == Refused(EmptyAfterCleaning)
                 <==> forall i :: 0 <= i < |body.transcript.entries| ==>
                        body.transcript.entries[i].text.None? || AllSpaces(body.transcript.entries[i].text.value))
    ensures ValidatePost(body).Accepted? ==>
              ValidatePost(body).videoId == body.videoId.value && ValidatePost(body).cleaned != []
              && ValidatePost(body).cleaned == CleanTranscript(body.transcript.entries)
  {
    if body.transcript.Entries? {
      CleanTranscriptEmpty(body.transcript.entries);
    }
  }

  /**
   * The reply for an accepted request once the analysis is known: the heuristic analysis of the
   * cleaned transcript when there are no pairs, otherwise the analysis with its source and a
   * `warning` only when a non-empty error came back.
   */
  function ShapeAnalysis(meta: EpisodeMeta, result: AnalysisResult, heuristic: EpisodeAnalysis): Body {
    if result.analysis.highlightPairs == [] then Fallback(meta, heuristic, NoPairs)
    else
      Analysed(meta, result.analysis, result.source,
               if result.error.Some? && result.error.value != [] then result.error else None)
  }

  /** The POST handler with the metadata lookup, the analysis and the heuristic fallback as parameters. */
  function PostReply(body: PostBody, fetchMeta: string -> MetaReply, analyse: Analyser,
                     heuristic: (seq<TranscriptEntry>, EpisodeMeta) -> EpisodeAnalysis): Reply {
    match ValidatePost(body)
    case Refused(message) => BadRequest(message)
    case Accepted(videoId, cleaned) =>
      match fetchMeta(videoId)
      case MetaThrows(thrown) => ServerError(MessageOr(thrown, PostFailed))
      case MetaFound(meta) => Ok(ShapeAnalysis(meta, analyse(cleaned, meta), heuristic(cleaned, meta)))
  }

  /** `buildHeuristicAnalysis` on the cleaned transcript with the metadata found. */
  function LocalAnalysis(t: seq<TranscriptEntry>, meta: EpisodeMeta): EpisodeAnalysis {
    HeuristicAnalysis(t, Some(meta), DefaultLimit)
  }

  /** The POST handler of the program. */
  function HandlePost(body: PostBody, svc: Services): Reply {
    PostReply(body, svc.fetchMeta, Generate(svc), LocalAnalysis)
  }

  /** Zero pairs give the fallback body; otherwise the analysis is passed on with its source and warning. */
  lemma ShapeCases(meta: EpisodeMeta, result: AnalysisResult, heuristic: EpisodeAnalysis)
    ensures var b := ShapeAnalysis(meta, result, heuristic);
            (b.Fallback? <==> result.analysis.highlightPairs == [])
            && (b.Fallback? ==> b.analysis == heuristic && b.message == NoPairs)
            && (b.Analysed? ==> b.analysis == result.analysis && b.source == result.source
                                && (b.warning.Some? <==> result.error.Some? && result.error.value != [])
                                && (b.warning.Some? ==> b.warning == result.error))
            && b.meta == meta
  {
  }

  /** Every text of an accepted transcript shows something, so each one yields a pair. */
  lemma AcceptedAllMeaningful(cleaned: seq<TranscriptEntry>)
    requires forall i :: 0 <= i < |cleaned| ==> cleaned[i].text != [] && IsTrimmed(cleaned[i].text)
    ensures |Meaningful(cleaned)| == |cleaned|
  {
    forall i | 0 <= i < |cleaned| ensures !AllSpaces(cleaned[i].text) {
      assert !IsSpace(cleaned[i].text[0]);
    }
    MeaningfulKeepsVisible(cleaned);
  }

  /**
   * Without a configured model an accepted POST never falls back: the heuristic analysis of the
   * cleaned transcript has `min(10, |cleaned|)` pairs, at least one, comes with source
   * `heuristic` and no warning.
   */
  lemma UnconfiguredPostAnalyses(body: PostBody, svc: Services)
    requires !svc.configured
    requires ValidatePost(body).Accepted? && svc.fetchMeta(ValidatePost(body).videoId).MetaFound?
    ensures var v := ValidatePost(body);
            var meta := svc.fetchMeta(v.videoId).meta;
            HandlePost(body, svc)
            == Ok(Analysed(meta, HeuristicAnalysis(v.cleaned, Some(meta), DefaultLimit), HeuristicSource, None))
            && 1 <= |HeuristicAnalysis(v.cleaned, Some(meta), DefaultLimit).highlightPairs| == PairCount(|v.cleaned|, DefaultLimit)
  {
    var v := ValidatePost(body);
    var meta := svc.fetchMeta(v.videoId).meta;
    AcceptedAllMeaningful(v.cleaned);
    NotAvailable(v.cleaned, Some(meta), Resolved(RequestEpisodeAnalysis(v.cleaned, Some(meta), false, svc.limit, svc.respond, svc.parse)));
  }

  /**
   * The analysis step never reports an error, so a POST reply never carries a `warning`; and
   * with a configured model the source is always `llm`.
   */
  lemma PostNeverWarns(body: PostBody, svc: Services)
    ensures var reply := HandlePost(body, svc);
            reply.Ok? && reply.body.Analysed? ==>
              reply.body.warning.None? && (reply.body.source == LlmSource <==> svc.configured)
  {
    var v := ValidatePost(body);
    if v.Accepted? && svc.fetchMeta(v.videoId).MetaFound? {
      var meta := svc.fetchMeta(v.videoId).meta;
      GenerateSource(v.cleaned, Some(meta), svc.configured, svc.limit, svc.respond, svc.parse);
    }
  }

  /** A failed metadata lookup gives a 500 with the thrown message, or the fixed one for a non-`Error`. */
  lemma PostMetaFailure(body: PostBody, fetchMeta: string -> MetaReply, analyse: Analyser,
                        heuristic: (seq<TranscriptEntry>, EpisodeMeta) -> EpisodeAnalysis)
    requires ValidatePost(body).Accepted? && fetchMeta(ValidatePost(body).videoId).MetaThrows?
    ensures var t := fetchMeta(ValidatePost(body).videoId).thrown;
            PostReply(body, fetchMeta, analyse, heuristic) == ServerError(if t.ErrorObject? then t.message else PostFailed)
  {
  }
}
